/**
 Unsigned machine integers and their bit operators, written on natural numbers.

 The kernel computes table indices, frame addresses and bitmap bytes with shifts and masks.
 The operators are defined bit by bit; the lemmas at the end give each mask form that the
 kernel uses its arithmetic meaning.
 */
module Bits {

  const TWO_64: nat := 0x1_0000_0000_0000_0000

  type byte = x: nat | x < 256
  type word = x: nat | x < TWO_64

  /** A number cut to 32 bits and read as signed. */
  function ToInt32(n: nat): (r: int)
    ensures -0x8000_0000 <= r < 0x8000_0000 && (n - r) % 0x1_0000_0000 == 0
  {
    var low := n % 0x1_0000_0000;
    if low < 0x8000_0000 then low else low - 0x1_0000_0000
  }

  function Pow2(k: nat): (p: nat)
    ensures p >= 1
  {
    if k == 0 then 1 else 2 * Pow2(k - 1)
  }

  /** Bit number `i` of `x`. */
  predicate Bit(x: nat, i: nat) {
    if i == 0 then x % 2 == 1 else Bit(x / 2, i - 1)
  }

  function BitAnd(a: nat, b: nat): nat {
    if a == 0 || b == 0 then 0
    else 2 * BitAnd(a / 2, b / 2) + (if a % 2 == 1 && b % 2 == 1 then 1 else 0)
  }

  function BitOr(a: nat, b: nat): nat
    decreases a + b
  {
    if a == 0 then b
    else if b == 0 then a
    else 2 * BitOr(a / 2, b / 2) + (if a % 2 == 1 || b % 2 == 1 then 1 else 0)
  }

  /** The complement of a 64-bit value. */
  function BitNot64(a: word): word {
    TWO_64 - 1 - a
  }

  /** The complement of a value truncated to a byte. */
  function BitNot8(a: byte): byte {
    255 - a
  }

  lemma {:induction false} BitAndBits(a: nat, b: nat, i: nat)
    ensures Bit(BitAnd(a, b), i) == (Bit(a, i) && Bit(b, i))
  {
    if a == 0 || b == 0 {
      ZeroBits(i);
    } else {
      if i > 0 {
        BitAndBits(a / 2, b / 2, i - 1);
        assert BitAnd(a, b) / 2 == BitAnd(a / 2, b / 2);
      }
    }
  }

  lemma BitOrHalves(a: nat, b: nat)
    ensures BitOr(a, b) / 2 == BitOr(a / 2, b / 2)
    ensures BitOr(a, b) % 2 == 1 <==> a % 2 == 1 || b % 2 == 1
  {
  }

  lemma {:induction false} BitOrBits(a: nat, b: nat, i: nat)
    ensures Bit(BitOr(a, b), i) == (Bit(a, i) || Bit(b, i))
    decreases i
  {
    hide BitOr;
    BitOrHalves(a, b);
    if i > 0 {
      BitOrBits(a / 2, b / 2, i - 1);
    }
  }

  lemma {:induction false} ZeroBits(i: nat)
    ensures !Bit(0, i)
  {
    if i > 0 {
      ZeroBits(i - 1);
    }
  }

  lemma {:induction false} Pow2Bits(k: nat, i: nat)
    ensures Bit(Pow2(k), i) == (i == k)
  {
    if k == 0 {
      if i > 0 {
        ZeroBits(i - 1);
      }
    } else if i > 0 {
      Pow2Bits(k - 1, i - 1);
    }
  }

  /** Testing a single bit with a mask. */
  lemma TestMask(x: nat, k: nat)
    ensures BitAnd(x, Pow2(k)) != 0 <==> Bit(x, k)
  {
  }

  /** Setting a single bit with a mask. */
  lemma SetMask(x: nat, k: nat, i: nat)
    ensures Bit(BitOr(x, Pow2(k)), i) == (i == k || Bit(x, i))
  {
    BitOrBits(x, Pow2(k), i);
    Pow2Bits(k, i);
  }

  lemma BitDouble(y: nat, i: nat)
    ensures Bit(2 * y, i) == (i > 0 && Bit(y, i - 1))
    ensures Bit(2 * y + 1, i) == (i == 0 || Bit(y, i - 1))
  {
    assert (2 * y + 1) / 2 == y && 2 * y / 2 == y;
  }

  lemma {:induction false} NotBits(n: nat, k: nat, i: nat)
    requires k < n && i < n
    ensures Pow2(k) < Pow2(n)
    ensures Bit(Pow2(n) - 1 - Pow2(k), i) == (i != k)
  {
    hide Bit, Pow2;
    Pow2Step(n);
    Pow2Step(k);
    var q := Pow2(n - 1);
    if k == 0 {
      BitDouble(q - 1, i);
      if i > 0 {
        OnesBits(n - 1, i - 1);
      }
    } else {
      NotBits(n - 1, k - 1, if i > 0 then i - 1 else 0);
      BitDouble(q - 1 - Pow2(k - 1), i);
      assert Pow2(n) - 1 - Pow2(k) == 2 * (q - 1 - Pow2(k - 1)) + 1;
    }
  }

  lemma {:induction false} OnesBits(n: nat, i: nat)
    requires i < n
    ensures Bit(Pow2(n) - 1, i)
  {
    hide Bit, Pow2;
    Pow2Step(n);
    BitDouble(Pow2(n - 1) - 1, i);
    if i > 0 {
      OnesBits(n - 1, i - 1);
    }
  }

  lemma Pow2Below256(k: nat)
    requires k < 8
    ensures Pow2(k) < 256
    ensures Pow2(8) == 256
  {
  }

  /** Clearing a single bit of a byte with a complemented mask. */
  lemma ClearMask(x: byte, k: nat, i: nat)
    requires k < 8 && i < 8
    ensures Pow2(k) < 256
    ensures Bit(BitAnd(x, BitNot8(Pow2(k))), i) == (i != k && Bit(x, i))
  {
    Pow2Below256(k);
    NotBits(8, k, i);
    BitAndBits(x, BitNot8(Pow2(k)), i);
  }

  lemma {:induction false} BitAndBelow(a: nat, b: nat)
    ensures BitAnd(a, b) <= a
  {
    if a != 0 && b != 0 {
      BitAndBelow(a / 2, b / 2);
    }
  }

  lemma {:induction false} BitOrBelow(a: nat, b: nat, n: nat)
    requires a < Pow2(n) && b < Pow2(n)
    ensures BitOr(a, b) < Pow2(n)
  {
    if a != 0 && b != 0 {
      if n > 0 {
        BitOrBelow(a / 2, b / 2, n - 1);
      }
    }
  }

  lemma ModDouble(x: nat, p: nat)
    requires p > 0
    ensures x % (2 * p) == 2 * ((x / 2) % p) + x % 2
  {
    var q := (x / 2) / p;
    var r := 2 * ((x / 2) % p) + x % 2;
    assert x / 2 == p * q + (x / 2) % p;
    assert x == (2 * p) * q + r by {
      assert 2 * (p * q) == (2 * p) * q;
    }
    ModUnique(x, 2 * p, q, r);
  }

  lemma ModUnique(x: nat, m: nat, q: nat, r: nat)
    requires 0 <= r < m && x == m * q + r
    ensures x % m == r && x / m == q
  {
    var q', r' := x / m, x % m;
    assert x == m * q' + r';
    if q < q' {
      MulGap(m, q, q');
      assert false;
    }
    if q' < q {
      MulGap(m, q', q);
      assert false;
    }
  }

  lemma MulGap(m: nat, p: nat, q: nat)
    requires p < q
    ensures m * p + m <= m * q
  {
    assert m * (p + 1) <= m * q;
  }

  function ShiftRight(v: nat, k: nat): nat {
    if k == 0 then v else ShiftRight(v / 2, k - 1)
  }

  /** A right shift divides by a power of two. */
  lemma {:induction false} ShiftRightIs(v: nat, k: nat)
    ensures ShiftRight(v, k) == v / Pow2(k)
  {
    if k > 0 {
      ShiftRightIs(v / 2, k - 1);
      DivDiv(v, 2, Pow2(k - 1));
    }
  }

  /** Shifting right twice is shifting right once by the sum. */
  lemma DivDiv(x: nat, a: nat, b: nat)
    requires a > 0 && b > 0
    ensures a * b > 0 && x / (a * b) == x / a / b
  {
    var q, r := x / a, x % a;
    var q', r' := q / b, q % b;
    assert x == a * (b * q' + r') + r == (a * b) * q' + (a * r' + r);
    assert a * r' + r < a * b by {
      MulGap(a, r', b);
    }
    ModUnique(x, a * b, q', a * r' + r);
  }

  lemma {:induction false} Pow2Add(j: nat, k: nat)
    ensures Pow2(j + k) == Pow2(j) * Pow2(k)
  {
    if j > 0 {
      Pow2Add(j - 1, k);
    }
  }

  lemma BitAndHalves(a: nat, b: nat)
    ensures BitAnd(a, b) == 2 * BitAnd(a / 2, b / 2) + (if a % 2 == 1 && b % 2 == 1 then 1 else 0)
  {
  }

  lemma Pow2Step(k: nat)
    ensures k > 0 ==> Pow2(k) == 2 * Pow2(k - 1)
    ensures k == 0 ==> Pow2(k) == 1
  {
  }

  /** Masking with 2^k - 1 takes the remainder modulo 2^k. */
  lemma {:induction false} LowMask(x: nat, k: nat)
    ensures BitAnd(x, Pow2(k) - 1) == x % Pow2(k)
  {
    hide BitAnd, Pow2;
    Pow2Step(k);
    if k == 0 {
      AndZero(x);
    } else {
      LowMask(x / 2, k - 1);
      LowMaskStep(x, Pow2(k - 1), Pow2(k));
    }
  }

  lemma LowMaskStep(x: nat, p: nat, p2: nat)
    requires p > 0 && p2 == 2 * p && BitAnd(x / 2, p - 1) == x / 2 % p
    ensures BitAnd(x, p2 - 1) == x % p2
  {
    hide BitAnd;
    BitAndHalves(x, 2 * p - 1);
    ModDouble(x, p);
    assert (2 * p - 1) / 2 == p - 1 && (2 * p - 1) % 2 == 1;
  }

  lemma AndZero(x: nat)
    ensures BitAnd(x, 0) == 0
  {
  }

  lemma {:induction false} Pow2Monotone(k: nat, n: nat)
    requires k <= n
    ensures Pow2(k) <= Pow2(n)
  {
    if k < n {
      Pow2Monotone(k, n - 1);
    }
  }

  /** Masking an n-bit value with the complement of 2^k - 1 clears its low k bits. */
  lemma {:induction false} HighMask(x: nat, n: nat, k: nat)
    requires k <= n && x < Pow2(n)
    ensures Pow2(k) <= Pow2(n)
    ensures BitAnd(x, Pow2(n) - Pow2(k)) == x - x % Pow2(k)
    decreases n
  {
    hide BitAnd, Pow2;
    Pow2Monotone(k, n);
    Pow2Step(k);
    Pow2Step(n);
    if k == 0 {
      AllMask(x, n);
    } else {
      HighMask(x / 2, n - 1, k - 1);
      HighMaskStep(x, Pow2(n - 1), Pow2(k - 1), Pow2(n), Pow2(k));
    }
  }

  lemma AllMask(x: nat, n: nat)
    requires x < Pow2(n)
    ensures BitAnd(x, Pow2(n) - 1) == x == x - x % 1
  {
    hide BitAnd, Pow2;
    LowMask(x, n);
    ModUnique(x, Pow2(n), 0, x);
  }

  lemma HighMaskStep(x: nat, q: nat, p: nat, q2: nat, p2: nat)
    requires 0 < p <= q && q2 == 2 * q && p2 == 2 * p
    requires BitAnd(x / 2, q - p) == x / 2 - x / 2 % p
    ensures BitAnd(x, q2 - p2) == x - x % p2
  {
    hide BitAnd;
    ModDouble(x, p);
    BitAndHalves(x, 2 * q - 2 * p);
    assert (2 * q - 2 * p) / 2 == q - p && (2 * q - 2 * p) % 2 == 0;
  }

  /** Or-ing a value below 2^k touches only the low k bits. */
  lemma {:induction false} OrLow(a: nat, k: nat, b: nat, c: nat)
    requires b < Pow2(k) && c < Pow2(k)
    ensures BitOr(a * Pow2(k) + b, c) == a * Pow2(k) + BitOr(b, c)
    decreases k
  {
    hide BitOr, Pow2;
    Pow2Step(k);
    if k == 0 {
      BitOrZero(a);
      BitOrZero(0);
    } else {
      var p := Pow2(k - 1);
      OrLow(a, k - 1, b / 2, c / 2);
      assert a * Pow2(k) == 2 * (a * p);
      OrLowStep(a * p, b, c);
    }
  }

  lemma BitOrZero(a: nat)
    ensures BitOr(a, 0) == a == BitOr(0, a)
  {
  }

  lemma OrLowStep(h: nat, b: nat, c: nat)
    requires BitOr(h + b / 2, c / 2) == h + BitOr(b / 2, c / 2)
    ensures BitOr(2 * h + b, c) == 2 * h + BitOr(b, c)
  {
    hide BitOr;
    assert (2 * h + b) / 2 == h + b / 2 && (2 * h + b) % 2 == b % 2;
    BitOrHalves(2 * h + b, c);
    BitOrHalves(b, c);
  }

  lemma Pow2Small()
    ensures Pow2(1) == 2 && Pow2(4) == 16
  {
  }

  lemma Pow2Constants()
    ensures Pow2(1) == 2 && Pow2(8) == 256 && Pow2(9) == 512 && Pow2(12) == 4096
    ensures Pow2(64) == TWO_64
  {
    hide Pow2;
    Pow2Small();
    Pow2Add(4, 4);
    Pow2Add(8, 1);
    Pow2Add(8, 4);
    Pow2Add(8, 8);
    Pow2Add(16, 16);
    Pow2Add(32, 32);
  }

  lemma PageShifts()
    ensures Pow2(12) == 0x1000 && Pow2(21) == 0x20_0000 && Pow2(30) == 0x4000_0000 && Pow2(39) == 0x80_0000_0000
  {
    hide Pow2;
    Pow2Constants();
    Pow2Add(12, 9);
    Pow2Add(21, 9);
    Pow2Add(30, 9);
  }

  /** The page-table masks: the low twelve bits, their complement, nine index bits, the present bit. */
  lemma PageMasks(x: word)
    ensures BitAnd(x, 0xFFF) == x % 4096
    ensures BitAnd(x, BitNot64(0xFFF)) == x - x % 4096
    ensures BitAnd(x, 0x1FF) == x % 512
    ensures BitAnd(x, 1) == x % 2
  {
    hide Pow2, BitAnd;
    Pow2Constants();
    LowMask(x, 12);
    LowMask(x, 9);
    LowMask(x, 1);
    HighMask(x, 64, 12);
  }

  /** Or-ing flag bits into a frame address: `frame * 4096 + b` or-ed with `c`. */
  lemma OrFlags(frame: nat, b: nat, c: nat)
    requires b < 4096 && c < 4096
    ensures BitOr(frame * 4096 + b, c) == frame * 4096 + BitOr(b, c)
    ensures BitOr(b, c) < 4096
  {
    assert Pow2(12) == 4096;
    OrLow(frame, 12, b, c);
    BitOrBelow(b, c, 12);
  }

  lemma OrPresent(b: nat)
    ensures BitOr(b, 1) == if b % 2 == 1 then b else b + 1
  {
  }
}
