/**
 Positional notation: the digit strings that `%d`, `%x`, `%p` and `print_hex64` produce
 (lib/libk/src/stdio.rs), and reading them back.
 */
module Numbers {
  import opened Bits
  import opened Options

  /** The digits of a number, most significant first; none for 0. */
  function Digits(v: nat, base: nat): (ds: seq<nat>)
    requires base >= 2
    ensures forall k :: 0 <= k < |ds| ==> ds[k] < base
  {
    if v == 0 then [] else Digits(v / base, base) + [v % base]
  }

  function Value(ds: seq<nat>, base: nat): nat {
    if ds == [] then 0 else Value(ds[..|ds| - 1], base) * base + ds[|ds| - 1]
  }

  function Power(base: nat, n: nat): nat {
    if n == 0 then 1 else base * Power(base, n - 1)
  }

  /** A digit as a character: '0'..'9', 'a'..'f'. */
  function DigitChar(d: nat): (c: byte)
    requires d < 16
    ensures CharDigit(c) == Some(d)
  {
    if d < 10 then 48 + d else 97 + (d - 10)
  }

  function CharDigit(c: byte): Option<nat> {
    if 48 <= c <= 57 then Some(c - 48)
    else if 97 <= c <= 102 then Some(c - 87)
    else None
  }

  /** The sixteen digit characters. */
  lemma DigitChars(d: nat)
    requires d < 16
    ensures DigitChar(d) == "0123456789abcdef"[d] as int
  {
  }

  function Chars(ds: seq<nat>): (s: seq<byte>)
    requires forall k :: 0 <= k < |ds| ==> ds[k] < 16
    ensures |s| == |ds| && forall k :: 0 <= k < |ds| ==> s[k] == DigitChar(ds[k])
  {
    seq(|ds|, k requires 0 <= k < |ds| => DigitChar(ds[k]))
  }

  /** The text of a number: a single 0 for zero, otherwise its digits. */
  function Text(v: nat, base: nat): (s: seq<byte>)
    requires 2 <= base <= 16
  {
    if v == 0 then [48] else Chars(Digits(v, base))
  }

  /** The low `n` hexadecimal digits, zero-padded. */
  function PaddedHex(v: nat, n: nat): (s: seq<byte>)
    ensures |s| == n
  {
    if n == 0 then [] else PaddedHex(v / 16, n - 1) + [DigitChar(v % 16)]
  }

  /** Reads a non-empty digit string. */
  function Parse(s: seq<byte>, base: nat): Option<nat> {
    if s == [] then None
    else
      match CharDigit(s[|s| - 1])
      case None => None
      case Some(d) =>
        if d >= base then None
        else if |s| == 1 then Some(d)
        else
          match Parse(s[..|s| - 1], base)
          case None => None
          case Some(v) => Some(v * base + d)
  }

  /** No leading zero, except for "0" itself. */
  predicate Canonical(s: seq<byte>) {
    |s| >= 1 && (s[0] == 48 ==> |s| == 1)
  }

  /** The last digit of a number and the number that the other digits make. */
  lemma Split(v: nat, base: nat) returns (q: nat, r: nat)
    requires v > 0 && base >= 2
    ensures q < v && r < base && v == q * base + r
    ensures Digits(v, base) == Digits(q, base) + [r]
    ensures q == 0 ==> Digits(v, base) == [v]
  {
    q, r := v / base, v % base;
    DigitsStep(v, base);
    hide Digits;
    DivisionParts(v, base);
  }

  lemma DigitsStep(v: nat, base: nat)
    requires v > 0 && base >= 2
    ensures Digits(v, base) == Digits(v / base, base) + [v % base] && Digits(0, base) == []
  {
  }

  lemma DivisionParts(v: nat, base: nat)
    requires v > 0 && base >= 2
    ensures v / base < v && v % base < base && v == v / base * base + v % base
    ensures v / base == 0 ==> v % base == v
  {
    var q := v / base;
    assert v == base * q + v % base;
    if q > 0 {
      MulGap(q, 1, base);
    }
  }

  lemma {:induction false} DigitsLead(v: nat, base: nat)
    requires base >= 2 && v > 0
    ensures Digits(v, base) != [] && Digits(v, base)[0] != 0
  {
    hide Digits;
    var q, r := Split(v, base);
    if q > 0 {
      DigitsLead(q, base);
    }
  }

  lemma {:induction false} ValueOfDigits(v: nat, base: nat)
    requires base >= 2
    ensures Value(Digits(v, base), base) == v
  {
    if v > 0 {
      var q, r := Split(v, base);
      hide Digits;
      ValueOfDigits(q, base);
      assert (Digits(q, base) + [r])[..|Digits(q, base)|] == Digits(q, base);
    }
  }

  lemma QuotientBelow(q: nat, r: nat, base: nat, p: nat)
    requires q * base + r < base * p
    ensures q < p
  {
  }

  /** A number below base^n has at most n digits. */
  lemma {:induction false} DigitsFit(v: nat, base: nat, n: nat)
    requires base >= 2 && v < Power(base, n)
    ensures |Digits(v, base)| <= n
  {
    if v > 0 {
      hide Digits;
      var q, r := Split(v, base);
      assert n > 0;
      QuotientBelow(q, r, base, Power(base, n - 1));
      hide Power;
      DigitsFit(q, base, n - 1);
    } else {
      assert Digits(v, base) == [];
    }
  }

  /** Reading one more digit. */
  lemma ParseMore(s: seq<byte>, d: nat, base: nat)
    requires d < base <= 16
    ensures s == [] ==> Parse(s + [DigitChar(d)], base) == Some(d)
    ensures s != [] && Parse(s, base).Some? ==>
              Parse(s + [DigitChar(d)], base) == Some(Parse(s, base).value * base + d)
  {
  }

  lemma {:induction false} ParseChars(v: nat, base: nat)
    requires 2 <= base <= 16 && v > 0
    ensures Parse(Chars(Digits(v, base)), base) == Some(v)
  {
    hide Digits, Parse;
    var q, r := Split(v, base);
    assert Chars(Digits(v, base)) == Chars(Digits(q, base)) + [DigitChar(r)];
    ParseMore(Chars(Digits(q, base)), r, base);
    if q > 0 {
      ParseChars(q, base);
      DigitsLead(q, base);
    } else {
      ParseMore([], r, base);
      assert Chars(Digits(v, base)) == [] + [DigitChar(v)];
    }
  }

  /** Reading back the printed text gives the number, and the text has no leading zero. */
  lemma ParseText(v: nat, base: nat)
    requires 2 <= base <= 16
    ensures Parse(Text(v, base), base) == Some(v) && Canonical(Text(v, base))
  {
    if v > 0 {
      ParseChars(v, base);
      DigitsLead(v, base);
    }
  }

  /** Reading back a zero-padded text that is wide enough gives the number. */
  lemma {:induction false} ParsePadded(v: nat, n: nat)
    requires n >= 1 && v < Power(16, n)
    ensures Parse(PaddedHex(v, n), 16) == Some(v)
  {
    hide Parse;
    PowerStep(16, n);
    DivisionBy16(v);
    ParseMore(PaddedHex(v / 16, n - 1), v % 16, 16);
    if n == 1 {
      assert Power(16, 0) == 1 && PaddedHex(v / 16, 0) == [];
    } else {
      ParsePadded(v / 16, n - 1);
    }
  }

  lemma DivisionBy16(v: nat)
    ensures v == v / 16 * 16 + v % 16 && v % 16 < 16
  {
  }

  /** The printed text is the only canonical text of its number. */
  lemma {:induction false} TextUnique(s: seq<byte>, v: nat, base: nat)
    requires 2 <= base <= 16 && Canonical(s) && Parse(s, base) == Some(v)
    ensures s == Text(v, base)
    decreases |s|
  {
    var i := s[..|s| - 1];
    var d := CharDigit(s[|s| - 1]).value;
    assert DigitChar(d) == s[|s| - 1];
    if |s| == 1 {
      DigitsOf(0, d, base);
      assert Digits(0, base) == [];
    } else {
      var w := Parse(i, base).value;
      assert Canonical(i);
      TextUnique(i, w, base);
      DigitsOf(w, d, base);
      hide Digits, Parse;
      assert w > 0;
      assert s == i + [DigitChar(d)];
      assert s == Chars(Digits(w, base) + [d]);
    }
  }

  lemma DigitsOf(w: nat, d: nat, base: nat)
    requires d < base && base >= 2
    ensures w * base + d > 0 ==> Digits(w * base + d, base) == Digits(w, base) + [d]
    ensures w > 0 ==> w * base + d > 0
  {
    ModUnique(w * base + d, base, w, d);
  }

  lemma {:induction false} DivPower(v: nat, n: nat)
    ensures Power(16, n) > 0
    ensures v / 16 / Power(16, n) == v / Power(16, n + 1)
  {
    PowerPositive(n);
    DivDiv(v, 16, Power(16, n));
  }

  lemma {:induction false} PowerPositive(n: nat)
    ensures Power(16, n) > 0
  {
    if n > 0 {
      PowerPositive(n - 1);
    }
  }

  /** Digit `j` of the padded text is the nibble that a shift by 4 * (n - 1 - j) exposes. */
  lemma {:induction false} PaddedHexAt(v: nat, n: nat, j: nat)
    requires j < n
    ensures Power(16, n - 1 - j) > 0
    ensures PaddedHex(v, n)[j] == DigitChar(v / Power(16, n - 1 - j) % 16)
  {
    PowerPositive(n - 1 - j);
    if j < n - 1 {
      PaddedHexAt(v / 16, n - 1, j);
      DivPower(v, n - 2 - j);
    }
  }

  function Zeros(n: nat): (s: seq<byte>)
    ensures |s| == n
  {
    seq(n, _ => 48)
  }

  /** The padded text is the plain one behind zeros. */
  lemma {:induction false} PaddedIsText(v: nat, n: nat)
    requires n >= 1 && v < Power(16, n)
    ensures |Text(v, 16)| <= n && PaddedHex(v, n) == Zeros(n - |Text(v, 16)|) + Text(v, 16)
  {
    TextStep(v);
    hide Text, Zeros;
    PowerStep(16, n);
    if n == 1 {
      assert Power(16, 0) == 1;
      assert PaddedHex(v / 16, 0) == [];
      NoZeros();
    } else {
      assert v / 16 < Power(16, n - 1);
      PaddedIsText(v / 16, n - 1);
      OneMoreZero(n - 2);
    }
  }

  lemma TextStep(v: nat)
    ensures Text(v, 16) == (if v < 16 then [] else Text(v / 16, 16)) + [DigitChar(v % 16)]
    ensures v < 16 ==> Text(v / 16, 16) == [48]
  {
    if v > 0 {
      DigitsStep(v, 16);
      hide Digits;
      assert Chars(Digits(v, 16)) == Chars(Digits(v / 16, 16)) + [DigitChar(v % 16)];
    }
  }

  lemma NoZeros()
    ensures Zeros(0) == []
  {
  }

  lemma OneMoreZero(n: nat)
    ensures Zeros(n + 1) == Zeros(n) + [48]
  {
  }

  /** 64-bit numbers have at most 20 decimal and 16 hexadecimal digits. */
  lemma WordDigitsFit(v: word)
    ensures |Digits(v, 10)| <= 20 && |Digits(v, 16)| <= 16
    ensures v < Power(16, 16)
  {
    assert Power(10, 5) == 100000;
    assert Power(10, 10) == 100000 * 100000 by { PowerAdd(10, 5, 5); }
    assert Power(10, 20) == 100_0000_0000_0000_0000_00 by { PowerAdd(10, 10, 10); }
    assert Power(16, 4) == 0x1_0000;
    assert Power(16, 8) == 0x1_0000_0000 by { PowerAdd(16, 4, 4); }
    assert Power(16, 16) == TWO_64 by { PowerAdd(16, 8, 8); }
    DigitsFit(v, 10, 20);
    DigitsFit(v, 16, 16);
  }

  lemma {:induction false} PowerAdd(base: nat, j: nat, k: nat)
    ensures Power(base, j + k) == Power(base, j) * Power(base, k)
  {
    hide Power;
    PowerStep(base, j);
    PowerStep(base, j + k);
    if j > 0 {
      PowerAdd(base, j - 1, k);
      MulAssociative(base, Power(base, j - 1), Power(base, k));
    }
  }

  lemma PowerStep(base: nat, n: nat)
    ensures Power(base, n) == if n == 0 then 1 else base * Power(base, n - 1)
  {
  }

  lemma MulAssociative(a: nat, b: nat, c: nat)
    ensures a * (b * c) == a * b * c
  {
  }
}
