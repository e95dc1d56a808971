/**
 The format interpreter and number printers of lib/libk/src/stdio.rs, on top of the console.
 The bytes printed are the bytes sent to the serial port, and the terminal is fed the same bytes.
 */
module Printf {
  import opened Bits
  import opened Options
  import opened Terminal
  import opened Numbers
  import opened Consoles

  const PERCENT: byte := 37

  /** A 64-bit argument, and the bytes in memory from the address it holds, for `%s`. */
  datatype Arg = Arg(value: word, memory: seq<byte>)

  /** The bytes before the terminating zero. */
  function CString(memory: seq<byte>): (s: seq<byte>)
    requires 0 in memory
    ensures |s| < |memory| && s == memory[..|s|] && 0 !in s && memory[|s|] == 0
  {
    if memory[0] == 0 then [] else
      assert memory == [memory[0]] + memory[1..];
      [memory[0]] + CString(memory[1..])
  }

  // ----- The meaning of a format -----

  datatype Token = Literal(c: byte) | Directive(c: byte)

  /** A format as literal bytes and directives; a lone percent at the end is dropped. */
  function Tokens(f: seq<byte>): seq<Token> {
    if f == [] then []
    else if f[0] != PERCENT then [Literal(f[0])] + Tokens(f[1..])
    else if |f| == 1 then []
    else [Directive(f[1])] + Tokens(f[2..])
  }

  /** The directives that consume an argument: s, c, d, x, X, p. */
  predicate Takes(token: Token) {
    token.Directive? && token.c in [115, 99, 100, 120, 88, 112]
  }

  /** The number of arguments a format consumes. */
  function Needs(tokens: seq<Token>): nat {
    if tokens == [] then 0 else (if Takes(tokens[0]) then 1 else 0) + Needs(tokens[1..])
  }

  /** Enough arguments, and every `%s` argument is a terminated string. */
  predicate Supplied(tokens: seq<Token>, args: seq<Arg>) {
    tokens == [] ||
    if Takes(tokens[0])
    then args != [] && (tokens[0].c == 115 ==> 0 in args[0].memory) && Supplied(tokens[1..], args[1..])
    else Supplied(tokens[1..], args)
  }

  function ShowArg(c: byte, arg: Arg): seq<byte>
    requires c == 115 ==> 0 in arg.memory
  {
    if c == 115 then CString(arg.memory)
    else if c == 99 then [arg.value % 256]
    else if c == 100 then Text(arg.value, 10)
    else if c == 112 then [48, 120] + PaddedHex(arg.value, 16)
    else [48, 120] + Text(arg.value, 16)
  }

  function ShowToken(token: Token, args: seq<Arg>): seq<byte>
    requires Takes(token) ==> args != [] && (token.c == 115 ==> 0 in args[0].memory)
  {
    if token.Literal? then [token.c]
    else if Takes(token) then ShowArg(token.c, args[0])
    else if token.c == PERCENT then [PERCENT]
    else [PERCENT, token.c]
  }

  /** The bytes that a format prints. */
  function Render(tokens: seq<Token>, args: seq<Arg>): seq<byte>
    requires Supplied(tokens, args)
  {
    if tokens == [] then []
    else ShowToken(tokens[0], args) + Render(tokens[1..], if Takes(tokens[0]) then args[1..] else args)
  }

  /** The format ends outside a directive. */
  predicate Complete(f: seq<byte>) {
    if f == [] then true
    else if f[0] != PERCENT then Complete(f[1..])
    else |f| > 1 && Complete(f[2..])
  }

  // ----- Formats compose -----

  lemma {:induction false} TokensConcat(f: seq<byte>, g: seq<byte>)
    requires Complete(f)
    ensures Tokens(f + g) == Tokens(f) + Tokens(g)
    decreases |f|
  {
    if f == [] {
      assert f + g == g;
    } else if f[0] != PERCENT {
      assert (f + g)[1..] == f[1..] + g;
      TokensConcat(f[1..], g);
    } else {
      assert (f + g)[2..] == f[2..] + g;
      TokensConcat(f[2..], g);
    }
  }

  lemma {:induction false} RenderConcat(a: seq<Token>, b: seq<Token>, args: seq<Arg>)
    requires Supplied(a + b, args)
    ensures Supplied(a, args) && Needs(a) <= |args| && Supplied(b, args[Needs(a)..])
    ensures Render(a + b, args) == Render(a, args) + Render(b, args[Needs(a)..])
    decreases |a|
  {
    hide Takes, ShowToken, Render, Supplied;
    if a == [] {
      assert a + b == b && args[0..] == args;
      RenderNone(args);
    } else {
      assert a + b == [a[0]] + (a[1..] + b);
      var n := if Takes(a[0]) then 1 else 0;
      RenderCons(a[0], a[1..] + b, args);
      RenderConcat(a[1..], b, args[n..]);
      assert a == [a[0]] + a[1..];
      SuppliedCons(a[0], a[1..], args);
      RenderCons(a[0], a[1..], args);
      assert args[n..][Needs(a[1..])..] == args[Needs(a)..];
      var first, mid, last := ShowToken(a[0], args), Render(a[1..], args[n..]), Render(b, args[Needs(a)..]);
      assert first + (mid + last) == (first + mid) + last;
    }
  }

  lemma RenderNone(args: seq<Arg>)
    ensures Supplied([], args) && Render([], args) == []
  {
  }

  lemma SuppliedCons(token: Token, rest: seq<Token>, args: seq<Arg>)
    ensures var n := if Takes(token) then 1 else 0;
            Supplied([token] + rest, args) <==>
            n <= |args| && (Takes(token) && token.c == 115 ==> 0 in args[0].memory) && Supplied(rest, args[n..])
  {
  }

  lemma RenderCons(token: Token, rest: seq<Token>, args: seq<Arg>)
    requires Supplied([token] + rest, args)
    ensures var n := if Takes(token) then 1 else 0;
            && n <= |args| && (Takes(token) && token.c == 115 ==> 0 in args[0].memory) && Supplied(rest, args[n..])
            && Render([token] + rest, args) == ShowToken(token, args) + Render(rest, args[n..])
  {
  }

  /** A format cut outside a directive prints as its two parts, with the arguments cut accordingly. */
  lemma FormatComposes(f: seq<byte>, g: seq<byte>, args: seq<Arg>)
    requires Complete(f) && Supplied(Tokens(f + g), args)
    ensures var n := Needs(Tokens(f));
            && n <= |args| && Supplied(Tokens(f), args) && Supplied(Tokens(g), args[n..])
            && Render(Tokens(f + g), args) == Render(Tokens(f), args) + Render(Tokens(g), args[n..])
  {
    TokensConcat(f, g);
    RenderConcat(Tokens(f), Tokens(g), args);
  }

  /** Only the arguments that directives consume matter. */
  lemma {:induction false} ExtraArgs(tokens: seq<Token>, args: seq<Arg>)
    requires Supplied(tokens, args)
    ensures Needs(tokens) <= |args| && Supplied(tokens, args[..Needs(tokens)])
    ensures Render(tokens, args) == Render(tokens, args[..Needs(tokens)])
  {
    if tokens != [] {
      if Takes(tokens[0]) {
        ExtraArgs(tokens[1..], args[1..]);
        assert args[..Needs(tokens)][1..] == args[1..][..Needs(tokens[1..])];
      } else {
        ExtraArgs(tokens[1..], args);
      }
    }
  }

  // ----- What each directive prints, in bytes -----

  /** Outside directives a format prints its bytes. */
  lemma LiteralPrints(c: byte, f: seq<byte>, args: seq<Arg>)
    requires c != 37 && Supplied(Tokens([c] + f), args)
    ensures Supplied(Tokens(f), args) && Render(Tokens([c] + f), args) == [c] + Render(Tokens(f), args)
  {
    hide Render, Supplied;
    assert ([c] + f)[1..] == f && args[0..] == args;
    RenderCons(Literal(c), Tokens(f), args);
  }

  /** The empty format prints nothing, and neither does a lone percent at the end. */
  lemma NothingPrints(args: seq<Arg>)
    ensures Supplied(Tokens([]), args) && Render(Tokens([]), args) == []
    ensures Supplied(Tokens([37]), args) && Render(Tokens([37]), args) == []
  {
  }

  lemma DirectivePrints(c: byte, f: seq<byte>, args: seq<Arg>)
    requires Supplied(Tokens([37, c] + f), args)
    ensures var d := Directive(c);
            var n := if Takes(d) then 1 else 0;
            && n <= |args| && (Takes(d) && c == 115 ==> 0 in args[0].memory) && Supplied(Tokens(f), args[n..])
            && Render(Tokens([37, c] + f), args) == ShowToken(d, args) + Render(Tokens(f), args[n..])
  {
    hide Render, Supplied, Takes, ShowToken;
    assert ([37, c] + f)[2..] == f;
    RenderCons(Directive(c), Tokens(f), args);
  }

  /** `%d` prints a decimal text without leading zeros that reads as its argument. */
  lemma DecimalPrints(f: seq<byte>, args: seq<Arg>)
    requires Supplied(Tokens([37, 100] + f), args)
    ensures args != [] && Supplied(Tokens(f), args[1..])
    ensures exists s :: Canonical(s) && Parse(s, 10) == Some(args[0].value)
                        && Render(Tokens([37, 100] + f), args) == s + Render(Tokens(f), args[1..])
  {
    hide Render, Supplied, Tokens, Canonical, Parse, Text;
    DirectivePrints(100, f, args);
    ParseText(args[0].value, 10);
  }

  /** `%x` and `%X` print "0x" and a hexadecimal text without leading zeros that reads as their argument. */
  lemma HexPrints(c: byte, f: seq<byte>, args: seq<Arg>)
    requires c in [120, 88] && Supplied(Tokens([37, c] + f), args)
    ensures args != [] && Supplied(Tokens(f), args[1..])
    ensures exists s :: Canonical(s) && Parse(s, 16) == Some(args[0].value)
                        && Render(Tokens([37, c] + f), args) == [48, 120] + s + Render(Tokens(f), args[1..])
  {
    hide Render, Supplied, Tokens, Canonical, Parse, Text;
    DirectivePrints(c, f, args);
    ParseText(args[0].value, 16);
  }

  /** `%p` prints "0x" and sixteen digits that read as its argument. */
  lemma PointerPrints(f: seq<byte>, args: seq<Arg>)
    requires Supplied(Tokens([37, 112] + f), args)
    ensures args != [] && Supplied(Tokens(f), args[1..])
    ensures exists s :: |s| == 16 && Parse(s, 16) == Some(args[0].value)
                        && Render(Tokens([37, 112] + f), args) == [48, 120] + s + Render(Tokens(f), args[1..])
  {
    hide Render, Supplied, Tokens, Parse, PaddedHex;
    DirectivePrints(112, f, args);
    WordDigitsFit(args[0].value);
    ParsePadded(args[0].value, 16);
  }

  /** `%c` prints the low byte of its argument. */
  lemma CharPrints(f: seq<byte>, args: seq<Arg>)
    requires Supplied(Tokens([37, 99] + f), args)
    ensures args != [] && Supplied(Tokens(f), args[1..])
    ensures Render(Tokens([37, 99] + f), args) == [args[0].value % 256] + Render(Tokens(f), args[1..])
  {
    hide Render, Supplied, Tokens;
    DirectivePrints(99, f, args);
  }

  /** `%s` prints the bytes before the first zero. */
  lemma StringPrints(f: seq<byte>, args: seq<Arg>)
    requires Supplied(Tokens([37, 115] + f), args)
    ensures args != [] && Supplied(Tokens(f), args[1..])
    ensures exists s :: 0 !in s && s + [0] <= args[0].memory
                        && Render(Tokens([37, 115] + f), args) == s + Render(Tokens(f), args[1..])
  {
    hide Render, Supplied, Tokens;
    DirectivePrints(115, f, args);
    var s := CString(args[0].memory);
    assert s + [0] == args[0].memory[..|s| + 1];
  }

  /** `%%` prints one percent, and any other byte after a percent prints both; neither takes an argument. */
  lemma OtherPrints(c: byte, f: seq<byte>, args: seq<Arg>)
    requires c !in [115, 99, 100, 120, 88, 112] && Supplied(Tokens([37, c] + f), args)
    ensures Supplied(Tokens(f), args)
    ensures Render(Tokens([37, c] + f), args) == (if c == 37 then [37] else [37, c]) + Render(Tokens(f), args)
  {
    hide Render, Supplied, Tokens;
    DirectivePrints(c, f, args);
    assert args[0..] == args;
  }

  // ----- Printing -----

  /** `kputs`. */
  method Kputs(con: Console, memory: seq<byte>, ghost t: Terminal)
    requires con.Shows(t) && 0 in memory
    modifies con, con.buffer
    ensures con.Shows(LazyRun(t, CString(memory))) && con.serial == old(con.serial) + CString(memory)
  {
    hide ShowsTerminal, LazyPut;
    CursorOnScreen(con.buffer[..], con.cursorX, con.cursorY, con.color, t);
    ghost var s := CString(memory);
    var i := 0;
    assert s[..0] == [];
    while memory[i] != 0
      invariant 0 <= i <= |s|
      invariant con.Shows(LazyRun(t, s[..i])) && con.serial == old(con.serial) + s[..i]
      decreases |s| - i
    {
      con.Kputc(memory[i], LazyRun(t, s[..i]));
      LazyRunStep(t, s[..i], s[i]);
      assert s[..i + 1] == s[..i] + [s[i]];
      i := i + 1;
    }
    assert s[..i] == s;
  }

  /** Sends the bytes of a filled buffer from index `from` on. */
  method PutTail(con: Console, buf: array<byte>, from: nat, ghost t: Terminal)
    requires con.Shows(t) && from <= buf.Length && buf != con.buffer
    modifies con, con.buffer
    ensures con.Shows(LazyRun(t, buf[from..])) && con.serial == old(con.serial) + buf[from..]
    ensures buf[..] == old(buf[..])
  {
    hide ShowsTerminal, LazyPut;
    CursorOnScreen(con.buffer[..], con.cursorX, con.cursorY, con.color, t);
    var k := from;
    ghost var s := buf[..];
    while k < buf.Length
      invariant from <= k <= buf.Length && buf[..] == s
      invariant con.Shows(LazyRun(t, s[from..k])) && con.serial == old(con.serial) + s[from..k]
    {
      con.Kputc(buf[k], LazyRun(t, s[from..k]));
      LazyRunStep(t, s[from..k], s[k]);
      assert s[from..k + 1] == s[from..k] + [s[k]];
      k := k + 1;
    }
    assert s[from..k] == s[from..];
  }

  /** The `%d` branch: digits fill a 20-byte buffer from its end. */
  method PrintDecimal(con: Console, val: word, ghost t: Terminal)
    requires con.Shows(t)
    modifies con, con.buffer
    ensures con.Shows(LazyRun(t, Text(val, 10))) && con.serial == old(con.serial) + Text(val, 10)
  {
    if val == 0 {
      con.Kputc(48, t);
      LazyRunOne(t, 48);
    } else {
      var buf := new byte[20](_ => 0);
      var j := FillDecimal(buf, val);
      PutTail(con, buf, j, t);
    }
  }

  /** The filling loop of `%d`. */
  method FillDecimal(buf: array<byte>, val: word) returns (j: nat)
    requires buf.Length == 20
    modifies buf
    ensures j <= 20 && buf[j..] == Chars(Digits(val, 10))
  {
    hide Digits, Filled, DigitChar;
    WordDigitsFit(val);
    j := 20;
    var v := val;
    FilledStart(val, 10);
    assert buf[j..] == [];
    while v > 0
      invariant j <= 20 && |Digits(v, 10)| <= j && Filled(buf[j..], val, v, 10)
      decreases v
    {
      ghost var q, r := Split(v, 10);
      ModUnique(v, 10, q, r);
      j := j - 1;
      ghost var tail := buf[j + 1..];
      buf[j] := 48 + v % 10;
      DecimalChar(r);
      assert buf[j..] == [DigitChar(r)] + tail;
      FilledMore(tail, val, v, q, r, 10);
      v := v / 10;
    }
    FilledEnd(buf[j..], val, 10);
  }

  lemma DecimalChar(r: nat)
    requires r < 10
    ensures DigitChar(r) == 48 + r
  {
  }

  /** A buffer tail `s` holds the digits of `val` below those of `v`, which are still to come. */
  ghost predicate Filled(s: seq<byte>, val: nat, v: nat, base: nat)
    requires 2 <= base <= 16
  {
    Digits(val, base) == Digits(v, base) + DigitsOfTail(s) && Chars(DigitsOfTail(s)) == s
  }

  lemma FilledStart(val: nat, base: nat)
    requires 2 <= base <= 16
    ensures Filled([], val, val, base)
  {
  }

  lemma FilledMore(s: seq<byte>, val: nat, v: nat, q: nat, r: nat, base: nat)
    requires 2 <= base <= 16 && r < 16 && Filled(s, val, v, base) && Digits(v, base) == Digits(q, base) + [r]
    ensures Filled([DigitChar(r)] + s, val, q, base)
  {
    hide Digits, DigitChar, DigitsOfTail, Chars;
    TailMore(r, s);
    assert (Digits(q, base) + [r]) + DigitsOfTail(s) == Digits(q, base) + ([r] + DigitsOfTail(s));
  }

  lemma FilledEnd(s: seq<byte>, val: nat, base: nat)
    requires 2 <= base <= 16 && Filled(s, val, 0, base)
    ensures s == Chars(Digits(val, base))
  {
  }

  /** The `%x` branch: "0x", then digits that fill a 16-byte buffer from its end. */
  method PrintHex(con: Console, val: word, ghost t: Terminal)
    requires con.Shows(t)
    modifies con, con.buffer
    ensures con.Shows(LazyRun(t, [48, 120] + Text(val, 16)))
    ensures con.serial == old(con.serial) + [48, 120] + Text(val, 16)
  {
    hide ShowsTerminal, LazyPut, Digits;
    CursorOnScreen(con.buffer[..], con.cursorX, con.cursorY, con.color, t);
    PutPrefix(con, t);
    ghost var u := LazyRun(t, [48, 120]);
    LazyRunConcat(t, [48, 120], Text(val, 16));
    if val == 0 {
      con.Kputc(48, u);
      LazyRunOne(u, 48);
    } else {
      var buf := new byte[16](_ => 0);
      var j := FillHex(buf, val);
      PutTail(con, buf, j, u);
    }
  }

  /** The leading "0x". */
  method PutPrefix(con: Console, ghost t: Terminal)
    requires con.Shows(t)
    modifies con, con.buffer
    ensures con.Shows(LazyRun(t, [48, 120])) && con.serial == old(con.serial) + [48, 120]
  {
    hide ShowsTerminal, LazyPut;
    CursorOnScreen(con.buffer[..], con.cursorX, con.cursorY, con.color, t);
    con.Kputc(48, t);
    LazyRunOne(t, 48);
    con.Kputc(120, LazyRun(t, [48]));
    LazyRunStep(t, [48], 120);
    assert [48, 120] == [48] + [120];
  }

  /** The filling loop of `%x`. */
  method FillHex(buf: array<byte>, val: word) returns (j: nat)
    requires buf.Length == 16
    modifies buf
    ensures j <= 16 && buf[j..] == Chars(Digits(val, 16))
  {
    hide Digits, Filled, DigitChar, BitAnd, ShiftRight;
    WordDigitsFit(val);
    j := 16;
    var v := val;
    FilledStart(val, 16);
    assert buf[j..] == [];
    while v > 0
      invariant j <= 16 && |Digits(v, 16)| <= j && Filled(buf[j..], val, v, 16)
      decreases v
    {
      ghost var q, r := Split(v, 16);
      ModUnique(v, 16, q, r);
      NibbleForms(v);
      j := j - 1;
      ghost var tail := buf[j + 1..];
      var nibble := BitAnd(v, 0xF);
      buf[j] := DigitChar(nibble);
      assert buf[j..] == [DigitChar(r)] + tail;
      FilledMore(tail, val, v, q, r, 16);
      v := ShiftRight(v, 4);
    }
    FilledEnd(buf[j..], val, 16);
  }

  lemma NibbleForms(v: nat)
    ensures BitAnd(v, 0xF) == v % 16 && ShiftRight(v, 4) == v / 16
  {
    hide BitAnd, ShiftRight, Pow2;
    Pow2Small();
    LowMask(v, 4);
    ShiftRightIs(v, 4);
  }

  /** The `%p` branch: sixteen digits from the top nibble down. */
  method PrintPointer(con: Console, val: word, ghost t: Terminal)
    requires con.Shows(t)
    modifies con, con.buffer
    ensures con.Shows(LazyRun(t, [48, 120] + PaddedHex(val, 16)))
    ensures con.serial == old(con.serial) + [48, 120] + PaddedHex(val, 16)
  {
    hide ShowsTerminal, LazyPut, PaddedHex, NibbleAt, DigitChar, LazyRun;
    CursorOnScreen(con.buffer[..], con.cursorX, con.cursorY, con.color, t);
    PutPrefix(con, t);
    ghost var u := LazyRun(t, [48, 120]);
    LazyRunConcat(t, [48, 120], PaddedHex(val, 16));
    ghost var s := PaddedHex(val, 16);
    var shift := 60;
    var j := 0;
    assert s[..0] == [];
    LazyRunNone(u);
    while j < 16
      invariant 0 <= j <= 16
      invariant con.Shows(LazyRun(u, s[..j])) && con.serial == old(con.serial) + [48, 120] + s[..j]
    {
      PointerDigit(val, j);
      con.Kputc(DigitChar(NibbleAt(val, shift - j * 4)), LazyRun(u, s[..j]));
      LazyRunStep(u, s[..j], s[j]);
      assert s[..j + 1] == s[..j] + [s[j]];
      j := j + 1;
    }
    assert s[..j] == s;
  }

  /** The low four bits after a right shift. */
  function NibbleAt(val: nat, shift: nat): (nibble: nat)
    ensures nibble < 16
  {
    NibbleForms(ShiftRight(val, shift));
    BitAnd(ShiftRight(val, shift), 0xF)
  }

  lemma NibbleAtIs(val: nat, shift: nat, p: nat)
    requires p == Pow2(shift) && p > 0
    ensures NibbleAt(val, shift) == val / p % 16
  {
    hide BitAnd, Pow2, ShiftRight;
    ShiftRightIs(val, shift);
    NibbleForms(ShiftRight(val, shift));
  }

  /** The nibble that a right shift by 60 - 4j exposes is digit j of the padded text. */
  lemma PointerDigit(val: word, j: nat)
    requires j < 16
    ensures DigitChar(NibbleAt(val, 60 - j * 4)) == PaddedHex(val, 16)[j]
  {
    hide PaddedHex, Pow2, NibbleAt, Power;
    PaddedHexAt(val, 16, j);
    ShiftPower(15 - j);
    NibbleAtIs(val, 60 - j * 4, Power(16, 15 - j));
  }

  lemma LazyRunNone(t: Terminal)
    requires WellFormed(t)
    ensures LazyRun(t, []) == t
  {
  }

  lemma {:induction false} ShiftPower(k: nat)
    ensures Pow2(4 * k) == Power(16, k)
  {
    if k > 0 {
      ShiftPower(k - 1);
      assert Pow2(4) == 16;
      Pow2Add(4, 4 * (k - 1));
    }
  }

  /** `print_hex64`: digits fill the buffer forwards and are sent backwards. */
  method PrintHex64(con: Console, val: word, ghost t: Terminal)
    requires con.Shows(t)
    modifies con, con.buffer
    ensures con.Shows(LazyRun(t, Text(val, 16))) && con.serial == old(con.serial) + Text(val, 16)
  {
    hide ShowsTerminal, LazyPut, Digits;
    CursorOnScreen(con.buffer[..], con.cursorX, con.cursorY, con.color, t);
    if val == 0 {
      con.Kputc(48, t);
      LazyRunOne(t, 48);
      return;
    }
    var buf := new byte[16](_ => 0);
    var n := FillForward(buf, val);
    PutBackwards(con, buf, n, Text(val, 16), t);
  }

  /** Sends the first `n` bytes of a buffer, last one first. */
  method PutBackwards(con: Console, buf: array<byte>, n: nat, ghost s: seq<byte>, ghost t: Terminal)
    requires con.Shows(t) && n == |s| <= buf.Length && buf != con.buffer
    requires forall k :: 0 <= k < n ==> buf[k] == s[n - 1 - k]
    modifies con, con.buffer
    ensures con.Shows(LazyRun(t, s)) && con.serial == old(con.serial) + s
  {
    hide ShowsTerminal, LazyPut, LazyRun;
    CursorOnScreen(con.buffer[..], con.cursorX, con.cursorY, con.color, t);
    LazyRunNone(t);
    assert s[..0] == [];
    ghost var bytes := buf[..];
    var i := n;
    while i > 0
      invariant 0 <= i <= n && buf[..] == bytes
      invariant con.Shows(LazyRun(t, s[..n - i])) && con.serial == old(con.serial) + s[..n - i]
    {
      i := i - 1;
      ghost var k := n - 1 - i;
      assert bytes[i] == s[k];
      con.Kputc(buf[i], LazyRun(t, s[..k]));
      LazyRunStep(t, s[..k], s[k]);
      assert s[..k + 1] == s[..k] + [s[k]];
    }
    assert s[..n] == s;
  }

  /** The low digits of a number, least significant first, below those of `v`. */
  ghost predicate FilledForward(s: seq<byte>, ds: seq<nat>, v: nat) {
    && |s| <= |ds| && (forall k :: 0 <= k < |ds| ==> ds[k] < 16)
    && Digits(v, 16) == ds[..|ds| - |s|]
    && forall k :: 0 <= k < |s| ==> s[k] == DigitChar(ds[|ds| - 1 - k])
  }

  lemma FilledForwardMore(s: seq<byte>, ds: seq<nat>, v: nat, q: nat, r: nat)
    requires r < 16 && FilledForward(s, ds, v) && Digits(v, 16) == Digits(q, 16) + [r]
    ensures |s| < |ds| && FilledForward(s + [DigitChar(r)], ds, q)
  {
  }

  /** The filling loop of `print_hex64`: least significant digit first. */
  method FillForward(buf: array<byte>, val: word) returns (i: nat)
    requires buf.Length == 16
    modifies buf
    ensures i == |Digits(val, 16)| && i <= 16
    ensures forall k :: 0 <= k < i ==> buf[k] == DigitChar(Digits(val, 16)[i - 1 - k])
  {
    hide Digits, FilledForward;
    WordDigitsFit(val);
    ghost var ds := Digits(val, 16);
    FilledForwardStart(val);
    i := FillLoop(buf, val, ds);
    FilledForwardEnd(buf[..i], ds);
    assert forall k :: 0 <= k < i ==> buf[k] == buf[..i][k];
  }

  lemma FilledForwardStart(val: nat)
    ensures FilledForward([], Digits(val, 16), val)
  {
    hide Digits;
  }

  lemma FilledForwardEnd(s: seq<byte>, ds: seq<nat>)
    requires FilledForward(s, ds, 0)
    ensures |s| == |ds| && forall k :: 0 <= k < |s| ==> ds[|s| - 1 - k] < 16 && s[k] == DigitChar(ds[|s| - 1 - k])
  {
    NoDigits(16);
  }

  method FillLoop(buf: array<byte>, val: word, ghost ds: seq<nat>) returns (i: nat)
    requires buf.Length == 16 && |ds| <= 16 && FilledForward([], ds, val)
    modifies buf
    ensures i <= |ds| && FilledForward(buf[..i], ds, 0)
  {
    hide Digits, BitAnd, ShiftRight, DigitChar, FilledForward;
    i := 0;
    var v := val;
    assert buf[..0] == [];
    while v > 0
      invariant i <= |ds| && FilledForward(buf[..i], ds, v)
      decreases v
    {
      ghost var q, r := Split(v, 16);
      ModUnique(v, 16, q, r);
      NibbleForms(v);
      ghost var low := buf[..i];
      FilledForwardMore(low, ds, v, q, r);
      var nibble := BitAnd(v, 0xF);
      buf[i] := DigitChar(nibble);
      assert buf[..i + 1] == low + [DigitChar(r)];
      v := ShiftRight(v, 4);
      i := i + 1;
    }
  }

  /** The digits that a text stands for. */
  ghost function DigitsOfTail(s: seq<byte>): (ds: seq<nat>)
    ensures |ds| == |s| && forall k :: 0 <= k < |ds| ==> ds[k] < 16
  {
    seq(|s|, k requires 0 <= k < |s| => if CharDigit(s[k]).Some? then CharDigit(s[k]).value else 0)
  }

  lemma TailMore(r: nat, tail: seq<byte>)
    requires r < 16 && Chars(DigitsOfTail(tail)) == tail
    ensures DigitsOfTail([DigitChar(r)] + tail) == [r] + DigitsOfTail(tail)
    ensures Chars(DigitsOfTail([DigitChar(r)] + tail)) == [DigitChar(r)] + tail
  {
  }

  lemma NoDigits(base: nat)
    requires base >= 2
    ensures Digits(0, base) == []
  {
  }

  lemma LazyRunOne(t: Terminal, c: byte)
    requires WellFormed(t)
    ensures LazyRun(t, [c]) == LazyPut(t, c)
  {
  }

  // ----- The interpreter -----

  /** The format still to be interpreted, given whether a percent has just been read. */
  ghost function Pending(f: seq<byte>, i: nat, inFormat: bool): seq<Token>
    requires i <= |f|
  {
    Tokens(if inFormat then [PERCENT] + f[i..] else f[i..])
  }

  /** The directives of `kprintf_va` that print an argument. */
  method PutArg(con: Console, c: byte, arg: Arg, ghost t: Terminal)
    requires con.Shows(t) && Takes(Directive(c)) && (c == 115 ==> 0 in arg.memory)
    modifies con, con.buffer
    ensures con.Shows(LazyRun(t, ShowArg(c, arg))) && con.serial == old(con.serial) + ShowArg(c, arg)
  {
    hide ShowsTerminal, LazyPut, LazyRun, Text, PaddedHex, CString;
    CursorOnScreen(con.buffer[..], con.cursorX, con.cursorY, con.color, t);
    if c == 115 {
      Kputs(con, arg.memory, t);
    } else if c == 99 {
      con.Kputc(arg.value % 256, t);
      LazyRunOne(t, arg.value % 256);
    } else if c == 100 {
      PrintDecimal(con, arg.value, t);
    } else if c == 112 {
      PrintPointer(con, arg.value, t);
    } else {
      PrintHex(con, arg.value, t);
      assert old(con.serial) + [48, 120] + Text(arg.value, 16) == old(con.serial) + ([48, 120] + Text(arg.value, 16));
    }
  }

  /** One directive of `kprintf_va`. */
  method PutDirective(con: Console, c: byte, args: seq<Arg>, ghost t: Terminal) returns (taken: nat)
    requires con.Shows(t)
    requires Takes(Directive(c)) ==> args != [] && (c == 115 ==> 0 in args[0].memory)
    modifies con, con.buffer
    ensures con.Shows(LazyRun(t, ShowToken(Directive(c), args)))
    ensures con.serial == old(con.serial) + ShowToken(Directive(c), args)
    ensures taken == if Takes(Directive(c)) then 1 else 0
  {
    hide ShowsTerminal, LazyPut, LazyRun, ShowArg;
    CursorOnScreen(con.buffer[..], con.cursorX, con.cursorY, con.color, t);
    if c in [115, 99, 100, 120, 88, 112] {
      PutArg(con, c, args[0], t);
      return 1;
    }
    con.Kputc(PERCENT, t);
    LazyRunOne(t, PERCENT);
    if c != PERCENT {
      con.Kputc(c, LazyRun(t, [PERCENT]));
      LazyRunStep(t, [PERCENT], c);
      assert [PERCENT, c] == [PERCENT] + [c];
    }
    return 0;
  }

  /** `kprintf_va`: prints what the format means, on the terminal and on the serial port. */
  method KprintfVa(con: Console, fmt: seq<byte>, args: seq<Arg>, ghost t: Terminal)
    requires con.Shows(t) && 0 in fmt && Supplied(Tokens(CString(fmt)), args)
    modifies con, con.buffer
    ensures con.Shows(LazyRun(t, Render(Tokens(CString(fmt)), args)))
    ensures con.serial == old(con.serial) + Render(Tokens(CString(fmt)), args)
  {
    hide ShowsTerminal, LazyPut, CString, ShowToken, Render, Supplied, Takes, Tokens;
    CursorOnScreen(con.buffer[..], con.cursorX, con.cursorY, con.color, t);
    ghost var f := CString(fmt);
    ghost var out := Render(Tokens(f), args);
    ghost var done := [];
    var i, n, inFormat := 0, 0, false;
    assert f[0..] == f && args[0..] == args;
    while fmt[i] != 0
      invariant 0 <= i <= |f| && n <= |args|
      invariant con.Shows(LazyRun(t, done)) && con.serial == old(con.serial) + done
      invariant Supplied(Pending(f, i, inFormat), args[n..])
      invariant out == done + Render(Pending(f, i, inFormat), args[n..])
      decreases |f| - i
    {
      var c := fmt[i];
      ghost var u := LazyRun(t, done);
      if inFormat {
        PendingDirective(f, i, args[n..]);
        var taken := PutDirective(con, c, args[n..], u);
        LazyRunConcat(t, done, ShowToken(Directive(c), args[n..]));
        done := done + ShowToken(Directive(c), args[n..]);
        assert args[n..][taken..] == args[n + taken..];
        n := n + taken;
        inFormat := false;
      } else if c == PERCENT {
        PendingPercent(f, i);
        inFormat := true;
      } else {
        PendingLiteral(f, i, args[n..]);
        con.Kputc(c, u);
        LazyRunStep(t, done, c);
        done := done + [c];
      }
      i := i + 1;
    }
    PendingNothing(f, inFormat, args[n..]);
    assert done + [] == done;
  }

  lemma PendingPercent(f: seq<byte>, i: nat)
    requires i < |f| && f[i] == PERCENT
    ensures Pending(f, i, false) == Pending(f, i + 1, true)
  {
    assert f[i..] == [PERCENT] + f[i + 1..];
  }

  lemma PendingLiteral(f: seq<byte>, i: nat, args: seq<Arg>)
    requires i < |f| && f[i] != PERCENT && Supplied(Pending(f, i, false), args)
    ensures Supplied(Pending(f, i + 1, false), args)
    ensures Render(Pending(f, i, false), args) == [f[i]] + Render(Pending(f, i + 1, false), args)
  {
  }

  lemma PendingDirective(f: seq<byte>, i: nat, args: seq<Arg>)
    requires i < |f| && Supplied(Pending(f, i, true), args)
    ensures var d := Directive(f[i]);
            var n := if Takes(d) then 1 else 0;
            && n <= |args| && (Takes(d) ==> f[i] == 115 ==> 0 in args[0].memory)
            && Supplied(Pending(f, i + 1, false), args[n..])
            && Render(Pending(f, i, true), args) == ShowToken(d, args) + Render(Pending(f, i + 1, false), args[n..])
  {
    hide Takes, ShowToken, Tokens;
    var d := Directive(f[i]);
    PendingTokens(f, i);
    assert ([d] + Pending(f, i + 1, false))[1..] == Pending(f, i + 1, false);
    assert args[0..] == args;
  }

  lemma PendingTokens(f: seq<byte>, i: nat)
    requires i < |f|
    ensures Pending(f, i, true) == [Directive(f[i])] + Pending(f, i + 1, false)
  {
    assert ([PERCENT] + f[i..])[2..] == f[i + 1..];
  }

  lemma PendingNothing(f: seq<byte>, inFormat: bool, args: seq<Arg>)
    requires Supplied(Pending(f, |f|, inFormat), args)
    ensures Render(Pending(f, |f|, inFormat), args) == []
  {
  }
}
