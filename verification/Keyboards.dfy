/**
 The two keyboard decoders, kernel/drv/drv_kbd.c and kernel/kbd/kbd.c, each in front of a ring
 buffer of 256 slots that holds at most 255 characters.
 */
module Keyboards {
  import opened Bits

  const BUFFER_SIZE: nat := 256
  const CAPACITY: nat := 255

  const EXTENDED: byte := 0xE0
  const LSHIFT: byte := 0x2A
  const RSHIFT: byte := 0x36
  const CTRL: byte := 0x1D
  const ALT: byte := 0x38
  const CAPSLOCK: byte := 0x3A

  type Code = c: byte | c < 128

  // ----- Character tables -----

  // Rows of a PC keyboard, by scancode: 0x02..0x0F, 0x10..0x1C, 0x1E..0x29, 0x2B..0x35.
  const LOWER_DIGITS: seq<byte> := [49, 50, 51, 52, 53, 54, 55, 56, 57, 48, 45, 61, 8, 9]
  const UPPER_DIGITS: seq<byte> := [33, 64, 35, 36, 37, 94, 38, 42, 40, 41, 95, 43, 8, 9]
  const LOWER_QWERTY: seq<byte> := [113, 119, 101, 114, 116, 121, 117, 105, 111, 112, 91, 93, 10]
  const UPPER_QWERTY: seq<byte> := [81, 87, 69, 82, 84, 89, 85, 73, 79, 80, 123, 125, 10]
  const LOWER_HOME: seq<byte> := [97, 115, 100, 102, 103, 104, 106, 107, 108, 59, 39, 96]
  const UPPER_HOME: seq<byte> := [65, 83, 68, 70, 71, 72, 74, 75, 76, 58, 34, 126]
  const LOWER_BOTTOM: seq<byte> := [92, 122, 120, 99, 118, 98, 110, 109, 44, 46, 47]
  const UPPER_BOTTOM: seq<byte> := [124, 90, 88, 67, 86, 66, 78, 77, 60, 62, 63]

  function RowsAt(code: Code, digits: seq<byte>, qwerty: seq<byte>, home: seq<byte>, bottom: seq<byte>): byte
    requires |digits| == 14 && |qwerty| == 13 && |home| == 12 && |bottom| == 11
  {
    if 0x02 <= code <= 0x0F then digits[code - 0x02]
    else if 0x10 <= code <= 0x1C then qwerty[code - 0x10]
    else if 0x1E <= code <= 0x29 then home[code - 0x1E]
    else if 0x2B <= code <= 0x35 then bottom[code - 0x2B]
    else if code == 0x39 then 32
    else 0
  }

  /** The driver's tables, zero where they have no entry. */
  function DriverTable(code: Code, shift: bool): byte {
    if shift then RowsAt(code, UPPER_DIGITS, UPPER_QWERTY, UPPER_HOME, UPPER_BOTTOM)
    else RowsAt(code, LOWER_DIGITS, LOWER_QWERTY, LOWER_HOME, LOWER_BOTTOM)
  }

  /** The kernel keyboard's tables: the driver's, with escape, keypad star and the extra bar key. */
  function KernelTable(code: Code, shift: bool): byte {
    if code == 0x01 then 27
    else if code == 0x37 then 42
    else if code == 0x56 && !shift then 124
    else DriverTable(code, shift)
  }

  predicate IsLower(c: byte) {
    97 <= c <= 122
  }

  predicate IsUpper(c: byte) {
    65 <= c <= 90
  }

  predicate IsLetter(c: byte) {
    IsLower(c) || IsUpper(c)
  }

  /** `scancode_to_ascii`: caps lock swaps the case of whatever the table gives. */
  function DriverChar(code: Code, shift: bool, caps: bool): byte {
    var c := DriverTable(code, shift);
    if caps && IsLower(c) then c - 32
    else if caps && IsUpper(c) then c + 32
    else c
  }

  /** The decoding inside `kbd_handler`: caps lock never undoes shift. */
  function KernelChar(code: Code, shift: bool, caps: bool): byte {
    var c := KernelTable(code, shift);
    if IsLower(c) then (if caps then c - 32 else c)
    else if IsUpper(c) then (if !shift && caps then c + 32 else c)
    else c
  }

  /** The two decoders give the same character except for a letter under shift and caps lock, and three keys. */
  predicate SameKey(code: Code, shift: bool, caps: bool) {
    && code != 0x01 && code != 0x37 && !(code == 0x56 && !shift)
    && !(shift && caps && IsLetter(DriverTable(code, shift)))
  }

  lemma DecodersAgreeExactly(code: Code, shift: bool, caps: bool)
    ensures DriverChar(code, shift, caps) == KernelChar(code, shift, caps) <==> SameKey(code, shift, caps)
  {
  }

  /**
   Letters: shift alone and caps lock alone give the same capital in both decoders; together the
   driver gives the small letter again, the kernel keyboard the capital.
   */
  lemma LetterCase(code: Code)
    requires IsLetter(DriverTable(code, false)) || IsLetter(DriverTable(code, true))
    ensures IsLower(DriverChar(code, false, false)) && DriverChar(code, false, false) == KernelChar(code, false, false)
    ensures var capital := DriverChar(code, false, false) - 32;
            && DriverChar(code, true, false) == capital && DriverChar(code, false, true) == capital
            && KernelChar(code, true, false) == capital && KernelChar(code, false, true) == capital
            && DriverChar(code, true, true) == DriverChar(code, false, false) && KernelChar(code, true, true) == capital
  {
    hide DriverTable;
    LetterTables(code);
  }

  /** The characters of the keys, by scancode: digits from 0x02, letters from 0x10, 0x1E and 0x2B, with their signs. */
  lemma PlainKeys(code: Code)
    ensures var d, k := DriverChar(code, false, false), KernelChar(code, false, false);
            && (0x02 <= code <= 0x0D ==> d == k == "1234567890-="[code - 0x02] as int)
            && (0x10 <= code <= 0x1B ==> d == k == "qwertyuiop[]"[code - 0x10] as int)
            && (0x1E <= code <= 0x29 ==> d == k == "asdfghjkl;'`"[code - 0x1E] as int)
            && (0x2B <= code <= 0x35 ==> d == k == "\\zxcvbnm,./"[code - 0x2B] as int)
  {
  }

  /** The same keys with shift: capitals, and the upper sign of each key. */
  lemma ShiftedKeys(code: Code)
    ensures var d, k := DriverChar(code, true, false), KernelChar(code, true, false);
            && (0x02 <= code <= 0x0D ==> d == k == "!@#$%^&*()_+"[code - 0x02] as int)
            && (0x10 <= code <= 0x1B ==> d == k == "QWERTYUIOP{}"[code - 0x10] as int)
            && (0x1E <= code <= 0x29 ==> d == k == "ASDFGHJKL:\"~"[code - 0x1E] as int)
            && (0x2B <= code <= 0x35 ==> d == k == "|ZXCVBNM<>?"[code - 0x2B] as int)
  {
  }

  /**
   All other keys, with and without shift: backspace, tab, enter and space are alike in both keyboards;
   only the kernel keyboard has escape, the keypad star and the unshifted bar key; the rest have none.
   */
  lemma OtherKeys(code: Code, shift: bool)
    requires !(0x02 <= code <= 0x0D || 0x10 <= code <= 0x1B || 0x1E <= code <= 0x29 || 0x2B <= code <= 0x35)
    ensures DriverChar(code, shift, false) ==
            (if code == 0x0E then 8 else if code == 0x0F then 9 else if code == 0x1C then 10
             else if code == 0x39 then 32 else 0)
    ensures KernelChar(code, shift, false) ==
            (if code == 0x01 then 27 else if code == 0x37 then '*' as int
             else if code == 0x56 && !shift then '|' as int else DriverChar(code, shift, false))
  {
  }

  /** Caps lock changes nothing but letters: what a key gives without it is what it gives with it. */
  lemma CapsOnLetters(code: Code, shift: bool)
    ensures var d, k := DriverChar(code, shift, false), KernelChar(code, shift, false);
            && (!(65 <= d <= 90 || 97 <= d <= 122) ==> DriverChar(code, shift, true) == d)
            && (!(65 <= k <= 90 || 97 <= k <= 122) ==> KernelChar(code, shift, true) == k)
            && (65 <= d <= 90 ==> DriverChar(code, shift, true) == d + 32)
            && (97 <= d <= 122 ==> DriverChar(code, shift, true) == d - 32)
            && (97 <= k <= 122 ==> KernelChar(code, shift, true) == k - 32)
            && (65 <= k <= 90 ==> shift && KernelChar(code, shift, true) == k)
  {
    hide KernelTable, DriverTable;
    UnshiftedNoCapital(code);
  }

  lemma UnshiftedNoCapital(code: Code)
    ensures !(65 <= KernelTable(code, false) <= 90)
  {
  }

  /** Where either row has a letter, the lower one has it small and the upper one its capital. */
  ghost predicate RowsPair(lower: seq<byte>, upper: seq<byte>, n: nat) {
    && |lower| == |upper| == n
    && forall k :: 0 <= k < n && (IsLetter(lower[k]) || IsLetter(upper[k])) ==>
         IsLower(lower[k]) && upper[k] == lower[k] - 32
  }

  lemma DigitRowsPair()
    ensures RowsPair(LOWER_DIGITS, UPPER_DIGITS, 14)
  {
  }

  lemma QwertyRowsPair()
    ensures RowsPair(LOWER_QWERTY, UPPER_QWERTY, 13)
  {
  }

  lemma HomeRowsPair()
    ensures RowsPair(LOWER_HOME, UPPER_HOME, 12)
  {
  }

  lemma BottomRowsPair()
    ensures RowsPair(LOWER_BOTTOM, UPPER_BOTTOM, 11)
  {
  }

  /** A letter key has the small letter in the lower table and its capital in the upper one. */
  lemma LetterTables(code: Code)
    requires IsLetter(DriverTable(code, false)) || IsLetter(DriverTable(code, true))
    ensures IsLower(DriverTable(code, false)) && DriverTable(code, true) == DriverTable(code, false) - 32
    ensures code != 0x01 && code != 0x37 && code != 0x56
  {
    hide LOWER_DIGITS, UPPER_DIGITS, LOWER_QWERTY, UPPER_QWERTY, LOWER_HOME, UPPER_HOME, LOWER_BOTTOM, UPPER_BOTTOM;
    DigitRowsPair();
    QwertyRowsPair();
    HomeRowsPair();
    BottomRowsPair();
  }

  // ----- Decoding as a state machine -----

  /** What either keyboard remembers about the keys. */
  datatype Keys = Keys(shift: bool, ctrl: bool, alt: bool, caps: bool, extended: bool, pressed: seq<bool>)

  function NoKeys(): Keys {
    Keys(false, false, false, false, false, seq(128, _ => false))
  }

  predicate IsModifier(code: Code) {
    code in [LSHIFT, RSHIFT, CTRL, ALT, CAPSLOCK]
  }

  /** The keys after a scancode byte: make, break, or the extended prefix. */
  function KeysAfter(k: Keys, scancode: byte): Keys
    requires |k.pressed| == 128
  {
    if scancode == EXTENDED then k.(extended := true)
    else
      var down, code: Code := scancode < 128, scancode % 128;
      var k1 := k.(extended := false, pressed := k.pressed[code := down]);
      if code == LSHIFT || code == RSHIFT then k1.(shift := down)
      else if code == CTRL then k1.(ctrl := down)
      else if code == ALT then k1.(alt := down)
      else if code == CAPSLOCK && down then k1.(caps := !k.caps)
      else k1
  }

  /** Whether a scancode byte is a key that may print: pressed, not a modifier, not the prefix. */
  predicate Prints(scancode: byte) {
    scancode < 128 && !IsModifier(scancode)
  }

  function DriverOut(k: Keys, scancode: byte): byte {
    if Prints(scancode) then DriverChar(scancode, k.shift, k.caps) else 0
  }

  function KernelOut(k: Keys, scancode: byte): byte {
    if Prints(scancode) then KernelChar(scancode, k.shift, k.caps) else 0
  }

  /** Releases, the extended prefix and the modifier keys put no character out; every other key does, by its state. */
  lemma OutMeans(k: Keys, b: byte)
    ensures b >= 128 || b in [0x2A, 0x36, 0x1D, 0x38, 0x3A] ==> DriverOut(k, b) == 0 && KernelOut(k, b) == 0
    ensures b < 128 && b !in [0x2A, 0x36, 0x1D, 0x38, 0x3A] ==>
              DriverOut(k, b) == DriverChar(b, k.shift, k.caps) && KernelOut(k, b) == KernelChar(b, k.shift, k.caps)
  {
    hide DriverChar, KernelChar;
  }

  // ----- The ring as a queue -----

  /** Pushing to the ring: zero is refused, and so is everything while 255 are pending. */
  function Push(q: seq<byte>, c: byte): seq<byte> {
    if c == 0 || |q| >= CAPACITY then q else q + [c]
  }

  datatype Event = Scancode(b: byte) | Read(n: nat)

  /** A keyboard: its keys, what is pending, and (for the statements) what was delivered and accepted. */
  datatype Keyboard = Keyboard(keys: Keys, pending: seq<byte>, delivered: seq<byte>, accepted: seq<byte>)

  function Deliver(k: Keyboard, n: nat): Keyboard {
    var m := if n < |k.pending| then n else |k.pending|;
    k.(pending := k.pending[m..], delivered := k.delivered + k.pending[..m])
  }

  function Accept(k: Keyboard, keys: Keys, c: byte): Keyboard {
    k.(keys := keys, pending := Push(k.pending, c),
       accepted := if Push(k.pending, c) == k.pending then k.accepted else k.accepted + [c])
  }

  function DriverStep(k: Keyboard, e: Event): Keyboard
    requires |k.keys.pressed| == 128
  {
    match e
    case Scancode(b) => Accept(k, KeysAfter(k.keys, b), DriverOut(k.keys, b))
    case Read(n) => Deliver(k, n)
  }

  function KernelStep(k: Keyboard, e: Event): Keyboard
    requires |k.keys.pressed| == 128
  {
    match e
    case Scancode(b) => Accept(k, KeysAfter(k.keys, b), KernelOut(k.keys, b))
    case Read(n) => Deliver(k, n)
  }

  /** First in, first out: what was delivered and what is pending make up what was accepted, and no zero is pending. */
  predicate Fifo(k: Keyboard) {
    && |k.keys.pressed| == 128
    && k.delivered + k.pending == k.accepted
    && |k.pending| <= CAPACITY && 0 !in k.pending
  }

  function DriverRun(k: Keyboard, es: seq<Event>): (r: Keyboard)
    requires |k.keys.pressed| == 128
    ensures |r.keys.pressed| == 128
  {
    if es == [] then k else DriverStep(DriverRun(k, es[..|es| - 1]), es[|es| - 1])
  }

  function KernelRun(k: Keyboard, es: seq<Event>): (r: Keyboard)
    requires |k.keys.pressed| == 128
    ensures |r.keys.pressed| == 128
  {
    if es == [] then k else KernelStep(KernelRun(k, es[..|es| - 1]), es[|es| - 1])
  }

  /** One push: dropped exactly when the character is zero or 255 are pending. */
  lemma AcceptFifo(k: Keyboard, keys: Keys, c: byte)
    requires Fifo(k) && |keys.pressed| == 128
    ensures Fifo(Accept(k, keys, c))
    ensures Accept(k, keys, c).accepted == k.accepted <==> c == 0 || |k.pending| == 255
  {
  }

  lemma DeliverFifo(k: Keyboard, n: nat)
    requires Fifo(k)
    ensures Fifo(Deliver(k, n)) && Deliver(k, n).accepted == k.accepted
  {
  }

  /** The driver's ring is a bounded queue over any interleaving of scancodes and reads. */
  lemma {:induction false} DriverFifo(k: Keyboard, es: seq<Event>)
    requires Fifo(k)
    ensures Fifo(DriverRun(k, es))
  {
    if es != [] {
      var u, e := DriverRun(k, es[..|es| - 1]), es[|es| - 1];
      DriverFifo(k, es[..|es| - 1]);
      match e
      case Scancode(b) => AcceptFifo(u, KeysAfter(u.keys, b), DriverOut(u.keys, b));
      case Read(n) => DeliverFifo(u, n);
    }
  }

  /** The same for the kernel keyboard. */
  lemma {:induction false} KernelFifo(k: Keyboard, es: seq<Event>)
    requires Fifo(k)
    ensures Fifo(KernelRun(k, es))
  {
    if es != [] {
      var u, e := KernelRun(k, es[..|es| - 1]), es[|es| - 1];
      KernelFifo(k, es[..|es| - 1]);
      match e
      case Scancode(b) => AcceptFifo(u, KeysAfter(u.keys, b), KernelOut(u.keys, b));
      case Read(n) => DeliverFifo(u, n);
    }
  }

  // ----- What the key state records -----

  /** The event is a make or break byte of a key, not the extended prefix. */
  predicate IsKey(e: Event, code: Code) {
    e.Scancode? && e.b != EXTENDED && e.b % 128 == code
  }

  /** No event from `from` on is for the key. */
  predicate QuietFrom(es: seq<Event>, code: Code, from: nat) {
    forall j :: from <= j < |es| ==> !IsKey(es[j], code)
  }

  lemma StepRecords(k: Keyboard, e: Event, code: Code)
    requires |k.keys.pressed| == 128
    ensures DriverStep(k, e).keys.pressed[code] == if IsKey(e, code) then e.b < 128 else k.keys.pressed[code]
    ensures DriverStep(k, e).keys.caps == if e == Scancode(CAPSLOCK) then !k.keys.caps else k.keys.caps
  {
    hide DriverChar, DriverOut, Push;
  }

  /** A key counts as down exactly when the last byte received for it was a make. */
  lemma {:induction false} LastByteDecides(k: Keyboard, es: seq<Event>, code: Code, i: nat)
    requires |k.keys.pressed| == 128 && i < |es| && IsKey(es[i], code) && QuietFrom(es, code, i + 1)
    ensures DriverRun(k, es).keys.pressed[code] == (es[i].b < 128)
  {
    hide DriverStep, IsKey;
    var n := |es| - 1;
    StepRecords(DriverRun(k, es[..n]), es[n], code);
    if i < n {
      assert QuietFrom(es[..n], code, i + 1);
      LastByteDecides(k, es[..n], code, i);
    }
  }

  /** How often caps lock was pressed. */
  function CapsPresses(es: seq<Event>): nat {
    if es == [] then 0
    else CapsPresses(es[..|es| - 1]) + (if es[|es| - 1] == Scancode(0x3A) then 1 else 0)
  }

  /** Caps lock is on exactly when it was pressed an odd number of times more than it was on at first. */
  lemma {:induction false} CapsIsParity(k: Keyboard, es: seq<Event>)
    requires |k.keys.pressed| == 128
    ensures DriverRun(k, es).keys.caps == (k.keys.caps != (CapsPresses(es) % 2 == 1))
  {
    hide DriverStep;
    if es != [] {
      CapsIsParity(k, es[..|es| - 1]);
      StepRecords(DriverRun(k, es[..|es| - 1]), es[|es| - 1], 0);
    }
  }

  /** What one scancode byte does to the keys: which are down, caps lock, and the extended prefix; reads do nothing. */
  lemma StepKeys(k: Keyboard, e: Event)
    requires |k.keys.pressed| == 128
    ensures var after := DriverStep(k, e).keys;
            && after.pressed == (if e.Scancode? && e.b != 0xE0 then k.keys.pressed[e.b % 128 := e.b < 128]
                                 else k.keys.pressed)
            && after.caps == (if e == Scancode(0x3A) then !k.keys.caps else k.keys.caps)
            && after.extended == (if e.Scancode? then e.b == 0xE0 else k.keys.extended)
  {
    hide DriverOut, Push;
  }

  /** What one event does to the modifiers, in both keyboards. */
  lemma StepModifiers(d: Keyboard, k: Keyboard, e: Event)
    requires |d.keys.pressed| == |k.keys.pressed| == 128 && d.keys == k.keys
    ensures DriverStep(d, e).keys == KernelStep(k, e).keys
    ensures var after := DriverStep(d, e).keys;
            && after.shift == (if e in [Scancode(0x2A), Scancode(0x36)] then true
                               else if e in [Scancode(0xAA), Scancode(0xB6)] then false else d.keys.shift)
            && after.ctrl == (if e == Scancode(0x1D) then true else if e == Scancode(0x9D) then false else d.keys.ctrl)
            && after.alt == (if e == Scancode(0x38) then true else if e == Scancode(0xB8) then false else d.keys.alt)
  {
    hide DriverOut, KernelOut, Push;
  }

  /**
   Over any run, in both keyboards: shift is on exactly when the last press or release of either shift
   key was a press, at position `i`, and is as at first when there was none, with `i` being -1.
   */
  lemma {:induction false} ShiftByLastByte(k: Keyboard, es: seq<Event>, i: int)
    requires |k.keys.pressed| == 128 && -1 <= i < |es|
    requires i >= 0 ==> es[i] in [Scancode(0x2A), Scancode(0x36), Scancode(0xAA), Scancode(0xB6)]
    requires forall j :: i < j < |es| ==> es[j] !in [Scancode(0x2A), Scancode(0x36), Scancode(0xAA), Scancode(0xB6)]
    ensures DriverRun(k, es).keys.shift == KernelRun(k, es).keys.shift ==
            if i < 0 then k.keys.shift else es[i] in [Scancode(0x2A), Scancode(0x36)]
  {
    hide DriverStep, KernelStep;
    KeysAgree(k, k, es);
    if es != [] {
      var n := |es| - 1;
      KeysAgree(k, k, es[..n]);
      StepModifiers(DriverRun(k, es[..n]), KernelRun(k, es[..n]), es[n]);
      if i < n {
        ShiftByLastByte(k, es[..n], i);
      }
    }
  }

  /** The same for ctrl. */
  lemma {:induction false} CtrlByLastByte(k: Keyboard, es: seq<Event>, i: int)
    requires |k.keys.pressed| == 128 && -1 <= i < |es|
    requires i >= 0 ==> es[i] in [Scancode(0x1D), Scancode(0x9D)]
    requires forall j :: i < j < |es| ==> es[j] !in [Scancode(0x1D), Scancode(0x9D)]
    ensures DriverRun(k, es).keys.ctrl == KernelRun(k, es).keys.ctrl ==
            if i < 0 then k.keys.ctrl else es[i] == Scancode(0x1D)
  {
    hide DriverStep, KernelStep;
    KeysAgree(k, k, es);
    if es != [] {
      var n := |es| - 1;
      KeysAgree(k, k, es[..n]);
      StepModifiers(DriverRun(k, es[..n]), KernelRun(k, es[..n]), es[n]);
      if i < n {
        CtrlByLastByte(k, es[..n], i);
      }
    }
  }

  /** The same for alt. */
  lemma {:induction false} AltByLastByte(k: Keyboard, es: seq<Event>, i: int)
    requires |k.keys.pressed| == 128 && -1 <= i < |es|
    requires i >= 0 ==> es[i] in [Scancode(0x38), Scancode(0xB8)]
    requires forall j :: i < j < |es| ==> es[j] !in [Scancode(0x38), Scancode(0xB8)]
    ensures DriverRun(k, es).keys.alt == KernelRun(k, es).keys.alt ==
            if i < 0 then k.keys.alt else es[i] == Scancode(0x38)
  {
    hide DriverStep, KernelStep;
    KeysAgree(k, k, es);
    if es != [] {
      var n := |es| - 1;
      KeysAgree(k, k, es[..n]);
      StepModifiers(DriverRun(k, es[..n]), KernelRun(k, es[..n]), es[n]);
      if i < n {
        AltByLastByte(k, es[..n], i);
      }
    }
  }

  // ----- The two keyboards side by side -----

  /** Fed the same events, the two keyboards always agree on modifiers and on which keys are down. */
  lemma {:induction false} KeysAgree(d: Keyboard, k: Keyboard, es: seq<Event>)
    requires d.keys == k.keys && |k.keys.pressed| == 128
    ensures DriverRun(d, es).keys == KernelRun(k, es).keys
  {
    if es != [] {
      KeysAgree(d, k, es[..|es| - 1]);
    }
  }

  /** Every key of the run that arrives while there is room in the ring is one that the two decode alike. */
  ghost predicate OnlySameKeys(k: Keyboard, es: seq<Event>)
    requires |k.keys.pressed| == 128
  {
    es == [] ||
    (var n := |es| - 1; OnlySameKeys(k, es[..n]) && SameEvent(DriverRun(k, es[..n]), es[n]))
  }

  predicate SameEvent(k: Keyboard, e: Event) {
    e.Scancode? && Prints(e.b) && |k.pending| < CAPACITY ==> SameKey(e.b, k.keys.shift, k.keys.caps)
  }

  /** One event: from equal states the two keyboards stay equal exactly when they decode it alike or drop it. */
  lemma StepsAgreeExactly(k: Keyboard, e: Event)
    requires |k.keys.pressed| == 128
    ensures DriverStep(k, e) == KernelStep(k, e) <==> SameEvent(k, e)
  {
    hide DriverChar, KernelChar, KeysAfter, SameKey;
    if e.Scancode? && Prints(e.b) {
      DecodersAgreeExactly(e.b, k.keys.shift, k.keys.caps);
      assert DriverOut(k.keys, e.b) == DriverChar(e.b, k.keys.shift, k.keys.caps);
      assert KernelOut(k.keys, e.b) == KernelChar(e.b, k.keys.shift, k.keys.caps);
      PushedLast(k.pending, DriverOut(k.keys, e.b));
      PushedLast(k.pending, KernelOut(k.keys, e.b));
    }
  }

  /** A push that is not dropped shows in the queue's length and last character. */
  lemma PushedLast(q: seq<byte>, c: byte)
    ensures var r := Push(q, c);
            if c == 0 || |q| >= CAPACITY then r == q else |r| == |q| + 1 && r[|q|] == c
  {
  }

  /** The two keyboards are equal in everything, keys, pending and delivered characters, at every point of the run. */
  ghost predicate AgreeThroughout(k: Keyboard, es: seq<Event>)
    requires |k.keys.pressed| == 128
  {
    DriverRun(k, es) == KernelRun(k, es) && (es == [] || AgreeThroughout(k, es[..|es| - 1]))
  }

  /** They agree at every point of a run exactly when every key that finds room in the ring is decoded alike. */
  lemma {:induction false} KeyboardsAgreeExactly(k: Keyboard, es: seq<Event>)
    requires |k.keys.pressed| == 128
    ensures AgreeThroughout(k, es) <==> OnlySameKeys(k, es)
  {
    hide DriverStep, KernelStep, SameEvent;
    if es != [] {
      var n := |es| - 1;
      KeyboardsAgreeExactly(k, es[..n]);
      StepsAgreeExactly(DriverRun(k, es[..n]), es[n]);
    }
  }

  /** Agreement throughout is agreement after every prefix. */
  lemma {:induction false} AgreeOnPrefix(k: Keyboard, es: seq<Event>, i: nat)
    requires |k.keys.pressed| == 128 && AgreeThroughout(k, es) && i <= |es|
    ensures DriverRun(k, es[..i]) == KernelRun(k, es[..i])
  {
    hide DriverRun, KernelRun;
    if i < |es| {
      AgreeOnPrefix(k, es[..|es| - 1], i);
      assert es[..|es| - 1][..i] == es[..i];
    } else {
      assert es[..i] == es;
    }
  }

  /** Reading n characters at once is reading up to n characters one at a time. */
  lemma {:induction false} ReadsSplit(k: Keyboard, n: nat)
    requires |k.keys.pressed| == 128
    ensures Deliver(k, n) == KernelRun(k, seq(n, _ => Read(1)))
  {
    if n == 0 {
      assert k.delivered + [] == k.delivered;
    } else {
      ReadsSplit(k, n - 1);
      var es := seq(n, _ => Read(1));
      assert es[..n - 1] == seq(n - 1, _ => Read(1));
      DeliverOneMore(k, n - 1);
    }
  }

  lemma DeliverOneMore(k: Keyboard, n: nat)
    ensures Deliver(Deliver(k, n), 1) == Deliver(k, n + 1)
  {
  }
}
