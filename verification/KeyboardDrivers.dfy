/**
 The keyboard drivers themselves, updating their ring buffer, modifiers and key state in place.
 Each method is proved to take the step that `Keyboards` describes.
 */
module KeyboardDrivers {
  import opened Bits
  import opened Keyboards

  // ----- The ring buffer that both drivers contain -----

  /** The slots from `start` up to `end`, around the end of the buffer. */
  function Window(s: seq<byte>, start: nat, end: nat): seq<byte>
    requires |s| == BUFFER_SIZE && start < BUFFER_SIZE && end < BUFFER_SIZE
  {
    if start <= end then s[start..end] else s[start..] + s[..end]
  }

  /** The ring is full exactly when advancing `end` would meet `start`; otherwise the slot at `end` is free. */
  lemma WindowPush(s: seq<byte>, start: nat, end: nat, c: byte)
    requires |s| == BUFFER_SIZE && start < BUFFER_SIZE && end < BUFFER_SIZE
    ensures var next := (end + 1) % BUFFER_SIZE;
            && (next == start <==> |Window(s, start, end)| >= CAPACITY)
            && (next != start ==> Window(s[end := c], start, next) == Window(s, start, end) + [c])
  {
    var next := (end + 1) % BUFFER_SIZE;
    assert next == if end == BUFFER_SIZE - 1 then 0 else end + 1;
    if next != start {
      var t := s[end := c];
      if start <= end {
        SliceMore(s, start, end, c);
        assert next == 0 ==> t[start..] == t[start..end + 1] && t[start..] + t[..0] == t[start..];
      } else {
        SliceMore(s, 0, end, c);
        assert t[start..] == s[start..];
        assert s[start..] + (s[..end] + [c]) == (s[start..] + s[..end]) + [c];
      }
    }
  }

  lemma SliceMore(s: seq<byte>, start: nat, end: nat, c: byte)
    requires start <= end < |s|
    ensures s[end := c][start..end + 1] == s[start..end] + [c]
  {
  }

  lemma WindowFirst(s: seq<byte>, start: nat, end: nat)
    requires |s| == BUFFER_SIZE && start < BUFFER_SIZE && end < BUFFER_SIZE
    ensures Window(s, start, end) == [] <==> start == end
    ensures start != end ==> s[start] == Window(s, start, end)[0]
  {
  }

  lemma WindowRest(s: seq<byte>, start: nat, end: nat)
    requires |s| == BUFFER_SIZE && start < BUFFER_SIZE && end < BUFFER_SIZE && start != end
    ensures Window(s, if start == BUFFER_SIZE - 1 then 0 else start + 1, end) == Window(s, start, end)[1..]
  {
  }

  lemma WindowTake(s: seq<byte>, start: nat, end: nat)
    requires |s| == BUFFER_SIZE && start < BUFFER_SIZE && end < BUFFER_SIZE
    ensures Window(s, start, end) == [] <==> start == end
    ensures start != end ==> s[start] == Window(s, start, end)[0]
    ensures start != end ==> Window(s, (start + 1) % BUFFER_SIZE, end) == Window(s, start, end)[1..]
  {
    hide Window;
    WindowFirst(s, start, end);
    if start != end {
      WindowRest(s, start, end);
    }
  }

  class Ring {
    const data: array<byte>
    var start: nat
    var end: nat

    ghost predicate Shape()
      reads this
    {
      data.Length == BUFFER_SIZE && start < BUFFER_SIZE && end < BUFFER_SIZE
    }

    /** The pending characters, oldest first. */
    ghost function Contents(): (s: seq<byte>)
      requires Shape()
      reads this, data
    {
      Window(data[..], start, end)
    }

    /** No pending character is zero. */
    ghost predicate Valid()
      reads this, data
    {
      Shape() && 0 !in Contents()
    }

    constructor ()
      ensures Valid() && fresh(data) && Contents() == []
    {
      data := new byte[BUFFER_SIZE](_ => 0);
      start := 0;
      end := 0;
    }

    /** `buf_push` and `kbd_buffer_push`. */
    method PushChar(c: byte)
      requires Valid()
      modifies this`end, data
      ensures Valid() && Contents() == Push(old(Contents()), c)
    {
      if c == 0 {
        return;
      }
      hide Window;
      WindowPush(data[..], start, end, c);
      var next := (end + 1) % BUFFER_SIZE;
      if next == start {
        return;
      }
      data[end] := c;
      assert data[..] == old(data[..])[end := c];
      end := next;
    }

    /** Takes the oldest character. */
    method TakeChar() returns (c: byte)
      requires Valid() && Contents() != []
      modifies this`start
      ensures Valid() && c == old(Contents())[0] && Contents() == old(Contents())[1..]
    {
      hide Window;
      WindowTake(data[..], start, end);
      c := data[start];
      start := (start + 1) % BUFFER_SIZE;
    }

    /** The loop of `kbd_driver_read`: takes characters until the request or the ring is exhausted. */
    method TakeMany(dst: array<byte>, len: nat) returns (count: nat)
      requires Valid() && len <= dst.Length && dst != data
      modifies this`start, dst
      ensures Valid() && data[..] == old(data[..])
      ensures count == if len < |old(Contents())| then len else |old(Contents())|
      ensures dst[..count] == old(Contents())[..count] && Contents() == old(Contents())[count..]
    {
      hide Window;
      ghost var all := Contents();
      count := 0;
      WindowTake(data[..], start, end);
      while count < len && start != end
        invariant 0 <= count <= len && count <= |all| && Valid() && data[..] == old(data[..])
        invariant dst[..count] == all[..count] && Contents() == all[count..]
        invariant start == end <==> Contents() == []
        decreases len - count
      {
        var c := TakeChar();
        assert c == all[count];
        dst[count] := c;
        count := count + 1;
        WindowTake(data[..], start, end);
      }
    }
  }

  /** Which keys are down, by their state bytes. */
  function Down(s: seq<int>): (r: seq<bool>)
    ensures |r| == |s| && forall i :: 0 <= i < |s| ==> r[i] == (s[i] != 0)
  {
    seq(|s|, i requires 0 <= i < |s| => s[i] != 0)
  }

  lemma DownUpdate(s: seq<int>, i: nat, v: int)
    requires i < |s|
    ensures Down(s[i := v]) == Down(s)[i := v != 0]
  {
  }

  // ----- kernel/drv/drv_kbd.c -----

  class DriverKeyboard {
    const ring: Ring
    const state: array<byte>
    var shift: bool
    var ctrl: bool
    var alt: bool
    var caps: bool
    var ext: bool

    ghost predicate Valid()
      reads this, ring, ring.data, state
    {
      ring.Valid() && state.Length == 128 && ring.data != state
    }

    ghost function Held(): (k: Keys)
      requires Valid()
      reads this, ring, ring.data, state
      ensures |k.pressed| == 128
    {
      Keys(shift, ctrl, alt, caps, ext, Down(state[..]))
    }

    ghost function Pending(): seq<byte>
      requires Valid()
      reads this, ring, ring.data, state
    {
      ring.Contents()
    }

    /** `kbd_driver_init`: nothing held, nothing pending. */
    constructor ()
      ensures Valid() && fresh(ring) && fresh(ring.data) && fresh(state)
      ensures Held() == NoKeys() && Pending() == []
    {
      ring := new Ring();
      state := new byte[128](_ => 0);
      shift, ctrl, alt, caps, ext := false, false, false, false, false;
    }

    /** The key and modifier updates of the handler; `done` when nothing is left to print. */
    method NoteKey(sc: byte) returns (done: bool)
      requires Valid()
      modifies this, state
      ensures Valid() && Held() == KeysAfter(old(Held()), sc) && Pending() == old(Pending())
      ensures done <==> !Prints(sc)
    {
      hide Window, Down;
      if sc == EXTENDED {
        ext := true;
        return true;
      }
      var released := sc >= 128;
      var code: Code := sc % 128;
      ext := false;
      DownUpdate(state[..], code, if released then 0 else 1);
      state[code] := if released then 0 else 1;
      assert state[..] == old(state[..])[code := if released then 0 else 1];
      if code == LSHIFT || code == RSHIFT {
        shift := !released;
        return true;
      }
      if code == CTRL {
        ctrl := !released;
        return true;
      }
      if code == ALT {
        alt := !released;
        return true;
      }
      if code == CAPSLOCK && !released {
        caps := !caps;
        return true;
      }
      return released;
    }

    /** `kbd_handler_isr`, with the status and data bytes that the port reads gave. */
    method HandlerIsr(hasData: bool, sc: byte)
      requires Valid()
      modifies this, ring`end, ring.data, state
      ensures Valid()
      ensures !hasData ==> Held() == old(Held()) && Pending() == old(Pending())
      ensures hasData ==>
                && Held() == KeysAfter(old(Held()), sc)
                && Pending() == Push(old(Pending()), DriverOut(old(Held()), sc))
    {
      hide Window, Down, DriverChar;
      if !hasData {
        return;
      }
      var done := NoteKey(sc);
      if done {
        return;
      }
      ring.PushChar(DriverChar(sc, shift, caps));
    }

    /** `kbd_driver_read`: up to `len` characters, or -1 for a missing buffer or an empty request. */
    method DriverRead(dst: array?<byte>, len: nat) returns (count: int)
      requires Valid() && (dst != null ==> len <= dst.Length && dst != ring.data && dst != state)
      modifies ring`start, dst
      ensures Valid() && Held() == old(Held())
      ensures dst == null || len == 0 ==> count == -1 && Pending() == old(Pending())
      ensures dst != null && len > 0 ==>
                && count == (if len < |old(Pending())| then len else |old(Pending())|)
                && dst[..count] == old(Pending())[..count] && Pending() == old(Pending())[count..]
    {
      if dst == null || len == 0 {
        return -1;
      }
      hide Window, Down;
      count := ring.TakeMany(dst, len);
    }
  }

  // ----- kernel/kbd/kbd.c -----

  const MOD_SHIFT: bv8 := 1
  const MOD_CTRL: bv8 := 2
  const MOD_ALT: bv8 := 4
  const MOD_CAPS: bv8 := 8

  /** The shift, ctrl, alt and caps flags of the modifier byte. */
  datatype Flags = Flags(shift: bool, ctrl: bool, alt: bool, caps: bool)

  function FlagsOf(m: bv8): Flags {
    Flags(m & MOD_SHIFT != 0, m & MOD_CTRL != 0, m & MOD_ALT != 0, m & MOD_CAPS != 0)
  }

  function FlagsAfter(f: Flags, code: Code, down: bool): Flags {
    if code == LSHIFT || code == RSHIFT then f.(shift := down)
    else if code == CTRL then f.(ctrl := down)
    else if code == ALT then f.(alt := down)
    else if code == CAPSLOCK && down then f.(caps := !f.caps)
    else f
  }

  lemma KeysByFlags(k: Keys, b: byte)
    requires |k.pressed| == 128 && b != EXTENDED
    ensures var down, code: Code := b < 128, b % 128;
            var f := FlagsAfter(Flags(k.shift, k.ctrl, k.alt, k.caps), code, down);
            KeysAfter(k, b) == Keys(f.shift, f.ctrl, f.alt, f.caps, false, k.pressed[code := down])
  {
  }

  function Set(m: bv8, mask: bv8): bv8 {
    m | mask
  }

  function Clear(m: bv8, mask: bv8): bv8 {
    m & !mask
  }

  function Toggle(m: bv8, mask: bv8): bv8 {
    m ^ mask
  }

  lemma FlagUpdates(m: bv8)
    ensures FlagsOf(Set(m, MOD_SHIFT)) == FlagsOf(m).(shift := true)
    ensures FlagsOf(Clear(m, MOD_SHIFT)) == FlagsOf(m).(shift := false)
    ensures FlagsOf(Set(m, MOD_CTRL)) == FlagsOf(m).(ctrl := true)
    ensures FlagsOf(Clear(m, MOD_CTRL)) == FlagsOf(m).(ctrl := false)
    ensures FlagsOf(Set(m, MOD_ALT)) == FlagsOf(m).(alt := true)
    ensures FlagsOf(Clear(m, MOD_ALT)) == FlagsOf(m).(alt := false)
    ensures FlagsOf(Toggle(m, MOD_CAPS)) == FlagsOf(m).(caps := !FlagsOf(m).caps)
  {
  }

  class KernelKeyboard {
    const ring: Ring
    const pressed: array<int>
    var modifiers: bv8
    var extended: bool

    ghost predicate Valid()
      reads this, ring, ring.data, pressed
    {
      ring.Valid() && pressed.Length == 128 && ring.data as object != pressed as object
    }

    ghost function Held(): (k: Keys)
      requires Valid()
      reads this, ring, ring.data, pressed
      ensures |k.pressed| == 128
    {
      var f := FlagsOf(modifiers);
      Keys(f.shift, f.ctrl, f.alt, f.caps, extended, Down(pressed[..]))
    }

    ghost function Pending(): seq<byte>
      requires Valid()
      reads this, ring, ring.data, pressed
    {
      ring.Contents()
    }

    /** `kbd_init` on static storage that starts zeroed. */
    constructor ()
      ensures Valid() && fresh(ring) && fresh(ring.data) && fresh(pressed)
      ensures Held() == NoKeys() && Pending() == []
    {
      ring := new Ring();
      pressed := new int[128](_ => 0);
      modifiers, extended := 0, false;
    }

    /** The key and modifier updates of the handler; `done` when nothing is left to print. */
    method NoteKey(scancode: byte) returns (done: bool)
      requires Valid()
      modifies this, pressed
      ensures Valid() && Held() == KeysAfter(old(Held()), scancode) && Pending() == old(Pending())
      ensures done <==> !Prints(scancode)
    {
      hide Window, Down, FlagsOf, FlagsAfter;
      if scancode == EXTENDED {
        extended := true;
        return true;
      }
      KeysByFlags(Held(), scancode);
      var released := scancode >= 128;
      var code: Code := scancode % 128;
      extended := false;
      DownUpdate(pressed[..], code, if released then 0 else 1);
      pressed[code] := if released then 0 else 1;
      assert pressed[..] == old(pressed[..])[code := if released then 0 else 1];
      if released {
        ReleaseModifier(code);
        return true;
      }
      done := PressModifier(code);
    }

    /** The modifier updates of a released key. */
    method ReleaseModifier(code: Code)
      modifies this`modifiers
      ensures FlagsOf(modifiers) == FlagsAfter(old(FlagsOf(modifiers)), code, false)
    {
      hide FlagsOf, Set, Clear, Toggle;
      FlagUpdates(modifiers);
      if code == LSHIFT || code == RSHIFT {
        modifiers := Clear(modifiers, MOD_SHIFT);
      } else if code == CTRL {
        modifiers := Clear(modifiers, MOD_CTRL);
      } else if code == ALT {
        modifiers := Clear(modifiers, MOD_ALT);
      }
    }

    /** The modifier updates of a pressed key, and whether it was a modifier. */
    method PressModifier(code: Code) returns (done: bool)
      modifies this`modifiers
      ensures FlagsOf(modifiers) == FlagsAfter(old(FlagsOf(modifiers)), code, true) && done == IsModifier(code)
    {
      hide FlagsOf, Set, Clear, Toggle;
      FlagUpdates(modifiers);
      if code == LSHIFT || code == RSHIFT {
        modifiers := Set(modifiers, MOD_SHIFT);
        return true;
      }
      if code == CTRL {
        modifiers := Set(modifiers, MOD_CTRL);
        return true;
      }
      if code == ALT {
        modifiers := Set(modifiers, MOD_ALT);
        return true;
      }
      if code == CAPSLOCK {
        modifiers := Toggle(modifiers, MOD_CAPS);
        return true;
      }
      return false;
    }

    /** `kbd_handler`, with the byte that the port read gave. */
    method Handler(scancode: byte)
      requires Valid()
      modifies this, ring`end, ring.data, pressed
      ensures Valid()
      ensures Held() == KeysAfter(old(Held()), scancode)
      ensures Pending() == Push(old(Pending()), KernelOut(old(Held()), scancode))
    {
      hide Window, Down, KernelTable;
      var done := NoteKey(scancode);
      if done {
        return;
      }
      var shift := modifiers & MOD_SHIFT != 0;
      var caps := modifiers & MOD_CAPS != 0;
      var c := KernelTable(scancode, shift);
      if IsLower(c) {
        if caps {
          c := c - 32;
        }
      } else if IsUpper(c) {
        if !shift && caps {
          c := c + 32;
        }
      }
      ring.PushChar(c);
    }

    /** `kbd_getchar`: the oldest pending character, or 0, which is never pending, when there is none. */
    method Getchar() returns (c: byte)
      requires Valid()
      modifies ring`start
      ensures Valid() && Held() == old(Held())
      ensures c == 0 <==> old(Pending()) == []
      ensures old(Pending()) == [] ==> Pending() == []
      ensures old(Pending()) != [] ==> c == old(Pending())[0] && Pending() == old(Pending())[1..]
    {
      WindowTake(ring.data[..], ring.start, ring.end);
      if ring.start == ring.end {
        return 0;
      }
      c := ring.TakeChar();
    }

    /** `kbd_get_modifiers`: one bit for each of shift, ctrl, alt and caps lock. */
    method GetModifiers() returns (m: bv8)
      requires Valid()
      ensures (m & 1 != 0 <==> Held().shift) && (m & 2 != 0 <==> Held().ctrl)
      ensures (m & 4 != 0 <==> Held().alt) && (m & 8 != 0 <==> Held().caps)
    {
      m := modifiers;
    }

    /** `kbd_has_input`. */
    method HasInput() returns (r: bool)
      requires Valid()
      ensures r <==> Pending() != []
    {
      WindowTake(ring.data[..], ring.start, ring.end);
      r := ring.start != ring.end;
    }
  }
}
