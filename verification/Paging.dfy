/**
 The physical memory manager and page mapper of kernel/mm/paging.c, updating its bitmap and its
 tables in place. Each method is proved to take the step that the state machine of
 `AddressSpaces` describes.
 */
module Paging {
  import opened Bits
  import opened Options
  import opened PageTables
  import opened PageOps
  import opened AddressSpaces
  import opened PagingRuns
  import opened Tlb

  const PAGE_SIZE: nat := 4096
  const BITMAP_BYTES: nat := 2048
  const PAGE_PRESENT: nat := 1
  const PAGE_WRITABLE: nat := 2
  const PAGE_USER: nat := 4

  // ----- The bitmap -----

  predicate FrameBit(bits: seq<byte>, f: nat) {
    f / 8 < |bits| && Bit(bits[f / 8], f % 8)
  }

  /** The frames whose bit is set. */
  ghost function FreeSet(bits: seq<byte>): set<Frame> {
    set f: Frame | f < FRAMES && FrameBit(bits, f)
  }

  lemma ClearedBit(bits: seq<byte>, f: Frame)
    requires |bits| == BITMAP_BYTES
    ensures Pow2(f % 8) < 256 && BitAnd(bits[f / 8], BitNot8(Pow2(f % 8))) < 256
    ensures FreeSet(bits[f / 8 := BitAnd(bits[f / 8], BitNot8(Pow2(f % 8)))]) == FreeSet(bits) - {f}
  {
    var x := bits[f / 8];
    Pow2Below256(f % 8);
    BitAndBelow(x, BitNot8(Pow2(f % 8)));
    var after := bits[f / 8 := BitAnd(x, BitNot8(Pow2(f % 8)))];
    forall g: Frame | g < FRAMES
      ensures FrameBit(after, g) <==> g != f && FrameBit(bits, g)
    {
      ClearMask(x, f % 8, g % 8);
    }
  }

  lemma SetBit(bits: seq<byte>, f: Frame)
    requires |bits| == BITMAP_BYTES
    ensures BitOr(bits[f / 8], Pow2(f % 8)) < 256
    ensures FreeSet(bits[f / 8 := BitOr(bits[f / 8], Pow2(f % 8))]) == FreeSet(bits) + {f}
  {
    var x := bits[f / 8];
    Pow2Below256(f % 8);
    BitOrBelow(x, Pow2(f % 8), 8);
    var after := bits[f / 8 := BitOr(x, Pow2(f % 8))];
    forall g: Frame | g < FRAMES
      ensures FrameBit(after, g) <==> g == f || FrameBit(bits, g)
    {
      SetMask(x, f % 8, g % 8);
    }
  }

  lemma AllClear(bits: seq<byte>)
    requires forall i :: 0 <= i < |bits| ==> bits[i] == 0
    ensures FreeSet(bits) == {}
  {
    forall g: Frame | g < FRAMES
      ensures !FrameBit(bits, g)
    {
      ZeroBits(g % 8);
    }
  }

  // ----- Entry forms -----

  /** The masks and ors that build and read entries, in arithmetic. */
  lemma EntryForms(x: word)
    ensures BitAnd(x, PAGE_PRESENT) != 0 <==> Present(x)
    ensures BitAnd(x, BitNot64(0xFFF)) / 8 == Target(x)
    ensures BitAnd(x, BitNot64(0xFFF)) == x - x % 4096 == x / 4096 * 4096
  {
    hide BitAnd;
    PageMasks(x);
    assert x - x % 4096 == x / 4096 * 4096;
  }

  lemma LinkForm(f: Frame)
    ensures BitOr(BitOr(BitOr(f as nat * PAGE_SIZE, PAGE_PRESENT), PAGE_WRITABLE), PAGE_USER) == LinkEntry(f)
  {
    OrFlags(f, 0, 1);
    assert BitOr(0, 1) == 1;
    OrFlags(f, 1, 2);
    assert BitOr(1, 2) == 3;
    OrFlags(f, 3, 4);
    assert BitOr(3, 4) == 7;
  }

  lemma LeafForm(phys: word, flags: word)
    ensures BitOr(BitOr(BitAnd(phys, BitNot64(0xFFF)), BitAnd(flags, 0xFFF)), PAGE_PRESENT) == LeafEntry(phys, flags)
  {
    hide BitAnd, BitOr;
    var f, b := phys / 4096, flags % 4096;
    assert BitAnd(phys, BitNot64(0xFFF)) == f * 4096 + 0 by { EntryForms(phys); }
    assert BitAnd(flags, 0xFFF) == b by { PageMasks(flags); }
    OrParts(f, b);
  }

  lemma OrParts(f: nat, b: nat)
    requires b < 4096
    ensures BitOr(BitOr(f * 4096 + 0, b), 1) == f * 4096 + b / 2 * 2 + 1
  {
    hide BitOr;
    OrFlags(f, 0, b);
    BitOrZero(b);
    OrFlags(f, b, 1);
    OrPresent(b);
  }

  /** The shifts and masks of the source give the four indices of the page. */
  lemma IndexForms(virt: word)
    ensures BitAnd(ShiftRight(virt, 39), 0x1FF) == PageOf(virt)[0]
    ensures BitAnd(ShiftRight(virt, 30), 0x1FF) == PageOf(virt)[1]
    ensures BitAnd(ShiftRight(virt, 21), 0x1FF) == PageOf(virt)[2]
    ensures BitAnd(ShiftRight(virt, 12), 0x1FF) == PageOf(virt)[3]
  {
    hide BitAnd, ShiftRight, Pow2;
    PageShifts();
    IndexForm(virt, 39);
    IndexForm(virt, 30);
    IndexForm(virt, 21);
    IndexForm(virt, 12);
  }

  lemma IndexForm(virt: word, k: nat)
    ensures BitAnd(ShiftRight(virt, k), 0x1FF) == virt / Pow2(k) % 512
  {
    hide BitAnd, ShiftRight, Pow2;
    ShiftRightIs(virt, k);
    Pow2Constants();
    LowMask(virt / Pow2(k), 9);
  }

  // ----- The manager -----

  class PageManager {
    const bitmap: array<byte>
    const mem: array<word>
    var currentDir: nat
    ghost var owners: Owners
    ghost var events: seq<Event>  // the stores, invalidations and cr3 loads made so far

    ghost predicate Shape()
      reads this
    {
      bitmap.Length == BITMAP_BYTES && mem.Length == WORDS && bitmap as object != mem as object
    }

    ghost function M(): Machine
      reads this, bitmap, mem
    {
      Machine(FreeSet(bitmap[..]), mem[..], currentDir)
    }

    ghost function Sys(): System
      reads this, bitmap, mem
    {
      System(M(), owners)
    }

    ghost predicate Valid()
      reads this, bitmap, mem
    {
      Shape() && SysInv(Sys())
    }

    /** A manager of the given memory, its statics zeroed: no frame is free and there is no directory yet. */
    constructor (mem: array<word>)
      requires mem.Length == WORDS
      ensures Shape() && this.mem == mem && fresh(bitmap)
      ensures M() == Machine({}, mem[..], 0) && events == []
    {
      this.mem := mem;
      bitmap := new byte[BITMAP_BYTES](_ => 0);
      currentDir, owners, events := 0, Owners({}, map[], {}, {}), [];
      new;
      AllClear(bitmap[..]);
    }

    /** `mm_init`: afterwards exactly the frames 512..16383 are free. */
    method MmInit()
      requires Shape()
      modifies bitmap
      ensures M() == old(M()).(free := Pool())
      ensures forall f: Frame :: f in M().free <==> 512 <= f < 16384
    {
      var i := 0;
      while i < BITMAP_BYTES
        invariant 0 <= i <= BITMAP_BYTES
        invariant forall k :: 0 <= k < i ==> bitmap[k] == 0
      {
        bitmap[i] := 0;
        i := i + 1;
      }
      AllClear(bitmap[..]);
      var mapEnd := 1024 * 1024 * 1024;
      if mapEnd > 262144 * PAGE_SIZE {
        mapEnd := 262144 * PAGE_SIZE;
      }
      var p := 0x20_0000;
      while p < mapEnd
        invariant 0x20_0000 <= p <= mapEnd == 0x4000_0000 && p % PAGE_SIZE == 0
        invariant FreeSet(bitmap[..]) == PoolBelow(p / PAGE_SIZE)
        decreases mapEnd - p
      {
        var index := p / PAGE_SIZE;
        if index < FRAMES {
          SetBit(bitmap[..], index);
          ghost var before := bitmap[..];
          bitmap[index / 8] := BitOr(bitmap[index / 8], Pow2(index % 8));
          assert bitmap[..] == before[index / 8 := BitOr(before[index / 8], Pow2(index % 8))];
        }
        assert PoolBelow(index + 1) == PoolBelow(index) + (if index < FRAMES then {index} else {});
        p := p + PAGE_SIZE;
        assert p / PAGE_SIZE == index + 1;
      }
      assert PoolBelow(mapEnd / PAGE_SIZE) == Pool();
    }

    /**
     `paging_init`: the statically allocated, still zeroed kernel directory becomes current. From the
     memory that `mm_init` leaves this reaches the state in which every run starts.
     */
    method PagingInit(kernelDir: nat)
      requires Shape() && M().free == Pool()
      requires kernelDir + ENTRIES <= FIRST_POOL_FRAME * 512
      requires forall at :: kernelDir <= at < kernelDir + ENTRIES ==> mem[at] == 0
      modifies this`currentDir, this`owners
      ensures M() == old(M()).(cur := kernelDir) && owners == Owners({kernelDir}, map[], {}, {})
      ensures Boot(Sys()) && Valid() && Represents(Sys(), Fresh(kernelDir))
    {
      hide FreeSet, Pool;
      currentDir := kernelDir;
      owners := Owners({kernelDir}, map[], {}, {});
      forall at | kernelDir <= at < kernelDir + ENTRIES
        ensures Load(mem[..], at) == 0
      {
        assert mem[..][at] == mem[at];
      }
      hide Inv, Represents, Fresh;
      BootInv(Sys());
    }

    /** `mm_start`: from any bitmap to the boot state, reporting 15872 free frames. */
    method MmStart(kernelDir: nat) returns (used: nat, free: nat)
      requires Shape()
      requires kernelDir + ENTRIES <= FIRST_POOL_FRAME * 512
      requires forall at :: kernelDir <= at < kernelDir + ENTRIES ==> mem[at] == 0
      modifies this`currentDir, this`owners, bitmap
      ensures Boot(Sys()) && Valid() && currentDir == kernelDir && mem[..] == old(mem[..])
      ensures used == 512 && free == 15872
    {
      hide FreeSet, Pool, Inv;
      MmInit();
      PagingInit(kernelDir);
      used, free := MmPrintStats();
      PoolCount();
    }

    /** The scan of `mm_alloc_page`: takes the lowest free frame. */
    method TakeFrame() returns (phys: word)
      requires Shape()
      modifies bitmap
      ensures (M(), phys) == AllocPage(old(M()))
    {
      var i := 0;
      while i < FRAMES
        invariant 0 <= i <= FRAMES
        invariant forall f: Frame :: f < i ==> f !in FreeSet(bitmap[..])
        invariant bitmap[..] == old(bitmap[..])
      {
        var at, bit := i / 8, i % 8;
        TestMask(bitmap[at], bit);
        if BitAnd(bitmap[at], Pow2(bit)) != 0 {
          assert FrameBit(bitmap[..], i);
          assert IsMin(FreeSet(bitmap[..]), i);
          ClearedBit(bitmap[..], i);
          bitmap[at] := BitAnd(bitmap[at], BitNot8(Pow2(bit)));
          assert bitmap[..] == old(bitmap[..])[at := BitAnd(old(bitmap[..])[at], BitNot8(Pow2(bit)))];
          return i * PAGE_SIZE;
        }
        assert !FrameBit(bitmap[..], i);
        i := i + 1;
      }
      assert FreeSet(bitmap[..]) == {};
      return 0;
    }

    /** `mm_alloc_page` called by a client, who then holds the frame. */
    method MmAllocPage() returns (phys: word)
      requires Valid()
      modifies this`owners, bitmap
      ensures (Sys(), phys) == AllocStep(old(Sys())) && Valid()
    {
      hide Inv, FreeSet;
      AllocMeaning(Sys());
      phys := TakeFrame();
      if phys != 0 {
        owners := owners.(held := owners.held + {Min(old(M().free))});
      }
    }

    /**
     `mm_free_page`. The frame number is cut to 32 bits and read as signed; a negative number
     would index before the bitmap, so callers must avoid it. Numbers from 16384 up are ignored.
     */
    method MmFreePage(phys: word)
      requires Shape()
      requires ToInt32(phys / PAGE_SIZE) >= 0
      modifies this`owners, bitmap
      ensures var index := ToInt32(phys / PAGE_SIZE);
              && Sys() == (if index < FRAMES then FreeStep(old(Sys()), index) else old(Sys()))
              && M() == old(M()).(free := old(M()).free + (if index < 16384 then {index} else {}))
              && (old(Valid()) && (index < FRAMES ==> index in old(owners).held) ==> Valid())
    {
      hide Inv, FreeSet;
      var index := ToInt32(phys / PAGE_SIZE);
      if Valid() && index < FRAMES && index in owners.held {
        FreeMeaning(Sys(), index);
      }
      if index >= FRAMES {
        return;
      }
      SetBit(bitmap[..], index);
      bitmap[index / 8] := BitOr(bitmap[index / 8], Pow2(index % 8));
      assert bitmap[..] == old(bitmap[..])[index / 8 := BitOr(old(bitmap[..])[index / 8], Pow2(index % 8))];
      owners := owners.(held := owners.held - {index});
    }

    /** The free count that `mm_print_stats` reports is the number of free frames. */
    method MmPrintStats() returns (used: nat, free: nat)
      requires Shape()
      ensures free == |M().free| && used == 16384 - free
    {
      used, free := 0, 0;
      var i := 0;
      ghost var seen: set<Frame> := {};
      while i < FRAMES
        invariant 0 <= i <= FRAMES && used + free == i
        invariant seen == FreeBelow(bitmap[..], i) && free == |seen|
      {
        TestMask(bitmap[i / 8], i % 8);
        if BitAnd(bitmap[i / 8], Pow2(i % 8)) != 0 {
          free := free + 1;
          seen := seen + {i};
        } else {
          used := used + 1;
        }
        i := i + 1;
      }
      assert seen == FreeSet(bitmap[..]);
    }

    /** A store to physical memory. */
    method StoreWordAt(at: nat, value: word)
      requires at < mem.Length
      modifies this`events, mem
      ensures mem[..] == old(mem[..])[at := value]
      ensures events == old(events) + [StoreWord(at, value)]
    {
      mem[at] := value;
      events := events + [StoreWord(at, value)];
    }

    /** `paging_invalidate`. */
    method PagingInvalidate(virt: word)
      modifies this`events
      ensures events == old(events) + [Invlpg(virt)]
    {
      events := events + [Invlpg(virt)];
    }

    /** The zeroing loop of `get_pte`. */
    method ZeroTable(table: nat)
      requires Shape() && table + ENTRIES <= WORDS
      modifies this`events, mem
      ensures mem[..] == Zeroed(old(mem[..]), table)
      ensures events == old(events) + ZeroStores(table, ENTRIES)
    {
      var i := 0;
      while i < ENTRIES
        invariant 0 <= i <= ENTRIES
        invariant forall k :: 0 <= k < mem.Length ==> mem[k] == if table <= k < table + i then 0 else old(mem[k])
        invariant events == old(events) + ZeroStores(table, i)
      {
        StoreWordAt(table + i, 0);
        i := i + 1;
      }
    }

    /** One of the three levels of `get_pte`, which the source writes out in turn. */
    method NextLevel(base: nat, index: nat, create: bool) returns (next: Option<nat>)
      requires Shape() && base + index < WORDS
      modifies this`events, bitmap, mem
      ensures Walked(M(), next) == NextTable(old(M()), base, index, create)
      ensures events == old(events) + NextTrace(old(M()), base, index, create)
    {
      var entry := mem[base + index];
      assert entry == Load(mem[..], base + index);
      EntryForms(entry);
      if BitAnd(entry, PAGE_PRESENT) == 0 {
        if !create {
          return None;
        }
        var phys := TakeFrame();
        if phys == 0 {
          return None;
        }
        FrameAddress(Min(old(M().free)));
        LinkForm(Min(old(M().free)));
        ZeroTable(phys / 8);
        label zeroed:
        StoreWordAt(base + index, BitOr(BitOr(BitOr(phys, PAGE_PRESENT), PAGE_WRITABLE), PAGE_USER));
        assert mem[..] == Store(old@zeroed(mem[..]), base + index, LinkEntry(phys / 4096));
        entry := mem[base + index];
        assert entry == Load(mem[..], base + index);
        EntryForms(entry);
      }
      next := Some(BitAnd(entry, BitNot64(0xFFF)) / 8);
    }

    /** A level of the walk from machine `m`, continuing where the walk to depth `d` ended. */
    method WalkLevel(base: nat, index: nat, create: bool,
                     ghost m: Machine, ghost o: Owners, ghost page: Page, ghost d: nat, ghost e: seq<Event>)
      returns (next: Option<nat>)
      requires Shape() && Inv(m, o) && m.cur in o.dirs && d < 3 && index == page[d]
      requires Walked(M(), Some(base)) == WalkTo(m, page, d, create)
      requires events == e + WalkTrace(m, page, d, create)
      modifies this`events, bitmap, mem
      ensures Walked(M(), next) == WalkTo(m, page, d + 1, create)
      ensures events == e + WalkTrace(m, page, d + 1, create)
    {
      hide Inv, WalkTo, WalkTrace, NextTable, NextTrace, FreeSet;
      WalkBounds(m, o, page, d, create);
      WalkUnfold(m, page, d, create);
      next := NextLevel(base, index, create);
    }

    /** The three levels of `get_pte`: the last-level table, if the walk could be completed. */
    method LastTable(virt: word, create: bool, ghost o: Owners) returns (at: Option<nat>)
      requires Shape() && Inv(M(), o) && currentDir in o.dirs
      modifies this`events, bitmap, mem
      ensures Walked(M(), at) == WalkTo(old(M()), PageOf(virt), 3, create)
      ensures events == old(events) + WalkTrace(old(M()), PageOf(virt), 3, create)
    {
      hide Inv, WalkTo, WalkTrace, FreeSet, PageOf, BitAnd, ShiftRight;
      ghost var page, m := PageOf(virt), M();
      IndexForms(virt);
      var pml4Index := BitAnd(ShiftRight(virt, 39), 0x1FF);
      var pdptIndex := BitAnd(ShiftRight(virt, 30), 0x1FF);
      var pdIndex := BitAnd(ShiftRight(virt, 21), 0x1FF);
      WalkRoot(m, page, create);
      WalkStuckUnfold(m, page, 1, create);
      WalkStuckUnfold(m, page, 2, create);
      at := WalkLevel(currentDir, pml4Index, create, m, o, page, 0, old(events));
      if at.None? {
        return;
      }
      at := WalkLevel(at.value, pdptIndex, create, m, o, page, 1, old(events));
      if at.None? {
        return;
      }
      at := WalkLevel(at.value, pdIndex, create, m, o, page, 2, old(events));
    }

    /** `get_pte`: the word index of the last-level entry, if the walk could be completed. */
    method GetPte(virt: word, create: bool) returns (at: Option<nat>)
      requires Valid()
      modifies this`owners, this`events, bitmap, mem
      ensures Valid() && Walked(M(), at) == PageTables.GetPte(old(M()), PageOf(virt), create)
      ensures owners == WalkOwners(old(M()), old(owners), PageOf(virt), 3, create)
      ensures events == old(events) + WalkTrace(old(M()), PageOf(virt), 3, create)
      ensures at.Some? ==> at.value < WORDS
    {
      hide Inv, WalkTo, WalkTrace, WalkOwners, FreeSet, PageOf, BitAnd, ShiftRight;
      WalkBounds(M(), owners, PageOf(virt), 3, create);
      IndexForms(virt);
      var ptIndex := BitAnd(ShiftRight(virt, 12), 0x1FF);
      at := LastTable(virt, create, owners);
      owners := WalkOwners(old(M()), old(owners), PageOf(virt), 3, create);
      if at.Some? {
        at := Some(at.value + ptIndex);
      }
    }

    /** `mm_map_page`. The pointer it returns is `virt`; a null result also means success when `virt` is 0. */
    method MmMapPage(phys: word, virt: word, flags: word) returns (result: word, ghost ok: bool)
      requires Valid()
      modifies this`owners, this`events, bitmap, mem
      ensures (Sys(), ok) == MapStep(old(Sys()), phys, PageOf(virt), flags) && Valid()
      ensures events == old(events) + MapTrace(old(M()), phys, virt, flags)
      ensures ok ==> result == virt && Translate(mem[..], currentDir, PageOf(virt)) == Some(LeafEntry(phys, flags))
      ensures !ok ==> result == 0
      ensures ok <==> Missing(old(owners), currentDir, PageOf(virt), 3) <= |old(M()).free|
    {
      hide Inv, WalkTo, WalkTrace, WalkOwners, FreeSet, PageOf, LeafEntry, BitAnd, BitOr;
      MapMeaning(Sys(), phys, PageOf(virt), flags);
      var at := GetPte(virt, true);
      ok := at.Some?;
      if at.None? {
        return 0, ok;
      }
      LeafForm(phys, flags);
      label linked:
      StoreWordAt(at.value, BitOr(BitOr(BitAnd(phys, BitNot64(0xFFF)), BitAnd(flags, 0xFFF)), PAGE_PRESENT));
      assert mem[..] == Store(old@linked(mem[..]), at.value, LeafEntry(phys, flags));
      PagingInvalidate(virt);
      result := virt;
    }

    /** `mm_unmap_page`. Null means not mapped, or mapped to physical page 0. */
    method MmUnmapPage(virt: word) returns (result: word, ghost phys: Option<word>)
      requires Valid()
      modifies this`owners, this`events, bitmap, mem
      ensures (Sys(), phys) == UnmapStep(old(Sys()), PageOf(virt)) && Valid()
      ensures events == old(events) + UnmapTrace(old(M()), virt)
      ensures match Translate(old(mem[..]), currentDir, PageOf(virt)) {
                case None => phys == None && result == 0
                case Some(entry) => phys == Some(result) && result == entry - entry % 4096
              }
      ensures Translate(mem[..], currentDir, PageOf(virt)) == None
      ensures phys == None ==> mem[..] == old(mem[..])
    {
      hide Inv, WalkTo, WalkTrace, WalkOwners, FreeSet, PageOf, BitAnd, ShiftRight, Translate;
      ghost var m, o, page := M(), owners, PageOf(virt);
      LookupOnly(m, o, page);
      UnmapMeaning(Sys(), page);
      var at := GetPte(virt, false);
      phys := None;
      if at.None? {
        return 0, phys;
      }
      EntryForms(mem[at.value]);
      assert mem[at.value] == Load(mem[..], at.value);
      if BitAnd(mem[at.value], PAGE_PRESENT) == 0 {
        return 0, phys;
      }
      result := BitAnd(mem[at.value], BitNot64(0xFFF));
      phys := Some(result);
      StoreWordAt(at.value, 0);
      assert mem[..] == Store(m.mem, at.value, 0);
      PagingInvalidate(virt);
    }

    /** `paging_switch_directory`. */
    method PagingSwitchDirectory(dir: nat)
      requires Valid() && dir in owners.dirs
      modifies this`currentDir, this`events
      ensures Sys() == Step(old(Sys()), Switch(dir)) && Valid()
      ensures currentDir == dir && M() == old(M()).(cur := dir)
      ensures events == old(events) + [LoadCr3(dir)]
    {
      hide Inv, FreeSet;
      SwitchInv(Sys(), dir);
      currentDir := dir;
      events := events + [LoadCr3(dir)];
    }
  }

  lemma WalkRoot(m: Machine, page: Page, create: bool)
    ensures WalkTo(m, page, 0, create) == Walked(m, Some(m.cur))
    ensures WalkTrace(m, page, 0, create) == []
  {
  }

  lemma WalkStuckUnfold(m: Machine, page: Page, d: nat, create: bool)
    requires d < 3
    ensures var w := WalkTo(m, page, d, create);
            w.loc.None? ==>
              WalkTo(m, page, 3, create) == w && WalkTrace(m, page, 3, create) == WalkTrace(m, page, d, create)
  {
  }

  lemma WalkUnfold(m: Machine, page: Page, d: nat, create: bool)
    requires d < 3
    ensures var w := WalkTo(m, page, d, create);
            && WalkTo(m, page, d + 1, create) ==
               (if w.loc.None? then w else NextTable(w.m, w.loc.value, page[d], create))
            && WalkTrace(m, page, d + 1, create) ==
               WalkTrace(m, page, d, create) +
               (if w.loc.None? then [] else NextTrace(w.m, w.loc.value, page[d], create))
  {
  }

  lemma {:induction false} NoTrace(m: Machine, page: Page, depth: nat)
    requires depth <= 3
    ensures WalkTrace(m, page, depth, false) == []
  {
    if depth > 0 {
      NoTrace(m, page, depth - 1);
    }
  }

  /** A walk that may not allocate changes nothing. */
  lemma LookupOnly(m: Machine, o: Owners, page: Page)
    requires Inv(m, o) && m.cur in o.dirs
    ensures WalkTo(m, page, 3, false).m == m && WalkOwners(m, o, page, 3, false) == o
    ensures WalkTrace(m, page, 3, false) == []
  {
    NoTrace(m, page, 3);
    WalkStep(m, o, page, 3, false);
  }

  lemma FrameAddress(f: Frame)
    ensures f as nat * 4096 / 4096 == f
    ensures f as nat * 4096 / 8 == f as nat * 512 && f as nat * 512 + ENTRIES <= WORDS
  {
  }

  /** The table that the walk has reached at any depth lies in memory. */
  lemma WalkBounds(m: Machine, o: Owners, page: Page, depth: nat, create: bool)
    requires Inv(m, o) && m.cur in o.dirs && depth <= 3
    ensures var w := WalkTo(m, page, depth, create);
            && Inv(w.m, WalkOwners(m, o, page, depth, create)) && w.m.cur in WalkOwners(m, o, page, depth, create).dirs
            && (w.loc.Some? ==> w.loc.value + ENTRIES <= WORDS)
  {
    hide Inv, WalkTo, WalkOwners;
    WalkStep(m, o, page, depth, create);
    var w, o2 := WalkTo(m, page, depth, create), WalkOwners(m, o, page, depth, create);
    if w.loc.Some? {
      TableInMemory(w.m, o2, SlotOf(m.cur, page, depth));
    }
  }

  ghost function PoolBelow(n: nat): set<Frame> {
    set f: Frame | f < FRAMES && InPool(f) && f < n
  }

  ghost function FreeBelow(bits: seq<byte>, n: nat): set<Frame> {
    set f: Frame | f < n && f < FRAMES && FrameBit(bits, f)
  }
}
