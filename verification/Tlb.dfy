/**
 The translation cache of the processor, next to the stores and invalidations of the kernel.

 At any moment the processor may cache a translation that the loaded directory gives, or drop
 one. The kernel's part of a run is the sequence of its stores to memory, its `invlpg`s and its
 loads of cr3, in program order. Invalidation follows the Intel SDM: `invlpg` drops the page of a
 canonical address and does nothing for a non-canonical one; loading cr3 drops everything and takes
 the walk's root from the loaded address with its low twelve bits dropped.
 */
module Tlb {
  import opened Bits
  import opened Options
  import opened PageTables
  import opened PageOps
  import opened AddressSpaces
  import opened PagingRuns

  datatype Event =
    | StoreWord(at: nat, value: word)
    | Invlpg(virt: word)
    | LoadCr3(dir: nat)
    | Fill(page: Page)
    | Evict(page: Page)

  datatype Cpu = Cpu(mem: seq<word>, cr3: nat, tlb: map<Page, word>)

  /** Bits 47..63 all equal. */
  predicate Canonical(virt: word) {
    virt < 0x8000_0000_0000 || virt >= 0xFFFF_8000_0000_0000
  }

  /** The top seventeen bits are all clear or all set. */
  lemma CanonicalMeans(virt: word)
    ensures Canonical(virt) <==> virt / 0x8000_0000_0000 == 0 || virt / 0x8000_0000_0000 == 0x1_FFFF
  {
  }

  /** The table that the processor walks from when cr3 holds the address of word `dir`. */
  function RootOf(dir: nat): nat {
    dir / ENTRIES * ENTRIES
  }

  function Exec1(c: Cpu, e: Event): Cpu {
    match e
    case StoreWord(at, value) => c.(mem := Store(c.mem, at, value))
    case Invlpg(virt) => if Canonical(virt) then c.(tlb := c.tlb - {PageOf(virt)}) else c
    case LoadCr3(dir) => c.(cr3 := RootOf(dir), tlb := map[])
    case Fill(page) =>
      (match Translate(c.mem, c.cr3, page)
       case None => c
       case Some(entry) => c.(tlb := c.tlb[page := entry]))
    case Evict(page) => c.(tlb := c.tlb - {page})
  }

  function Exec(c: Cpu, es: seq<Event>): Cpu
    decreases |es|
  {
    if es == [] then c else Exec(Exec1(c, es[0]), es[1..])
  }

  predicate ByKernel(e: Event) {
    !e.Fill? && !e.Evict?
  }

  /** The kernel's events among those that happened. */
  function Kernel(es: seq<Event>): seq<Event> {
    if es == [] then [] else (if ByKernel(es[0]) then [es[0]] else []) + Kernel(es[1..])
  }

  /** Every cached translation is the one the tables give. */
  ghost predicate Coherent(c: Cpu) {
    forall p :: p in c.tlb ==> Translate(c.mem, c.cr3, p) == Some(c.tlb[p])
  }

  ghost predicate CoherentExcept(c: Cpu, page: Page) {
    forall p :: p in c.tlb && p != page ==> Translate(c.mem, c.cr3, p) == Some(c.tlb[p])
  }

  // ----- The kernel's events -----

  function ZeroStores(base: nat, n: nat): seq<Event> {
    if n == 0 then [] else ZeroStores(base, n - 1) + [StoreWord(base + n - 1, 0)]
  }

  /** The stores of one level of `get_pte`. */
  ghost function NextTrace(m: Machine, base: nat, index: nat, create: bool): seq<Event> {
    var phys := AllocPage(m).1;
    if Present(Load(m.mem, base + index)) || !create || phys == 0 then []
    else ZeroStores(phys / 8, ENTRIES) + [StoreWord(base + index, LinkEntry(phys / 4096))]
  }

  ghost function WalkTrace(m: Machine, page: Page, depth: nat, create: bool): seq<Event>
    requires depth <= 3
  {
    if depth == 0 then []
    else
      var w, t := WalkTo(m, page, depth - 1, create), WalkTrace(m, page, depth - 1, create);
      if w.loc.None? then t else t + NextTrace(w.m, w.loc.value, page[depth - 1], create)
  }

  /** Writing a last-level entry, then invalidating the address. */
  function EditTrace(at: nat, value: word, virt: word): seq<Event> {
    [StoreWord(at, value), Invlpg(virt)]
  }

  ghost function MapTrace(m: Machine, phys: word, virt: word, flags: word): seq<Event> {
    var page := PageOf(virt);
    var loc := WalkTo(m, page, 3, true).loc;
    WalkTrace(m, page, 3, true) +
    (if loc.None? then [] else EditTrace(loc.value + page[3], LeafEntry(phys, flags), virt))
  }

  ghost function UnmapTrace(m: Machine, virt: word): seq<Event> {
    var page := PageOf(virt);
    var loc := WalkTo(m, page, 3, false).loc;
    if loc.None? || !Present(Load(m.mem, loc.value + page[3])) then []
    else EditTrace(loc.value + page[3], 0, virt)
  }

  ghost function OpTrace(s: System, op: Op): seq<Event> {
    match op
    case Map(phys, virt, flags) => MapTrace(s.m, phys, virt, flags)
    case Unmap(virt) => UnmapTrace(s.m, virt)
    case Switch(dir) => [LoadCr3(dir)]
    case ClientStore(at, value) => [StoreWord(at, value)]
    case _ => []
  }

  // ----- Stores that change no translation -----

  ghost predicate SameTranslations(mem: seq<word>, mem2: seq<word>, dir: nat) {
    forall p: Page :: Translate(mem2, dir, p) == Translate(mem, dir, p)
  }

  function MemAfter(mem: seq<word>, es: seq<Event>): seq<word>
    decreases |es|
  {
    if es == [] then mem
    else MemAfter(if es[0].StoreWord? then Store(mem, es[0].at, es[0].value) else mem, es[1..])
  }

  /** All events are stores, and no translation under `dir` changes at any of them. */
  ghost predicate Silent(mem: seq<word>, dir: nat, es: seq<Event>)
    decreases |es|
  {
    es == [] ||
    (&& es[0].StoreWord?
     && SameTranslations(mem, Store(mem, es[0].at, es[0].value), dir)
     && Silent(Store(mem, es[0].at, es[0].value), dir, es[1..]))
  }

  lemma {:induction false} SilentConcat(mem: seq<word>, dir: nat, a: seq<Event>, b: seq<Event>)
    requires Silent(mem, dir, a) && Silent(MemAfter(mem, a), dir, b)
    ensures Silent(mem, dir, a + b) && MemAfter(mem, a + b) == MemAfter(MemAfter(mem, a), b)
    decreases |a|
  {
    if a == [] {
      assert a + b == b;
    } else {
      SilentConcat(Store(mem, a[0].at, a[0].value), dir, a[1..], b);
      assert (a + b)[1..] == a[1..] + b;
    }
  }

  /** Zeroing a free frame is silent. */
  lemma {:induction false} ZeroSilent(s: System, f: Frame, n: nat, dir: nat)
    requires SysInv(s) && f in s.m.free && n <= ENTRIES && dir in s.o.dirs
    ensures var es := ZeroStores(f as nat * 512, n);
            var t := s.(m := s.m.(mem := MemAfter(s.m.mem, es)));
            Silent(s.m.mem, dir, es) && SysInv(t) && ZeroedPart(s.m.mem, t.m.mem, f as nat * 512, n)
  {
    hide SysInv, Translate;
    if n > 0 {
      ZeroSilent(s, f, n - 1, dir);
      var es := ZeroStores(f as nat * 512, n - 1);
      var t := s.(m := s.m.(mem := MemAfter(s.m.mem, es)));
      var at := f as nat * 512 + n - 1;
      ZeroStoreSilent(t, f, at, dir);
      SilentConcat(s.m.mem, dir, es, [StoreWord(at, 0)]);
    }
  }

  lemma ZeroStoreSilent(s: System, f: Frame, at: nat, dir: nat)
    requires SysInv(s) && f in s.m.free && at / 512 == f && dir in s.o.dirs
    ensures SysInv(s.(m := s.m.(mem := Store(s.m.mem, at, 0))))
    ensures Silent(s.m.mem, dir, [StoreWord(at, 0)])
    ensures MemAfter(s.m.mem, [StoreWord(at, 0)]) == Store(s.m.mem, at, 0)
  {
    hide Inv, Translate;
    ZeroStoreLegal(s, f, at);
    ClientStoreMeaning(s, at, 0);
    assert [StoreWord(at, 0)][1..] == [];
  }

  ghost predicate ZeroedPart(mem: seq<word>, mem2: seq<word>, base: nat, n: nat) {
    |mem2| == |mem| &&
    forall b: nat {:trigger Load(mem2, b)} :: b < |mem| ==>
      Load(mem2, b) == if base <= b < base + n then 0 else Load(mem, b)
  }

  lemma ZeroStoreLegal(s: System, f: Frame, at: nat)
    requires SysInv(s) && f in s.m.free && at / 512 == f
    ensures Legal(s, ClientStore(at, 0))
  {
  }

  lemma ZeroedWhole(mem: seq<word>, mem2: seq<word>, base: nat)
    requires ZeroedPart(mem, mem2, base, ENTRIES)
    ensures mem2 == Zeroed(mem, base)
  {
    var z := Zeroed(mem, base);
    forall b: nat | b < |mem|
      ensures mem2[b] == z[b]
    {
      assert Load(mem2, b) == Load(z, b);
    }
  }

  lemma NextTraceIs(m: Machine, o: Owners, u: Slot, i: nat, create: bool)
    requires Inv(m, o) && IsTable(o, u) && |u.path| < 3 && i < ENTRIES
    ensures NextTrace(m, Base(o, u), i, create) ==
            if Child(u, i) in o.tables || !create || m.free == {} then []
            else ZeroStores(Min(m.free) as nat * 512, ENTRIES) + [StoreWord(Base(o, u) + i, LinkEntry(Min(m.free)))]
  {
    hide Inv, ZeroStores;
    FollowLinkOf(m, o, u, i);
    FrameRangeOf(m, o);
    if m.free != {} {
      var f := Min(m.free);
      assert f as nat * 4096 / 8 == f as nat * 512 && f as nat * 4096 / 4096 == f;
    }
  }

  /** The stores of one level of `get_pte` are silent and lead to the memory `NextTable` gives. */
  lemma NextSilent(s: System, u: Slot, i: nat, create: bool, dir: nat)
    requires SysInv(s) && IsTable(s.o, u) && |u.path| < 3 && i < ENTRIES && dir in s.o.dirs
    ensures var es := NextTrace(s.m, Base(s.o, u), i, create);
            Silent(s.m.mem, dir, es) && MemAfter(s.m.mem, es) == NextTable(s.m, Base(s.o, u), i, create).m.mem
  {
    NextTraceIs(s.m, s.o, u, i, create);
    NextStep(s.m, s.o, u, i, create);
    if Child(u, i) !in s.o.tables && create && s.m.free != {} {
      NextIsGrown(s.m, s.o, u, i);
      GrownSilent(s, u, i, dir);
    } else {
      FollowLinkOf(s.m, s.o, u, i);
      hide Inv;
    }
  }

  lemma GrownSilent(s: System, u: Slot, i: nat, dir: nat)
    requires SysInv(s) && dir in s.o.dirs && CanGrow(s.m, s.o, u, i)
    ensures var f := Min(s.m.free);
            var es := ZeroStores(f as nat * 512, ENTRIES) + [StoreWord(Base(s.o, u) + i, LinkEntry(f))];
            Silent(s.m.mem, dir, es) && MemAfter(s.m.mem, es) == Grown(s.m, s.o, u, i).0.mem
  {
    hide Inv, Translate, Grown, Zeroed, Store, ZeroStores;
    var f := Min(s.m.free);
    var zero := ZeroStores(f as nat * 512, ENTRIES);
    ZeroSilent(s, f, ENTRIES, dir);
    ZeroedWhole(s.m.mem, MemAfter(s.m.mem, zero), f as nat * 512);
    GrowKeeps(s.m, s.o, u, i);
    GrownMem(s.m, s.o, u, i);
    SilentLast(s.m.mem, dir, zero, Base(s.o, u) + i, LinkEntry(f));
  }

  lemma GrownMem(m: Machine, o: Owners, u: Slot, i: nat)
    requires CanGrow(m, o, u, i)
    ensures Grown(m, o, u, i).0.mem ==
            Store(Zeroed(m.mem, Min(m.free) as nat * 512), Base(o, u) + i, LinkEntry(Min(m.free)))
  {
  }

  /** Silent stores followed by one store that ends with the same translations. */
  lemma SilentLast(mem: seq<word>, dir: nat, es: seq<Event>, at: nat, value: word)
    requires Silent(mem, dir, es)
    requires SameTranslations(mem, Store(MemAfter(mem, es), at, value), dir)
    ensures Silent(mem, dir, es + [StoreWord(at, value)])
    ensures MemAfter(mem, es + [StoreWord(at, value)]) == Store(MemAfter(mem, es), at, value)
  {
    hide Translate, Store;
    SilentSame(mem, dir, es);
    var z := MemAfter(mem, es);
    forall p: Page
      ensures Translate(Store(z, at, value), dir, p) == Translate(z, dir, p)
    {
      assert Translate(z, dir, p) == Translate(mem, dir, p);
    }
    SilentConcat(mem, dir, es, [StoreWord(at, value)]);
  }

  lemma {:induction false} SilentSame(mem: seq<word>, dir: nat, es: seq<Event>)
    requires Silent(mem, dir, es)
    ensures SameTranslations(mem, MemAfter(mem, es), dir)
    decreases |es|
  {
    if es != [] {
      var mem2 := Store(mem, es[0].at, es[0].value);
      SilentSame(mem2, dir, es[1..]);
      hide Translate;
      forall p: Page
        ensures Translate(MemAfter(mem, es), dir, p) == Translate(mem, dir, p)
      {
        assert Translate(mem2, dir, p) == Translate(mem, dir, p);
      }
    }
  }

  /** However far `get_pte` walks, its stores are silent. */
  lemma {:induction false} WalkSilent(s: System, page: Page, depth: nat, create: bool, dir: nat)
    requires SysInv(s) && dir in s.o.dirs && depth <= 3
    ensures var es := WalkTrace(s.m, page, depth, create);
            Silent(s.m.mem, dir, es) && MemAfter(s.m.mem, es) == WalkTo(s.m, page, depth, create).m.mem
  {
    if depth > 0 {
      WalkSilent(s, page, depth - 1, create, dir);
      WalkStep(s.m, s.o, page, depth - 1, create);
      WalkSilentNext(s, page, depth - 1, create, dir);
    }
  }

  lemma WalkSilentNext(s: System, page: Page, depth: nat, create: bool, dir: nat)
    requires dir in s.o.dirs && depth < 3 && s.m.cur in s.o.dirs
    requires var w, o := WalkTo(s.m, page, depth, create), WalkOwners(s.m, s.o, page, depth, create);
             Inv(w.m, o) && WalkDone(s.m, s.o, page, depth, create, w, o)
    requires var es := WalkTrace(s.m, page, depth, create);
             Silent(s.m.mem, dir, es) && MemAfter(s.m.mem, es) == WalkTo(s.m, page, depth, create).m.mem
    ensures var es := WalkTrace(s.m, page, depth + 1, create);
            Silent(s.m.mem, dir, es) && MemAfter(s.m.mem, es) == WalkTo(s.m, page, depth + 1, create).m.mem
  {
    hide Inv, Translate, Silent, MemAfter, NextTrace, NextTable;
    var w, o := WalkTo(s.m, page, depth, create), WalkOwners(s.m, s.o, page, depth, create);
    var es := WalkTrace(s.m, page, depth, create);
    if w.loc.Some? {
      NextSilent(System(w.m, o), SlotOf(s.m.cur, page, depth), page[depth], create, dir);
      SilentConcat(s.m.mem, dir, es, NextTrace(w.m, w.loc.value, page[depth], create));
    }
  }

  // ----- Interleavings -----

  /** While the processor fills and evicts around silent stores, the cache stays coherent. */
  lemma {:induction false} SilentRun(c: Cpu, es: seq<Event>)
    requires Coherent(c) && Silent(c.mem, c.cr3, Kernel(es))
    ensures var c2 := Exec(c, es);
            Coherent(c2) && c2.mem == MemAfter(c.mem, Kernel(es)) && c2.cr3 == c.cr3
    decreases |es|
  {
    if es != [] {
      KernelStep(es);
      Exec1Coherent(c, es[0]);
      hide Translate;
      SilentRun(Exec1(c, es[0]), es[1..]);
    }
  }

  lemma KernelStep(es: seq<Event>)
    requires es != []
    ensures ByKernel(es[0]) ==> Kernel(es) != [] && Kernel(es)[0] == es[0] && Kernel(es)[1..] == Kernel(es[1..])
    ensures !ByKernel(es[0]) ==> Kernel(es) == Kernel(es[1..])
  {
  }

  lemma Exec1Coherent(c: Cpu, e: Event)
    requires Coherent(c)
    requires e.StoreWord? ==> SameTranslations(c.mem, Store(c.mem, e.at, e.value), c.cr3)
    ensures Coherent(Exec1(c, e))
  {
  }

  /** Between an entry write and its invalidation only the written page can be stale. */
  lemma {:induction false} InvalidateRun(c: Cpu, es: seq<Event>, virt: word)
    requires CoherentExcept(c, PageOf(virt)) && (Canonical(virt) || Coherent(c))
    requires Kernel(es) == [Invlpg(virt)]
    ensures var c2 := Exec(c, es); Coherent(c2) && c2.mem == c.mem && c2.cr3 == c.cr3
    decreases |es|
  {
    hide Translate, PageOf, Canonical;
    KernelStep(es);
    if ByKernel(es[0]) {
      SilentRun(Exec1(c, es[0]), es[1..]);
    } else {
      if Coherent(c) {
        Exec1Coherent(c, es[0]);
      }
      InvalidateRun(Exec1(c, es[0]), es[1..], virt);
    }
  }

  /** Storing `value` at `at` changes the translation of one page to `r`, under directory `dir`. */
  ghost predicate Edits(mem: seq<word>, dir: nat, at: nat, value: word, page: Page, r: Option<word>) {
    var mem2 := Store(mem, at, value);
    && (forall p: Page :: p != page ==> Translate(mem2, dir, p) == Translate(mem, dir, p))
    && Translate(mem2, dir, page) == r
  }

  /** The stale entry cannot survive: the address is canonical, or there was nothing else to cache. */
  ghost predicate SafeEdit(virt: word, before: Option<word>, r: Option<word>) {
    Canonical(virt) || before == None || before == r
  }

  lemma EditStep(c: Cpu, at: nat, value: word, virt: word, r: Option<word>)
    requires Coherent(c) && Edits(c.mem, c.cr3, at, value, PageOf(virt), r)
    requires SafeEdit(virt, Translate(c.mem, c.cr3, PageOf(virt)), r)
    ensures var c2 := Exec1(c, StoreWord(at, value));
            CoherentExcept(c2, PageOf(virt)) && (Canonical(virt) || Coherent(c2))
  {
  }

  /**
   Silent stores, one entry write and its invalidation, with any fills and evictions in between:
   a safe edit leaves the cache coherent.
   */
  lemma {:induction false} EditRun(c: Cpu, pre: seq<Event>, at: nat, value: word, virt: word,
                                   r: Option<word>, es: seq<Event>)
    requires Coherent(c) && Silent(c.mem, c.cr3, pre) && Kernel(es) == pre + EditTrace(at, value, virt)
    requires Edits(MemAfter(c.mem, pre), c.cr3, at, value, PageOf(virt), r)
    requires SafeEdit(virt, Translate(c.mem, c.cr3, PageOf(virt)), r)
    ensures var c2 := Exec(c, es);
            Coherent(c2) && c2.cr3 == c.cr3 && c2.mem == Store(MemAfter(c.mem, pre), at, value)
    decreases |es|
  {
    hide Translate, PageOf, Canonical, Edits;
    KernelStep(es);
    var e, rest := es[0], es[1..];
    if !ByKernel(e) {
      Exec1Coherent(c, e);
      EditRun(Exec1(c, e), pre, at, value, virt, r, rest);
    } else if pre == [] {
      assert Kernel(es) == EditTrace(at, value, virt);
      EditStep(c, at, value, virt, r);
      InvalidateRun(Exec1(c, e), rest, virt);
    } else {
      assert Kernel(rest) == pre[1..] + EditTrace(at, value, virt);
      assert SameTranslations(c.mem, Store(c.mem, e.at, e.value), c.cr3);
      Exec1Coherent(c, e);
      EditRun(Exec1(c, e), pre[1..], at, value, virt, r, rest);
    }
  }

  lemma {:induction false} ExecConcat(c: Cpu, a: seq<Event>, b: seq<Event>)
    ensures Exec(c, a + b) == Exec(Exec(c, a), b)
    decreases |a|
  {
    if a == [] {
      assert a + b == b;
    } else {
      assert (a + b)[1..] == a[1..] + b;
      ExecConcat(Exec1(c, a[0]), a[1..], b);
    }
  }

  lemma {:induction false} StoresOnly(c: Cpu, es: seq<Event>)
    requires Silent(c.mem, c.cr3, es)
    ensures Exec(c, es) == c.(mem := MemAfter(c.mem, es)) && Kernel(es) == es
    decreases |es|
  {
    if es != [] {
      StoresOnly(Exec1(c, es[0]), es[1..]);
    }
  }

  lemma ExecEdit(c: Cpu, at: nat, value: word, virt: word)
    ensures var edit := EditTrace(at, value, virt);
            Kernel(edit) == edit && Exec(c, edit) == Exec1(Exec1(c, StoreWord(at, value)), Invlpg(virt))
  {
    hide Translate, Store, PageOf, Canonical;
    var edit := EditTrace(at, value, virt);
    assert edit[1..] == [Invlpg(virt)];
    assert edit[1..][1..] == [];
    assert Kernel([Invlpg(virt)]) == [Invlpg(virt)];
    assert Exec(Exec1(c, StoreWord(at, value)), [Invlpg(virt)]) == Exec1(Exec1(c, StoreWord(at, value)), Invlpg(virt));
  }

  /** With an unsafe edit a processor that had cached the page ends up with a stale entry. */
  lemma UnsafeEdit(mem: seq<word>, dir: nat, pre: seq<Event>, at: nat, value: word, virt: word, r: Option<word>)
    returns (c: Cpu)
    requires Silent(mem, dir, pre) && Edits(MemAfter(mem, pre), dir, at, value, PageOf(virt), r)
    requires !SafeEdit(virt, Translate(mem, dir, PageOf(virt)), r)
    ensures c.mem == mem && c.cr3 == dir && Coherent(c)
    ensures var es := pre + EditTrace(at, value, virt); Kernel(es) == es && !Coherent(Exec(c, es))
  {
    hide PageOf, Canonical;
    hide Kernel, Exec;
    var page := PageOf(virt);
    c := Cpu(mem, dir, map[page := Translate(mem, dir, page).value]);
    var edit := EditTrace(at, value, virt);
    StoresOnly(c, pre);
    ExecConcat(c, pre, edit);
    KernelConcat(pre, edit);
    ExecEdit(Exec(c, pre), at, value, virt);
    assert page in Exec(c, pre + edit).tlb;
  }

  lemma {:induction false} KernelConcat(a: seq<Event>, b: seq<Event>)
    ensures Kernel(a + b) == Kernel(a) + Kernel(b)
  {
    hide ByKernel;
    if a == [] {
      assert a + b == b;
    } else {
      var first := if ByKernel(a[0]) then [a[0]] else [];
      assert (a + b)[1..] == a[1..] + b;
      KernelConcat(a[1..], b);
      assert (first + Kernel(a[1..])) + Kernel(b) == first + (Kernel(a[1..]) + Kernel(b));
    }
  }

  // ----- Operations -----

  /** The processor runs on the system's memory, with one of its directories loaded. */
  ghost predicate Watching(s: System, c: Cpu) {
    c.mem == s.m.mem && c.cr3 in s.o.dirs && Coherent(c)
  }

  /** The addresses in a call are ones the processor takes as they are: canonical, or page-aligned. */
  predicate ProperOp(op: Op) {
    match op
    case Map(_, virt, _) => Canonical(virt)
    case Unmap(virt) => Canonical(virt)
    case Switch(dir) => dir % ENTRIES == 0
    case _ => true
  }

  /** What an entry write under the current directory does to the page under the loaded one. */
  ghost function NewMeaning(s: System, dir: nat, page: Page, value: word): Option<word> {
    if dir == s.m.cur then EntryMeaning(value) else Translate(s.m.mem, dir, page)
  }

  lemma OnePageEdits(m: Machine, dirs: set<nat>, cur: nat, page: Page, at: nat, value: word, dir: nat)
    requires OnePage(m, m.(mem := Store(m.mem, at, value)), dirs, cur, page, EntryMeaning(value)) && dir in dirs
    ensures Edits(m.mem, dir, at, value, page, if dir == cur then EntryMeaning(value) else Translate(m.mem, dir, page))
  {
  }

  lemma EditsFrom(s: System, dir: nat, page: Page, value: word, w: Walked, o: Owners, create: bool)
    requires SysInv(s) && dir in s.o.dirs
    requires Inv(w.m, o) && WalkDone(s.m, s.o, page, 3, create, w, o) && w.loc.Some?
    ensures Edits(w.m.mem, dir, w.loc.value + page[3], value, page, NewMeaning(s, dir, page, value))
  {
    hide Inv, Translate, Missing, Edits, OnePage;
    assert |SlotOf(s.m.cur, page, 3).path| == 3;
    assert Translate(w.m.mem, dir, page) == Translate(s.m.mem, dir, page);
    LeafStore(w.m, o, s.m.cur, page, value);
    OnePageEdits(w.m, o.dirs, s.m.cur, page, w.loc.value + page[3], value, dir);
  }

  /** The entry write of a map call, once the tables are there. */
  lemma MapEdits(s: System, page: Page, entry: word, dir: nat)
    requires SysInv(s) && dir in s.o.dirs
    ensures var w := WalkTo(s.m, page, 3, true);
            && (w.loc.Some? <==> Missing(s.o, s.m.cur, page, 3) <= |s.m.free|)
            && (w.loc.Some? ==>
                  Edits(w.m.mem, dir, w.loc.value + page[3], entry, page, NewMeaning(s, dir, page, entry)))
  {
    hide Inv, Translate, Missing, WalkTo, WalkOwners, Edits, NewMeaning, SameMeaning;
    WalkStep(s.m, s.o, page, 3, true);
    var w, o := WalkTo(s.m, page, 3, true), WalkOwners(s.m, s.o, page, 3, true);
    if w.loc.Some? {
      EditsFrom(s, dir, page, entry, w, o, true);
    }
  }

  /** A map call: silent stores that link tables, then possibly one entry write and its invalidation. */
  ghost predicate MapPlan(s: System, phys: word, virt: word, flags: word, dir: nat, pre: seq<Event>, loc: Option<nat>) {
    var page, entry, t := PageOf(virt), LeafEntry(phys, flags), Step(s, Map(phys, virt, flags));
    && Silent(s.m.mem, dir, pre) && (loc.Some? <==> Succeeds(s, Map(phys, virt, flags)))
    && MapTrace(s.m, phys, virt, flags) == pre + (if loc.None? then [] else EditTrace(loc.value + page[3], entry, virt))
    && (loc.None? ==> t.m.mem == MemAfter(s.m.mem, pre))
    && (loc.Some? ==>
         && t.m.mem == Store(MemAfter(s.m.mem, pre), loc.value + page[3], entry)
         && Edits(MemAfter(s.m.mem, pre), dir, loc.value + page[3], entry, page, NewMeaning(s, dir, page, entry)))
  }

  lemma MapPlanned(s: System, phys: word, virt: word, flags: word, dir: nat)
    requires SysInv(s) && dir in s.o.dirs
    ensures MapPlan(s, phys, virt, flags, dir,
                    WalkTrace(s.m, PageOf(virt), 3, true), WalkTo(s.m, PageOf(virt), 3, true).loc)
  {
    hide Inv, Translate, Missing, PageOf, WalkTrace, WalkTo, WalkOwners;
    hide LeafEntry, Silent, MemAfter, Edits, NewMeaning, Store;
    WalkSilent(s, PageOf(virt), 3, true, dir);
    MapEdits(s, PageOf(virt), LeafEntry(phys, flags), dir);
  }

  lemma MapCoherent(s: System, phys: word, virt: word, flags: word, c: Cpu, es: seq<Event>)
    requires SysInv(s) && Watching(s, c) && Kernel(es) == MapTrace(s.m, phys, virt, flags)
    requires var page := PageOf(virt);
             !Succeeds(s, Map(phys, virt, flags)) ||
             SafeEdit(virt, Translate(c.mem, c.cr3, page), NewMeaning(s, c.cr3, page, LeafEntry(phys, flags)))
    ensures var c2, t := Exec(c, es), Step(s, Map(phys, virt, flags));
            Coherent(c2) && c2.cr3 == c.cr3 && c2.mem == t.m.mem
  {
    hide Inv, Translate, Succeeds, PageOf, WalkTrace, WalkTo, LeafEntry, Silent, Edits;
    hide Step, MapTrace, Exec, Kernel, EditTrace, Store, MemAfter, NewMeaning, Coherent, SafeEdit;
    MapPlanned(s, phys, virt, flags, c.cr3);
    var page, entry := PageOf(virt), LeafEntry(phys, flags);
    var pre, loc := WalkTrace(s.m, page, 3, true), WalkTo(s.m, page, 3, true).loc;
    if loc.None? {
      assert pre + [] == pre;
      SilentRun(c, es);
    } else {
      EditRun(c, pre, loc.value + page[3], entry, virt, NewMeaning(s, c.cr3, page, entry), es);
    }
  }

  lemma UnmapPlan(s: System, virt: word, dir: nat)
    requires SysInv(s) && dir in s.o.dirs
    ensures var page, t := PageOf(virt), Step(s, Unmap(virt));
            var loc := WalkTo(s.m, page, 3, false).loc;
            if Translate(s.m.mem, s.m.cur, page) == None
            then UnmapTrace(s.m, virt) == [] && t == s
            else
              && loc.Some? && UnmapTrace(s.m, virt) == EditTrace(loc.value + page[3], 0, virt)
              && t.m.mem == Store(s.m.mem, loc.value + page[3], 0)
              && Edits(s.m.mem, dir, loc.value + page[3], 0, page, NewMeaning(s, dir, page, 0))
  {
    hide Inv, Translate, Missing, PageOf, WalkTo, WalkOwners, Edits, NewMeaning, OthersKept;
    var page := PageOf(virt);
    UnmapEdits(s, page, dir);
    UnmapMeaning(s, page);
  }

  lemma UnmapEdits(s: System, page: Page, dir: nat)
    requires SysInv(s) && dir in s.o.dirs
    ensures var w := WalkTo(s.m, page, 3, false);
            w.loc.Some? ==> Edits(s.m.mem, dir, w.loc.value + page[3], 0, page, NewMeaning(s, dir, page, 0))
  {
    hide Inv, Translate, Missing, WalkTo, WalkOwners, Edits, NewMeaning, SameMeaning;
    WalkStep(s.m, s.o, page, 3, false);
    var w := WalkTo(s.m, page, 3, false);
    if w.loc.Some? {
      EditsFrom(s, dir, page, 0, w, s.o, false);
    }
  }

  lemma UnmapCoherent(s: System, virt: word, c: Cpu, es: seq<Event>)
    requires SysInv(s) && Watching(s, c) && Kernel(es) == UnmapTrace(s.m, virt)
    requires SafeEdit(virt, Translate(c.mem, c.cr3, PageOf(virt)), NewMeaning(s, c.cr3, PageOf(virt), 0))
    ensures var c2, t := Exec(c, es), Step(s, Unmap(virt));
            Coherent(c2) && c2.cr3 == c.cr3 && c2.mem == t.m.mem
  {
    hide Inv, Translate, PageOf, WalkTo, Edits, Step, UnmapTrace;
    UnmapPlan(s, virt, c.cr3);
    var page, loc := PageOf(virt), WalkTo(s.m, PageOf(virt), 3, false).loc;
    if Translate(s.m.mem, s.m.cur, page) == None {
      SilentRun(c, es);
    } else {
      assert [] + EditTrace(loc.value + page[3], 0, virt) == EditTrace(loc.value + page[3], 0, virt);
      EditRun(c, [], loc.value + page[3], 0, virt, NewMeaning(s, c.cr3, page, 0), es);
    }
  }

  /** Loading cr3 empties the cache, whatever was in it, and the cache is then filled from the new directory. */
  lemma {:induction false} SwitchRun(c: Cpu, dir: nat, es: seq<Event>)
    requires Kernel(es) == [LoadCr3(dir)]
    ensures var c2 := Exec(c, es); Coherent(c2) && c2.mem == c.mem && c2.cr3 == RootOf(dir)
    decreases |es|
  {
    hide Translate;
    KernelStep(es);
    if ByKernel(es[0]) {
      SilentRun(Exec1(c, es[0]), es[1..]);
    } else {
      SwitchRun(Exec1(c, es[0]), dir, es[1..]);
    }
  }

  lemma RootOfAligned(dir: nat)
    ensures RootOf(dir) == dir <==> dir % ENTRIES == 0
    ensures RootOf(dir) <= dir < RootOf(dir) + ENTRIES
  {
  }

  /**
   A switch makes the processor walk the current directory exactly when that directory is aligned
   to a page, whatever it walked and cached before. Otherwise it walks from words that belong to no
   directory of the system.
   */
  lemma SwitchSeenExactly(s: System, dir: nat, c: Cpu, es: seq<Event>)
    requires SysInv(s) && dir in s.o.dirs && c.mem == s.m.mem && Kernel(es) == OpTrace(s, Switch(dir))
    ensures var c2, t := Exec(c, es), Step(s, Switch(dir));
            && (c2.cr3 == t.m.cur <==> dir % ENTRIES == 0)
            && (Watching(t, c2) <==> dir % ENTRIES == 0)
  {
    hide Translate, RolesOk, TablesOk, LinksOk, RootOf;
    SwitchRun(c, dir, es);
    RootOfAligned(dir);
  }

  /** The page whose top-level index is lower by `k`. */
  function Lowered(page: Page, k: nat): Page
    requires k <= page[0]
  {
    [page[0] - k, page[1], page[2], page[3]]
  }

  /**
   What the processor finds when the directory lies `k` words above a page boundary: at every page
   whose top-level index is at least `k`, the translation that the directory gives `k` indices lower.
   */
  lemma UnalignedSees(mem: seq<word>, dir: nat, page: Page)
    requires dir % ENTRIES <= page[0]
    ensures Translate(mem, RootOf(dir), page) == Translate(mem, dir, Lowered(page, dir % ENTRIES))
  {
    var root, low := RootOf(dir), Lowered(page, dir % ENTRIES);
    assert root + page[0] == dir + low[0];
    assert TableAt(mem, root, page, 0) == Some(root) && TableAt(mem, dir, low, 0) == Some(dir);
    assert TableAt(mem, root, page, 1) == TableAt(mem, dir, low, 1);
    assert TableAt(mem, root, page, 2) == TableAt(mem, dir, low, 2);
  }

  /**
   With the kernel directory off a page boundary, the first map call after boot succeeds and
   `get_pte` finds the page, but the processor finds none: at indices that fall into the directory
   because it reads another entry, at lower ones because it reads a word below, if that is not present.
   */
  lemma UnalignedNotSeen(s: System, phys: word, virt: word, flags: word)
    requires Boot(s) && s.m.cur % ENTRIES != 0
    requires var page, root := PageOf(virt), RootOf(s.m.cur);
             page[0] < s.m.cur % ENTRIES ==> !Present(Load(s.m.mem, root + page[0]))
    ensures var page, (t, ok) := PageOf(virt), MapStep(s, phys, PageOf(virt), flags);
            && ok && Translate(t.m.mem, s.m.cur, page) == Some(LeafEntry(phys, flags))
            && Translate(t.m.mem, Exec1(Cpu(t.m.mem, 0, map[]), LoadCr3(s.m.cur)).cr3, page) == None
  {
    hide Inv, MapStep, Missing, Translate, LeafEntry, PageOf, Present;
    BootMaps(s, phys, virt, flags);
    var page, root, k := PageOf(virt), RootOf(s.m.cur), s.m.cur % ENTRIES;
    var t := MapStep(s, phys, page, flags).0;
    RootOfAligned(s.m.cur);
    if page[0] < k {
      assert (root + page[0]) / 512 < FIRST_POOL_FRAME;
      MapKeepsWord(s, phys, page, flags, root + page[0]);
      RootAbsent(t.m.mem, root, page);
    } else {
      UnalignedSees(t.m.mem, s.m.cur, page);
      BootMapsOne(s, phys, virt, flags, Lowered(page, k));
    }
  }

  lemma RootAbsent(mem: seq<word>, root: nat, page: Page)
    requires !Present(Load(mem, root + page[0]))
    ensures Translate(mem, root, page) == None
  {
    assert TableAt(mem, root, page, 0) == Some(root);
    assert TableAt(mem, root, page, 1) == None;
    assert TableAt(mem, root, page, 2) == None;
  }

  /**
   Coherence: whatever the processor caches or drops between the kernel's events of one complete
   operation on proper addresses, every cached translation afterwards is current. A switch needs
   nothing of the processor before it but that it runs on the system's memory.
   */
  lemma OpCoherent(s: System, op: Op, c: Cpu, es: seq<Event>)
    requires SysInv(s) && Legal(s, op) && ProperOp(op) && Kernel(es) == OpTrace(s, op)
    requires if op.Switch? then c.mem == s.m.mem else Watching(s, c)
    ensures Watching(Step(s, op), Exec(c, es))
    ensures Exec(c, es).cr3 == if op.Switch? then op.dir else c.cr3
  {
    hide Inv, Translate, PageOf, MapTrace, UnmapTrace, Canonical, WalkTo, WalkOwners;
    match op
    case Map(phys, virt, flags) =>
      MapMeaning(s, phys, PageOf(virt), flags);
      MapCoherent(s, phys, virt, flags, c, es);
    case Unmap(virt) =>
      UnmapMeaning(s, PageOf(virt));
      UnmapCoherent(s, virt, c, es);
    case Switch(dir) =>
      SwitchRun(c, dir, es);
      RootOfAligned(dir);
    case ClientStore(at, value) =>
      ClientStoreMeaning(s, at, value);
      assert Silent(c.mem, c.cr3, [StoreWord(at, value)]);
      SilentRun(c, es);
    case _ => SilentRun(c, es);
  }

  /** The events of a whole run: one sequence for each operation. */
  ghost function ExecRun(c: Cpu, ess: seq<seq<Event>>): Cpu
    decreases |ess|
  {
    if ess == [] then c else ExecRun(Exec(c, ess[0]), ess[1..])
  }

  ghost predicate EventsOf(s: System, ops: seq<Op>, ess: seq<seq<Event>>)
    decreases |ops|
  {
    |ess| == |ops| &&
    (ops == [] || (Kernel(ess[0]) == OpTrace(s, ops[0]) && EventsOf(Step(s, ops[0]), ops[1..], ess[1..])))
  }

  lemma WatchingMemory(s: System, c: Cpu)
    requires Watching(s, c)
    ensures c.mem == s.m.mem
  {
  }

  /** Coherence holds after every complete operation of every run on proper addresses. */
  lemma {:induction false} RunCoherent(s: System, ops: seq<Op>, c: Cpu, ess: seq<seq<Event>>)
    requires SysInv(s) && LegalRun(s, ops) && EventsOf(s, ops, ess) && Watching(s, c)
    requires forall k :: 0 <= k < |ops| ==> ProperOp(ops[k])
    ensures Watching(Run(s, ops), ExecRun(c, ess))
    decreases |ops|
  {
    hide SysInv, Legal, Step, Watching, ProperOp, OpTrace, Exec, Kernel;
    if ops != [] {
      assert ProperOp(ops[0]);
      StepInv(s, ops[0]);
      assert c.mem == s.m.mem by { WatchingMemory(s, c); }
      OpCoherent(s, ops[0], c, ess[0]);
      RunCoherent(Step(s, ops[0]), ops[1..], Exec(c, ess[0]), ess[1..]);
    }
  }

  // ----- From boot on -----

  lemma {:induction false} MemAfterConcat(mem: seq<word>, a: seq<Event>, b: seq<Event>)
    ensures MemAfter(mem, a + b) == MemAfter(MemAfter(mem, a), b)
    decreases |a|
  {
    hide Store;
    if a == [] {
      assert a + b == b;
    } else {
      assert (a + b)[1..] == a[1..] + b;
      MemAfterConcat(if a[0].StoreWord? then Store(mem, a[0].at, a[0].value) else mem, a[1..], b);
    }
  }

  /** Fills, evictions and invalidations leave memory alone. */
  lemma {:induction false} ExecMemory(c: Cpu, es: seq<Event>)
    ensures Exec(c, es).mem == MemAfter(c.mem, Kernel(es))
    decreases |es|
  {
    hide Translate, PageOf, Canonical, RootOf, Store;
    if es != [] {
      KernelStep(es);
      ExecMemory(Exec1(c, es[0]), es[1..]);
    }
  }

  lemma EditMemory(mem: seq<word>, at: nat, value: word, virt: word)
    ensures MemAfter(mem, EditTrace(at, value, virt)) == Store(mem, at, value)
  {
    hide Store;
    var edit := EditTrace(at, value, virt);
    assert edit[1..] == [Invlpg(virt)] && edit[1..][1..] == [];
    assert MemAfter(Store(mem, at, value), edit[1..]) == Store(mem, at, value);
  }

  lemma MapMemory(s: System, phys: word, virt: word, flags: word)
    requires SysInv(s)
    ensures MemAfter(s.m.mem, MapTrace(s.m, phys, virt, flags)) == Step(s, Map(phys, virt, flags)).m.mem
  {
    hide Inv, Translate, Succeeds, PageOf, WalkTrace, WalkTo, LeafEntry, Silent, Edits;
    hide Step, MapTrace, EditTrace, Store, MemAfter, NewMeaning;
    MapPlanned(s, phys, virt, flags, s.m.cur);
    var page, entry := PageOf(virt), LeafEntry(phys, flags);
    var pre, loc := WalkTrace(s.m, page, 3, true), WalkTo(s.m, page, 3, true).loc;
    if loc.None? {
      assert pre + [] == pre;
    } else {
      MemAfterConcat(s.m.mem, pre, EditTrace(loc.value + page[3], entry, virt));
      EditMemory(MemAfter(s.m.mem, pre), loc.value + page[3], entry, virt);
    }
  }

  lemma UnmapMemory(s: System, virt: word)
    requires SysInv(s)
    ensures MemAfter(s.m.mem, UnmapTrace(s.m, virt)) == Step(s, Unmap(virt)).m.mem
  {
    hide Inv, Translate, PageOf, WalkTo, Edits, Step, UnmapTrace, EditTrace, Store, NewMeaning;
    UnmapPlan(s, virt, s.m.cur);
    var page, loc := PageOf(virt), WalkTo(s.m, PageOf(virt), 3, false).loc;
    if Translate(s.m.mem, s.m.cur, page) != None {
      EditMemory(s.m.mem, loc.value + page[3], 0, virt);
    }
  }

  /** The stores that an operation makes, in program order, are all that it does to memory. */
  lemma TraceMemory(s: System, op: Op)
    requires SysInv(s) && Legal(s, op)
    ensures MemAfter(s.m.mem, OpTrace(s, op)) == Step(s, op).m.mem
  {
    hide Inv, MapTrace, UnmapTrace, MapStep, UnmapStep, PageOf, Store;
    match op
    case Map(phys, virt, flags) => MapMemory(s, phys, virt, flags);
    case Unmap(virt) => UnmapMemory(s, virt);
    case Switch(dir) => assert [LoadCr3(dir)][1..] == [];
    case ClientStore(at, value) => assert [StoreWord(at, value)][1..] == [];
    case _ =>
  }

  /**
   Coherence is reached, not assumed: whatever the processor walked and cached before, after a run
   with a switch to a page-aligned directory, and only proper addresses from there on, it walks a
   directory of the system and every cached translation is current.
   */
  lemma {:induction false} CoherentSinceSwitch(s: System, ops: seq<Op>, k: nat, c: Cpu, ess: seq<seq<Event>>)
    requires SysInv(s) && LegalRun(s, ops) && EventsOf(s, ops, ess) && c.mem == s.m.mem
    requires k < |ops| && ops[k].Switch? && forall j :: k <= j < |ops| ==> ProperOp(ops[j])
    ensures Watching(Run(s, ops), ExecRun(c, ess))
    decreases k
  {
    hide SysInv, Legal, Step, Watching, ProperOp, OpTrace, Exec, Kernel, MemAfter;
    var t, c1 := Step(s, ops[0]), Exec(c, ess[0]);
    StepInv(s, ops[0]);
    if k == 0 {
      OpCoherent(s, ops[0], c, ess[0]);
      RunCoherent(t, ops[1..], c1, ess[1..]);
    } else {
      TraceMemory(s, ops[0]);
      ExecMemory(c, ess[0]);
      CoherentSinceSwitch(t, ops[1..], k - 1, c1, ess[1..]);
    }
  }

  /**
   From boot, whatever tables the processor walks and whatever it has cached by then: after such a
   run every cached translation is the one that the abstract run's maps give.
   */
  lemma BootCoherent(s: System, ops: seq<Op>, k: nat, c: Cpu, ess: seq<seq<Event>>)
    requires Boot(s) && LegalRun(s, ops) && EventsOf(s, ops, ess) && c.mem == s.m.mem
    requires k < |ops| && ops[k].Switch? && forall j :: k <= j < |ops| ==> ProperOp(ops[j])
    ensures var a, c2 := AbstractRun(Fresh(s.m.cur), ops), ExecRun(c, ess);
            Watching(Run(s, ops), c2) && forall p :: p in c2.tlb ==> Lookup(a, c2.cr3, p) == Some(c2.tlb[p])
  {
    hide *;
    BootInv(s);
    CoherentSinceSwitch(s, ops, k, c, ess);
    BootRunRefines(s, ops);
    CachedIsMapped(Run(s, ops), AbstractRun(Fresh(s.m.cur), ops), ExecRun(c, ess));
  }

  lemma CachedIsMapped(s: System, a: Spaces, c: Cpu)
    requires Represents(s, a) && Watching(s, c)
    ensures forall p :: p in c.tlb ==> Lookup(a, c.cr3, p) == Some(c.tlb[p])
  {
    hide Translate, Lookup;
  }

  // ----- Exactly when one call is coherent -----

  /**
   Exactly when a map call on the loaded directory keeps every possible cache coherent: it fails,
   the address is canonical, or the page had no translation or already had the new one.
   */
  lemma MapCoherentExactly(s: System, phys: word, virt: word, flags: word)
    requires SysInv(s)
    ensures var before := Translate(s.m.mem, s.m.cur, PageOf(virt));
            (forall c, es :: Watching(s, c) && c.cr3 == s.m.cur && Kernel(es) == MapTrace(s.m, phys, virt, flags) ==>
               Coherent(Exec(c, es)))
            <==> (!Succeeds(s, Map(phys, virt, flags)) || Canonical(virt)
                  || before == None || before == Some(LeafEntry(phys, flags)))
  {
    hide Inv, Translate, PageOf, Canonical, LeafEntry, Coherent, Succeeds, MapTrace;
    var page, entry := PageOf(virt), LeafEntry(phys, flags);
    var before := Translate(s.m.mem, s.m.cur, page);
    if !Succeeds(s, Map(phys, virt, flags)) || SafeEdit(virt, before, Some(entry)) {
      forall c, es | Watching(s, c) && c.cr3 == s.m.cur && Kernel(es) == MapTrace(s.m, phys, virt, flags)
        ensures Coherent(Exec(c, es))
      {
        MapCoherent(s, phys, virt, flags, c, es);
      }
    } else {
      MapPlanned(s, phys, virt, flags, s.m.cur);
      var pre, loc := WalkTrace(s.m, page, 3, true), WalkTo(s.m, page, 3, true).loc;
      var c := UnsafeEdit(s.m.mem, s.m.cur, pre, loc.value + page[3], entry, virt, Some(entry));
      assert Watching(s, c) && Kernel(MapTrace(s.m, phys, virt, flags)) == MapTrace(s.m, phys, virt, flags);
    }
  }

  /** The same for unmapping: only a mapped page behind a non-canonical address can go stale. */
  lemma UnmapCoherentExactly(s: System, virt: word)
    requires SysInv(s)
    ensures (forall c, es :: Watching(s, c) && c.cr3 == s.m.cur && Kernel(es) == UnmapTrace(s.m, virt) ==>
               Coherent(Exec(c, es)))
            <==> (Canonical(virt) || Translate(s.m.mem, s.m.cur, PageOf(virt)) == None)
  {
    hide Inv, Translate, PageOf, Canonical, Coherent, UnmapTrace;
    var page := PageOf(virt);
    var before := Translate(s.m.mem, s.m.cur, page);
    if SafeEdit(virt, before, None) {
      forall c, es | Watching(s, c) && c.cr3 == s.m.cur && Kernel(es) == UnmapTrace(s.m, virt)
        ensures Coherent(Exec(c, es))
      {
        UnmapCoherent(s, virt, c, es);
      }
    } else {
      UnmapPlan(s, virt, s.m.cur);
      var loc := WalkTo(s.m, page, 3, false).loc;
      var c := UnsafeEdit(s.m.mem, s.m.cur, [], loc.value + page[3], 0, virt, None);
      assert [] + EditTrace(loc.value + page[3], 0, virt) == UnmapTrace(s.m, virt);
      assert Watching(s, c) && Kernel(UnmapTrace(s.m, virt)) == UnmapTrace(s.m, virt);
    }
  }

  /** Unmapping page 0 through the non-canonical address 2^48 can leave its translation cached. */
  lemma NonCanonicalGoesStale(s: System)
    requires SysInv(s) && Translate(s.m.mem, s.m.cur, PageOf(0)).Some?
    ensures exists c, es :: Watching(s, c) && c.cr3 == s.m.cur
                            && Kernel(es) == UnmapTrace(s.m, 0x1_0000_0000_0000) && !Coherent(Exec(c, es))
  {
    hide Inv, Translate, Coherent, UnmapTrace, Exec, Kernel, Watching;
    assert PageOf(0x1_0000_0000_0000) == PageOf(0) && !Canonical(0x1_0000_0000_0000);
    UnmapCoherentExactly(s, 0x1_0000_0000_0000);
  }

  /** That happens: after boot and one map call at address 0, such a call does leave a stale translation. */
  lemma StaleAfterBoot(s: System, phys: word, flags: word)
    requires Boot(s)
    ensures var t := Run(s, [Map(phys, 0, flags)]);
            exists c, es :: Watching(t, c) && c.cr3 == t.m.cur
                            && Kernel(es) == UnmapTrace(t.m, 0x1_0000_0000_0000) && !Coherent(Exec(c, es))
  {
    hide Boot, SysInv, MapStep, Translate, Watching, Coherent, UnmapTrace, Exec, Kernel;
    var op := Map(phys, 0, flags);
    assert Run(s, [op]) == Run(Step(s, op), []) == Step(s, op);
    BootMaps(s, phys, 0, flags);
    NonCanonicalGoesStale(Step(s, op));
  }
}
