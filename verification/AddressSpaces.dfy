/**
 The paging interface as a state machine, and the plain partial maps that it implements.

 A `System` is the machine together with the role of every frame. An `Op` is one call of the
 paging interface, or something a client does between calls: preparing a zeroed directory, or
 storing to memory that belongs to neither a table nor a directory.
 */
module AddressSpaces {
  import opened Bits
  import opened Options
  import opened PageTables
  import opened PageOps

  datatype System = System(m: Machine, o: Owners)

  ghost predicate SysInv(s: System) {
    Inv(s.m, s.o) && s.m.cur in s.o.dirs
  }

  datatype Op =
    | Alloc
    | Free(phys: word)
    | Map(phys: word, virt: word, flags: word)
    | Unmap(virt: word)
    | Switch(dir: nat)
    | NewDirectory(base: nat)
    | ClientStore(at: nat, value: word)

  // ----- The operations -----

  /** `mm_alloc_page`, the frame going to the client. */
  ghost function AllocStep(s: System): (System, word) {
    var (m, phys) := AllocPage(s.m);
    if phys == 0 then (s.(m := m), 0)
    else (System(m, s.o.(held := s.o.held + {Min(s.m.free)})), phys)
  }

  /** `mm_free_page` of a frame. */
  ghost function FreeStep(s: System, f: Frame): System {
    System(s.m.(free := s.m.free + {f}), s.o.(held := s.o.held - {f}))
  }

  /** The entry write of `mm_map_page` once `get_pte` has returned. */
  ghost function MapAt(w: Walked, o: Owners, page: Page, entry: word): (System, bool) {
    if w.loc.None? then (System(w.m, o), false)
    else (System(w.m.(mem := Store(w.m.mem, w.loc.value + page[3], entry)), o), true)
  }

  /** `mm_map_page`, and whether it found or made the last-level table. */
  ghost function MapStep(s: System, phys: word, page: Page, flags: word): (System, bool) {
    MapAt(WalkTo(s.m, page, 3, true), WalkOwners(s.m, s.o, page, 3, true), page, LeafEntry(phys, flags))
  }

  ghost function UnmapAt(s: System, loc: Option<nat>, page: Page): (System, Option<word>) {
    if loc.None? || !Present(Load(s.m.mem, loc.value + page[3])) then (s, None)
    else
      var entry := Load(s.m.mem, loc.value + page[3]);
      (s.(m := s.m.(mem := Store(s.m.mem, loc.value + page[3], 0))), Some(entry - entry % 4096))
  }

  /** `mm_unmap_page`, and the physical address that was stored. */
  ghost function UnmapStep(s: System, page: Page): (System, Option<word>) {
    UnmapAt(s, WalkTo(s.m, page, 3, false).loc, page)
  }

  predicate InDirectory(o: Owners, at: nat) {
    exists d :: d in o.dirs && d <= at < d + ENTRIES
  }

  ghost predicate Legal(s: System, op: Op) {
    match op
    case Alloc => true
    case Free(phys) => phys / 4096 < FRAMES && phys / 4096 in s.o.held
    case Map(_, _, _) => true
    case Unmap(_) => true
    case Switch(dir) => dir in s.o.dirs
    case NewDirectory(base) =>
      && base + ENTRIES <= WORDS
      && (forall at :: base <= at < base + ENTRIES ==> Load(s.m.mem, at) == 0)
      && (forall d :: d in s.o.dirs ==> d + ENTRIES <= base || base + ENTRIES <= d)
      && ClientFrame(s.o, base / 512) && ClientFrame(s.o, (base + 511) / 512)
    case ClientStore(at, _) =>
      at < WORDS && !InDirectory(s.o, at) && at / 512 !in s.o.tables.Values
  }

  predicate ClientFrame(o: Owners, f: Frame) {
    f in o.held || OutsidePool(o, f)
  }

  ghost function Step(s: System, op: Op): System {
    match op
    case Alloc => AllocStep(s).0
    case Free(phys) => if phys / 4096 < FRAMES then FreeStep(s, phys / 4096) else s
    case Map(phys, virt, flags) => MapStep(s, phys, PageOf(virt), flags).0
    case Unmap(virt) => UnmapStep(s, PageOf(virt)).0
    case Switch(dir) => s.(m := s.m.(cur := dir))
    case NewDirectory(base) =>
      var pins := set f | f in s.o.held && (f == base / 512 || f == (base + 511) / 512);
      s.(o := s.o.(dirs := s.o.dirs + {base}, held := s.o.held - pins, pinned := s.o.pinned + pins))
    case ClientStore(at, value) => s.(m := s.m.(mem := Store(s.m.mem, at, value)))
  }

  // ----- What each operation does -----

  /** Everything but one page of one directory is translated as before. */
  ghost predicate OthersKept(s: System, t: System, dir: nat, page: Page) {
    forall d: nat, p: Page :: d in s.o.dirs && !(d == dir && p == page) ==>
      Translate(t.m.mem, d, p) == Translate(s.m.mem, d, p)
  }

  ghost predicate AllKept(s: System, t: System) {
    forall d: nat, p: Page :: d in s.o.dirs ==> Translate(t.m.mem, d, p) == Translate(s.m.mem, d, p)
  }

  /** The outcome of `mm_map_page` from system `s`. */
  ghost predicate MapOutcome(s: System, page: Page, entry: word, t: System, ok: bool) {
    var missing := Missing(s.o, s.m.cur, page, 3);
    && t.m.cur == s.m.cur && t.o.dirs == s.o.dirs && t.o.held == s.o.held && t.o.pinned == s.o.pinned
    && (ok <==> missing <= |s.m.free|)
    && |t.m.free| == (if ok then |s.m.free| - missing else 0)
    && (ok ==> OthersKept(s, t, s.m.cur, page) && Translate(t.m.mem, s.m.cur, page) == Some(entry))
    && (!ok ==> AllKept(s, t))
  }

  lemma KeptThenOnePage(s: System, m: Machine, o: Owners, m2: Machine, page: Page, r: Option<word>)
    requires s.m.cur in s.o.dirs && SameMeaning(s.m, s.o, m, o) && OnePage(m, m2, o.dirs, s.m.cur, page, r)
    ensures OthersKept(s, System(m2, o), s.m.cur, page) && Translate(m2.mem, s.m.cur, page) == r
  {
  }

  lemma MapFrom(s: System, page: Page, entry: word, w: Walked, o: Owners)
    requires SysInv(s) && Inv(w.m, o) && WalkDone(s.m, s.o, page, 3, true, w, o) && Present(entry)
    ensures var (t, ok) := MapAt(w, o, page, entry);
            SysInv(t) && MapOutcome(s, page, entry, t, ok)
  {
    hide PageTables.Inv;
    hide PageTables.Translate;
    var t := MapAt(w, o, page, entry).0;
    assert |SlotOf(s.m.cur, page, 3).path| == 3;
    if w.loc.Some? {
      LeafStore(w.m, o, s.m.cur, page, entry);
      KeptThenOnePage(s, w.m, o, t.m, page, Some(entry));
    }
  }

  /**
   `mm_map_page`: it succeeds exactly when the missing tables (0 to 3) can be allocated, takes
   that many frames (all of them when it fails), sets the one page on success, and changes no
   other translation in any directory. A failed call changes none at all.
   */
  lemma MapMeaning(s: System, phys: word, page: Page, flags: word)
    requires SysInv(s)
    ensures var (t, ok) := MapStep(s, phys, page, flags);
            SysInv(t) && MapOutcome(s, page, LeafEntry(phys, flags), t, ok)
  {
    WalkStep(s.m, s.o, page, 3, true);
    MapFrom(s, page, LeafEntry(phys, flags), WalkTo(s.m, page, 3, true), WalkOwners(s.m, s.o, page, 3, true));
  }

  /**
   Every upper-level entry on the walk of a page, as far as the walk gets, is present and permits
   writes and user access (bits 0, 1 and 2), and is otherwise only the address of a frame.
   */
  lemma LinksPermit(s: System, dir: nat, page: Page, depth: nat, base: nat)
    requires SysInv(s) && dir in s.o.dirs && depth < 3
    requires TableAt(s.m.mem, dir, page, depth) == Some(base) && TableAt(s.m.mem, dir, page, depth + 1).Some?
    ensures var e := Load(s.m.mem, base + page[depth]); e % 4096 == 7 && e / 2 % 2 == 1 && e / 4 % 2 == 1
  {
    hide Inv, TableAt, LinkEntry;
    TableAtIs(s.m, s.o, dir, page, depth);
    TableAtIs(s.m, s.o, dir, page, depth + 1);
    SlotStep(dir, page, depth);
    FollowLinkOf(s.m, s.o, SlotOf(dir, page, depth), page[depth]);
    LinkBits(s.o.tables[SlotOf(dir, page, depth + 1)]);
  }

  lemma LinkBits(f: Frame)
    ensures var e := LinkEntry(f); e % 4096 == 7 && e / 2 % 2 == 1 && e / 4 % 2 == 1
  {
    var e := LinkEntry(f);
    ModUnique(e, 4096, f, 7);
    ModUnique(e, 2, 2048 * f as nat + 3, 1);
    ModUnique(2048 * f as nat + 3, 2, 1024 * f as nat + 1, 1);
    ModUnique(e, 4, 1024 * f as nat + 1, 3);
    ModUnique(1024 * f as nat + 1, 2, 512 * f as nat, 1);
  }

  /**
   So the rights of a translated page, which the processor takes from all four levels together, are
   those of its last-level entry alone.
   */
  lemma LeafRights(s: System, dir: nat, page: Page, entry: word)
    requires SysInv(s) && dir in s.o.dirs && Translate(s.m.mem, dir, page) == Some(entry)
    ensures (forall depth, base :: 0 <= depth <= 3 && TableAt(s.m.mem, dir, page, depth) == Some(base) ==>
               Load(s.m.mem, base + page[depth]) / 2 % 2 == 1) <==> entry / 2 % 2 == 1
    ensures (forall depth, base :: 0 <= depth <= 3 && TableAt(s.m.mem, dir, page, depth) == Some(base) ==>
               Load(s.m.mem, base + page[depth]) / 4 % 2 == 1) <==> entry / 4 % 2 == 1
  {
    hide Inv, TableAt;
    var last := LastLevel(s.m.mem, dir, page);
    forall depth, base | 0 <= depth < 3 && TableAt(s.m.mem, dir, page, depth) == Some(base)
      ensures Load(s.m.mem, base + page[depth]) / 2 % 2 == 1 && Load(s.m.mem, base + page[depth]) / 4 % 2 == 1
    {
      WalkReaches(s.m.mem, dir, page);
      LinksPermit(s, dir, page, depth, base);
    }
  }

  lemma LastLevel(mem: seq<word>, dir: nat, page: Page) returns (base: nat)
    requires Translate(mem, dir, page).Some?
    ensures TableAt(mem, dir, page, 3) == Some(base) && Load(mem, base + page[3]) == Translate(mem, dir, page).value
  {
    base := TableAt(mem, dir, page, 3).value;
  }

  lemma WalkReaches(mem: seq<word>, dir: nat, page: Page)
    requires Translate(mem, dir, page).Some?
    ensures forall depth :: 0 <= depth <= 3 ==> TableAt(mem, dir, page, depth).Some?
  {
    assert TableAt(mem, dir, page, 3).Some?;
    assert TableAt(mem, dir, page, 2).Some?;
    assert TableAt(mem, dir, page, 1).Some?;
    assert TableAt(mem, dir, page, 0).Some?;
  }

  /** The outcome of `mm_unmap_page` from system `s`. */
  ghost predicate UnmapOutcome(s: System, page: Page, t: System, r: Option<word>) {
    && t.o == s.o && t.m.cur == s.m.cur && t.m.free == s.m.free
    && OthersKept(s, t, s.m.cur, page)
    && Translate(t.m.mem, s.m.cur, page) == None
    && match Translate(s.m.mem, s.m.cur, page) {
         case None => r == None && t == s
         case Some(entry) => r == Some(entry / 4096 * 4096)
       }
  }

  lemma UnmapFrom(s: System, page: Page, w: Walked)
    requires SysInv(s) && WalkDone(s.m, s.o, page, 3, false, w, s.o)
    ensures var (t, r) := UnmapAt(s, w.loc, page);
            SysInv(t) && UnmapOutcome(s, page, t, r)
  {
    hide PageTables.Inv;
    var t := UnmapAt(s, w.loc, page).0;
    TranslateIs(s.m, s.o, s.m.cur, page);
    assert |SlotOf(s.m.cur, page, 3).path| == 3;
    if w.loc.Some? {
      LeafStore(s.m, s.o, s.m.cur, page, 0);
      KeptThenOnePage(s, s.m, s.o, s.m.(mem := Store(s.m.mem, w.loc.value + page[3], 0)), page, None);
    }
  }

  /** `mm_unmap_page` removes exactly that page and returns what it was mapped to, or does nothing. */
  lemma UnmapMeaning(s: System, page: Page)
    requires SysInv(s)
    ensures var (t, r) := UnmapStep(s, page);
            SysInv(t) && UnmapOutcome(s, page, t, r)
  {
    WalkStep(s.m, s.o, page, 3, false);
    UnmapFrom(s, page, WalkTo(s.m, page, 3, false));
  }

  /** `mm_unmap_page` of a mapped page sets its entry, where the walk ends, to 0, and stores nothing else. */
  lemma UnmapClears(s: System, page: Page, base: nat)
    requires SysInv(s) && TableAt(s.m.mem, s.m.cur, page, 3) == Some(base)
    ensures UnmapStep(s, page).0.m.mem ==
            if Load(s.m.mem, base + page[3]) % 2 == 1 then Store(s.m.mem, base + page[3], 0) else s.m.mem
  {
    hide Inv, TableAt, WalkTo, WalkOwners, Missing, SameMeaning, Store;
    WalkStep(s.m, s.o, page, 3, false);
    TableAtIs(s.m, s.o, s.m.cur, page, 3);
  }

  /** A map call stores only to the current directory and to frames of the pool. */
  lemma MapKeepsWord(s: System, phys: word, page: Page, flags: word, at: nat)
    requires SysInv(s) && Untouchable(s.m, at)
    ensures Load(MapStep(s, phys, page, flags).0.m.mem, at) == Load(s.m.mem, at)
  {
    hide Inv, WalkTo, WalkOwners, Missing, SameMeaning, LeafEntry;
    WalkKeepsWord(s.m, s.o, page, 3, true, at);
    WalkStep(s.m, s.o, page, 3, true);
    var w, o := WalkTo(s.m, page, 3, true), WalkOwners(s.m, s.o, page, 3, true);
    if w.loc.Some? {
      assert |SlotOf(s.m.cur, page, 3).path| == 3;
      assert w.m.cur == s.m.cur by { CurrentKept(s.m, s.o, w.m, o); }
      PoolTableApart(w.m, o, SlotOf(s.m.cur, page, 3), at);
    }
  }

  lemma CurrentKept(m: Machine, o: Owners, m2: Machine, o2: Owners)
    requires SameMeaning(m, o, m2, o2)
    ensures m2.cur == m.cur
  {
  }

  // ----- What the callers see -----

  /** The pointer that `mm_map_page` returns. */
  function MapResult(ok: bool, virt: word): word {
    if ok then virt else 0
  }

  /** The pointer that `mm_unmap_page` returns. */
  function UnmapResult(phys: Option<word>): word {
    if phys.Some? then phys.value else 0
  }

  /** `mm_map_page` returns the virtual address itself, now mapped, when it succeeds, and null when it fails. */
  lemma MapReturns(s: System, phys: word, virt: word, flags: word)
    requires SysInv(s)
    ensures var (t, ok) := MapStep(s, phys, PageOf(virt), flags);
            if Missing(s.o, s.m.cur, PageOf(virt), 3) <= |s.m.free|
            then
              && MapResult(ok, virt) == virt
              && Translate(t.m.mem, s.m.cur, PageOf(virt)) == Some(LeafEntry(phys, flags))
            else MapResult(ok, virt) == 0 && AllKept(s, t)
  {
    hide Inv, MapStep, Missing, PageOf, Translate, LeafEntry;
    MapMeaning(s, phys, PageOf(virt), flags);
  }

  /** `mm_unmap_page` returns the address of the frame that the page was mapped to, and null for an unmapped page. */
  lemma UnmapReturns(s: System, page: Page)
    requires SysInv(s)
    ensures UnmapResult(UnmapStep(s, page).1) ==
            match Translate(s.m.mem, s.m.cur, page) { case None => 0 case Some(entry) => entry - entry % 4096 }
  {
    hide Inv, UnmapStep, Translate;
    UnmapMeaning(s, page);
  }

  /** A null pointer from `mm_map_page` means failure, or success at virtual address 0. */
  lemma MapNullExactly(s: System, phys: word, virt: word, flags: word)
    requires SysInv(s)
    ensures MapResult(MapStep(s, phys, PageOf(virt), flags).1, virt) == 0 <==>
            Missing(s.o, s.m.cur, PageOf(virt), 3) > |s.m.free| || virt == 0
  {
    hide Inv, MapStep, Missing, PageOf;
    MapMeaning(s, phys, PageOf(virt), flags);
  }

  /** A null pointer from `mm_unmap_page` means that the page was not mapped, or mapped to physical page 0. */
  lemma UnmapNullExactly(s: System, page: Page)
    requires SysInv(s)
    ensures UnmapResult(UnmapStep(s, page).1) == 0 <==>
            match Translate(s.m.mem, s.m.cur, page) { case None => true case Some(entry) => entry < 4096 }
  {
    hide Inv, UnmapStep, Translate;
    UnmapMeaning(s, page);
  }
}
