/**
 Every run of the paging interface: the ownership invariant, the partial maps that a run
 implements, and the conservation of frames.
 */
module PagingRuns {
  import opened Bits
  import opened Options
  import opened PageTables
  import opened PageOps
  import opened AddressSpaces

  // ----- The remaining operations -----

  /** `mm_alloc_page` hands out the lowest free frame, which no one else holds, or 0 if none is free. */
  lemma AllocMeaning(s: System)
    requires SysInv(s)
    ensures var (t, phys) := AllocStep(s);
            && SysInv(t) && t.m.mem == s.m.mem && t.m.cur == s.m.cur && t.o.dirs == s.o.dirs
            && (phys == 0 <==> s.m.free == {})
            && (phys == 0 ==> t == s)
            && (phys != 0 ==>
                 var f := phys / 4096;
                 && phys % 4096 == 0 && f < FRAMES && IsMin(s.m.free, f)
                 && f !in s.o.held && f !in s.o.tables.Values && f !in s.o.pinned
                 && t.m.free == s.m.free - {f} && t.o.held == s.o.held + {f})
  {
    FrameRange(s.m, s.o);
    var t := AllocStep(s).0;
    if s.m.free != {} {
      var f := Min(s.m.free);
      assert f as nat * 4096 / 4096 == f;
      RoleMoves(s.m.free, s.o.tables.Values, s.o.held, s.o.pinned, f);
      SameForest(s, t);
    }
  }

  /** A frame moving between the free set and the clients leaves every frame with one role. */
  lemma RoleMoves(free: set<Frame>, tables: set<Frame>, held: set<Frame>, pinned: set<Frame>, f: Frame)
    requires free !! tables !! held !! pinned
    ensures f in free ==>
              && (free - {f}) !! tables !! (held + {f}) !! pinned
              && (free - {f}) + tables + (held + {f}) + pinned == free + tables + held + pinned
    ensures f in held ==>
              && (free + {f}) !! tables !! (held - {f}) !! pinned
              && (free + {f}) + tables + (held - {f}) + pinned == free + tables + held + pinned
  {
  }

  lemma SameForest(s: System, t: System)
    requires Inv(s.m, s.o) && t.m.mem == s.m.mem && t.o.dirs == s.o.dirs && t.o.tables == s.o.tables
    ensures LinksOk(t.m, t.o) && TablesOk(t.o)
  {
    hide LinkOk;
    forall u: Slot, i: nat | IsTable(t.o, u) && |u.path| < 3 && i < ENTRIES
      ensures LinkOk(t.m, t.o, u, i)
    {
      SameLink(s, t, u, i);
    }
    SameTables(s, t);
  }

  lemma SameLink(s: System, t: System, u: Slot, i: nat)
    requires Inv(s.m, s.o) && t.m.mem == s.m.mem && t.o.dirs == s.o.dirs && t.o.tables == s.o.tables
    requires IsTable(t.o, u) && |u.path| < 3 && i < ENTRIES
    ensures LinkOk(t.m, t.o, u, i)
  {
    hide Inv;
    FollowLinkOf(s.m, s.o, u, i);
  }

  lemma SameTables(s: System, t: System)
    requires TablesOk(s.o) && t.o.dirs == s.o.dirs && t.o.tables == s.o.tables
    ensures TablesOk(t.o)
  {
  }

  /** `mm_free_page` of a client's frame makes that frame free, and no other. */
  lemma FreeMeaning(s: System, f: Frame)
    requires SysInv(s) && f in s.o.held
    ensures var t := FreeStep(s, f);
            SysInv(t) && f !in s.m.free && t.m.free == s.m.free + {f} && t.m.mem == s.m.mem
  {
    RoleMoves(s.m.free, s.o.tables.Values, s.o.held, s.o.pinned, f);
    SameForest(s, FreeStep(s, f));
  }

  lemma EmptyDirectory(mem: seq<word>, base: nat, page: Page)
    requires forall at :: base <= at < base + ENTRIES ==> Load(mem, at) == 0
    ensures Translate(mem, base, page) == None
  {
    assert TableAt(mem, base, page, 0) == Some(base);
    assert TableAt(mem, base, page, 1) == None;
    assert TableAt(mem, base, page, 2) == None;
  }

  lemma NewDirectoryRoles(s: System, base: nat)
    requires SysInv(s) && Legal(s, NewDirectory(base))
    ensures var t := Step(s, NewDirectory(base)); RolesOk(t.m, t.o)
  {
  }

  lemma NewDirectoryDirs(s: System, base: nat)
    requires SysInv(s) && Legal(s, NewDirectory(base))
    ensures var t := Step(s, NewDirectory(base)); DirsOk(t.o) && base !in s.o.dirs
  {
    hide RolesOk, TablesOk, LinksOk;
    var t := Step(s, NewDirectory(base));
    assert forall f :: OutsidePool(s.o, f) ==> OutsidePool(t.o, f);
  }

  lemma NewDirectoryLinks(s: System, base: nat)
    requires SysInv(s) && Legal(s, NewDirectory(base)) && base !in s.o.dirs
    ensures var t := Step(s, NewDirectory(base)); TablesOk(t.o) && LinksOk(t.m, t.o)
  {
    hide RolesOk, DirsOk, LinkOk;
    var t := Step(s, NewDirectory(base));
    forall u: Slot, i: nat | IsTable(t.o, u) && |u.path| < 3 && i < ENTRIES
      ensures LinkOk(t.m, t.o, u, i)
    {
      NewDirectoryLink(s, base, u, i);
    }
  }

  lemma NewDirectoryLink(s: System, base: nat, u: Slot, i: nat)
    requires SysInv(s) && Legal(s, NewDirectory(base)) && base !in s.o.dirs && |u.path| < 3 && i < ENTRIES
    requires var t := Step(s, NewDirectory(base)); IsTable(t.o, u)
    ensures var t := Step(s, NewDirectory(base)); LinkOk(t.m, t.o, u, i)
  {
    hide Inv;
    if u == Slot(base, []) {
      NoChild(s.m, s.o, u, i);
    } else {
      FollowLinkOf(s.m, s.o, u, i);
    }
  }

  /** A zeroed page directory joins with no translations of its own and changes no other. */
  lemma NewDirectoryMeaning(s: System, base: nat)
    requires SysInv(s) && Legal(s, NewDirectory(base))
    ensures var t := Step(s, NewDirectory(base));
            SysInv(t) && t.m == s.m && base !in s.o.dirs && t.o.dirs == s.o.dirs + {base}
    ensures forall page: Page :: Translate(s.m.mem, base, page) == None
  {
    NewDirectoryRoles(s, base);
    NewDirectoryDirs(s, base);
    NewDirectoryLinks(s, base);
    forall page: Page
      ensures Translate(s.m.mem, base, page) == None
    {
      EmptyDirectory(s.m.mem, base, page);
    }
  }

  /** A store outside tables and directories touches no word of any table. */
  lemma ClientStoreApart(s: System, at: nat, value: word, t: Slot, j: nat)
    requires SysInv(s) && Legal(s, ClientStore(at, value)) && IsTable(s.o, t) && j < ENTRIES
    ensures Load(Store(s.m.mem, at, value), Base(s.o, t) + j) == Load(s.m.mem, Base(s.o, t) + j)
  {
    hide Inv;
    TableInMemory(s.m, s.o, t);
    if t.path == [] {
      assert t.dir in s.o.dirs && !InDirectory(s.o, at);
      assert at != t.dir + j;
    } else {
      var f := s.o.tables[t];
      assert f in s.o.tables.Values;
      assert at / 512 != f;
      assert at != f as nat * 512 + j;
    }
  }

  lemma ClientStoreInv(s: System, at: nat, value: word)
    requires SysInv(s) && Legal(s, ClientStore(at, value))
    ensures SysInv(Step(s, ClientStore(at, value)))
  {
    hide DirsOk, TablesOk;
    var t := Step(s, ClientStore(at, value));
    forall u: Slot, i: nat | IsTable(t.o, u) && |u.path| < 3 && i < ENTRIES
      ensures LinkOk(t.m, t.o, u, i)
    {
      ClientStoreApart(s, at, value, u, i);
      FollowLinkOf(s.m, s.o, u, i);
    }
  }

  /** Client stores never change a translation. */
  lemma ClientStoreMeaning(s: System, at: nat, value: word)
    requires SysInv(s) && Legal(s, ClientStore(at, value))
    ensures var t := Step(s, ClientStore(at, value)); SysInv(t) && AllKept(s, t)
  {
    hide Inv;
    ClientStoreInv(s, at, value);
    var t := Step(s, ClientStore(at, value));
    forall d: nat, p: Page | d in s.o.dirs
      ensures Translate(t.m.mem, d, p) == Translate(s.m.mem, d, p)
    {
      TranslateIs(s.m, s.o, d, p);
      TranslateIs(t.m, t.o, d, p);
      if SlotOf(d, p, 3) in s.o.tables {
        ClientStoreApart(s, at, value, SlotOf(d, p, 3), p[3]);
      }
    }
  }

  // ----- The abstract machine -----

  /**
   What a client needs to know: the current directory, a map from pages for each directory, which
   frames are free, and which tables exist. It knows nothing of memory.
   */
  datatype Spaces = Spaces(cur: nat, maps: map<(nat, Page), word>, linked: set<Slot>, free: set<Frame>)

  function Lookup(a: Spaces, dir: nat, page: Page): Option<word> {
    if (dir, page) in a.maps then Some(a.maps[(dir, page)]) else None
  }

  /** The tables and the free frames after linking what a page misses down to `depth`, lowest frame first. */
  ghost function LinkTo(linked: set<Slot>, free: set<Frame>, dir: nat, page: Page, depth: nat): (set<Slot>, set<Frame>)
    requires depth <= 3
  {
    if depth == 0 then (linked, free)
    else
      var (l, f) := LinkTo(linked, free, dir, page, depth - 1);
      var parent, slot := SlotOf(dir, page, depth - 1), SlotOf(dir, page, depth);
      if slot in l || f == {} || (depth > 1 && parent !in l) then (l, f) else (l + {slot}, f - {Min(f)})
  }

  /** The operations on the maps. */
  ghost function AbstractStep(a: Spaces, op: Op): Spaces {
    match op
    case Alloc => if a.free == {} then a else a.(free := a.free - {Min(a.free)})
    case Free(phys) => if phys / 4096 < FRAMES then a.(free := a.free + {phys / 4096}) else a
    case Map(phys, virt, flags) =>
      var (linked, free) := LinkTo(a.linked, a.free, a.cur, PageOf(virt), 3);
      var maps := if SlotOf(a.cur, PageOf(virt), 3) in linked
                  then a.maps[(a.cur, PageOf(virt)) := LeafEntry(phys, flags)]
                  else a.maps;
      a.(maps := maps, linked := linked, free := free)
    case Unmap(virt) => a.(maps := a.maps - {(a.cur, PageOf(virt))})
    case Switch(dir) => a.(cur := dir)
    case _ => a
  }

  /** What a call tells its caller: whether it succeeded, and the address that an allocation or an unmap returns. */
  datatype Answer = Answer(ok: bool, phys: Option<word>)

  ghost function AnswerOf(s: System, op: Op): Answer {
    match op
    case Alloc => if AllocStep(s).1 == 0 then Answer(false, None) else Answer(true, Some(AllocStep(s).1))
    case Map(phys, virt, flags) => Answer(MapStep(s, phys, PageOf(virt), flags).1, None)
    case Unmap(virt) => Answer(UnmapStep(s, PageOf(virt)).1.Some?, UnmapStep(s, PageOf(virt)).1)
    case _ => Answer(true, None)
  }

  ghost function AbstractAnswer(a: Spaces, op: Op): Answer {
    match op
    case Alloc => if a.free == {} then Answer(false, None) else Answer(true, Some(Address(Min(a.free))))
    case Map(phys, virt, flags) =>
      Answer(SlotOf(a.cur, PageOf(virt), 3) in LinkTo(a.linked, a.free, a.cur, PageOf(virt), 3).0, None)
    case Unmap(virt) =>
      (match Lookup(a, a.cur, PageOf(virt))
       case None => Answer(false, None)
       case Some(entry) => Answer(true, Some(entry / 4096 * 4096)))
    case _ => Answer(true, None)
  }

  /** The physical address of a frame. */
  function Address(f: Frame): word {
    f as nat * 4096
  }

  ghost predicate Represents(s: System, a: Spaces) {
    && s.m.cur == a.cur && s.m.free == a.free && s.o.tables.Keys == a.linked
    && (forall d: nat, p: Page :: d in s.o.dirs ==> Translate(s.m.mem, d, p) == Lookup(a, d, p))
    && (forall k :: k in a.maps ==> k.0 in s.o.dirs)
  }

  /** A map call succeeds exactly when the tables it misses can all be allocated. */
  ghost predicate Succeeds(s: System, op: Op) {
    op.Map? ==> Missing(s.o, s.m.cur, PageOf(op.virt), 3) <= |s.m.free|
  }

  /** The allocating walk links the tables, and takes the frames, that `LinkTo` says. */
  lemma {:induction false} WalkLinks(m: Machine, o: Owners, page: Page, depth: nat)
    requires Inv(m, o) && m.cur in o.dirs && depth <= 3
    ensures var w, o2 := WalkTo(m, page, depth, true), WalkOwners(m, o, page, depth, true);
            (o2.tables.Keys, w.m.free) == LinkTo(o.tables.Keys, m.free, m.cur, page, depth)
  {
    hide Inv, Missing, SameMeaning, NextTable, NextOwners;
    if depth > 0 {
      WalkLinks(m, o, page, depth - 1);
      WalkStep(m, o, page, depth - 1, true);
      var w, o1 := WalkTo(m, page, depth - 1, true), WalkOwners(m, o, page, depth - 1, true);
      var s, i := SlotOf(m.cur, page, depth - 1), page[depth - 1];
      SlotStep(m.cur, page, depth - 1);
      if w.loc.Some? {
        NextLinks(w.m, o1, s, i);
      } else {
        NoChild(w.m, o1, s, i);
      }
      RootIsTable(m, o, w.m, o1, page);
    }
  }

  lemma RootIsTable(m: Machine, o: Owners, m2: Machine, o2: Owners, page: Page)
    requires m.cur in o.dirs && SameMeaning(m, o, m2, o2)
    ensures IsTable(o2, SlotOf(m.cur, page, 0))
    ensures forall d: nat :: 1 <= d <= 3 ==>
              (IsTable(o2, SlotOf(m.cur, page, d)) <==> SlotOf(m.cur, page, d) in o2.tables)
  {
    assert page[..0] == [];
    forall d: nat | 1 <= d <= 3
      ensures IsTable(o2, SlotOf(m.cur, page, d)) <==> SlotOf(m.cur, page, d) in o2.tables
    {
      assert |page[..d]| == d;
    }
  }

  lemma NextLinks(m: Machine, o: Owners, s: Slot, i: nat)
    requires Inv(m, o) && IsTable(o, s) && |s.path| < 3 && i < ENTRIES
    ensures var w, o2, c := NextTable(m, Base(o, s), i, true), NextOwners(m, o, s, i, true), Child(s, i);
            if c in o.tables || m.free == {}
            then o2.tables.Keys == o.tables.Keys && w.m.free == m.free
            else o2.tables.Keys == o.tables.Keys + {c} && w.m.free == m.free - {Min(m.free)}
  {
    hide Inv, NextTable, Grown;
    if Child(s, i) in o.tables || m.free == {} {
      NextUnchanged(m, o, s, i, true);
    } else {
      NextIsGrown(m, o, s, i);
      GrownParts(m, o, s, i);
    }
  }

  lemma MapRefines(s: System, a: Spaces, phys: word, virt: word, flags: word)
    requires SysInv(s) && Represents(s, a)
    ensures var op := Map(phys, virt, flags);
            && SysInv(Step(s, op)) && Represents(Step(s, op), AbstractStep(a, op))
            && AnswerOf(s, op) == AbstractAnswer(a, op)
  {
    hide Inv, WalkTo, WalkOwners, LinkTo, PageOf, LeafEntry, Translate, Missing;
    var page := PageOf(virt);
    MapMeaning(s, phys, page, flags);
    MapLinks(s, phys, page, flags);
    var t := MapStep(s, phys, page, flags).0;
    var b := AbstractStep(a, Map(phys, virt, flags));
    forall d: nat, p: Page | d in s.o.dirs
      ensures Translate(t.m.mem, d, p) == Lookup(b, d, p)
    {
      assert Translate(s.m.mem, d, p) == Lookup(a, d, p);
    }
  }

  lemma MapLinks(s: System, phys: word, page: Page, flags: word)
    requires SysInv(s)
    ensures var (t, ok) := MapStep(s, phys, page, flags);
            var (linked, free) := LinkTo(s.o.tables.Keys, s.m.free, s.m.cur, page, 3);
            t.o.tables.Keys == linked && t.m.free == free && (ok <==> SlotOf(s.m.cur, page, 3) in linked)
  {
    hide Inv, WalkTo, WalkOwners, LinkTo, LeafEntry, Missing;
    WalkLinks(s.m, s.o, page, 3);
    WalkStep(s.m, s.o, page, 3, true);
    var w, o := WalkTo(s.m, page, 3, true), WalkOwners(s.m, s.o, page, 3, true);
    RootIsTable(s.m, s.o, w.m, o, page);
  }

  lemma UnmapRefines(s: System, a: Spaces, virt: word)
    requires SysInv(s) && Represents(s, a)
    ensures var op := Unmap(virt);
            && SysInv(Step(s, op)) && Represents(Step(s, op), AbstractStep(a, op))
            && AnswerOf(s, op) == AbstractAnswer(a, op)
  {
    hide Inv, UnmapStep;
    UnmapMeaning(s, PageOf(virt));
  }

  lemma NewDirectoryRefines(s: System, a: Spaces, base: nat)
    requires SysInv(s) && Represents(s, a) && Legal(s, NewDirectory(base))
    ensures Represents(Step(s, NewDirectory(base)), a)
  {
    hide Inv, Translate;
    NewDirectoryMeaning(s, base);
    forall page: Page
      ensures Translate(s.m.mem, base, page) == Lookup(a, base, page)
    {
      assert (base, page) in a.maps ==> (base, page).0 in s.o.dirs;
    }
  }

  /** Each operation keeps the invariant, acts on the maps as its abstract step says, and answers as it says. */
  lemma StepRefines(s: System, a: Spaces, op: Op)
    requires SysInv(s) && Represents(s, a) && Legal(s, op)
    ensures SysInv(Step(s, op)) && Represents(Step(s, op), AbstractStep(a, op))
    ensures AnswerOf(s, op) == AbstractAnswer(a, op)
  {
    hide Inv, Translate, MapStep, UnmapStep, LinkTo, PageOf;
    match op
    case Alloc => AllocMeaning(s);
    case Free(phys) => FreeMeaning(s, phys / 4096);
    case Map(phys, virt, flags) => MapRefines(s, a, phys, virt, flags);
    case Unmap(virt) => UnmapRefines(s, a, virt);
    case Switch(dir) => SwitchInv(s, dir);
    case NewDirectory(base) =>
      NewDirectoryMeaning(s, base);
      NewDirectoryRefines(s, a, base);
    case ClientStore(at, value) => ClientStoreMeaning(s, at, value);
  }

  lemma SwitchInv(s: System, dir: nat)
    requires SysInv(s) && dir in s.o.dirs
    ensures SysInv(s.(m := s.m.(cur := dir)))
  {
    SameForest(s, s.(m := s.m.(cur := dir)));
  }

  /** Every legal operation keeps the invariant. */
  lemma StepInv(s: System, op: Op)
    requires SysInv(s) && Legal(s, op)
    ensures SysInv(Step(s, op))
  {
    hide Inv, Translate, MapStep, UnmapStep, PageOf;
    match op
    case Alloc => AllocMeaning(s);
    case Free(phys) => FreeMeaning(s, phys / 4096);
    case Map(phys, virt, flags) => MapMeaning(s, phys, PageOf(virt), flags);
    case Unmap(virt) => UnmapMeaning(s, PageOf(virt));
    case Switch(dir) => SwitchInv(s, dir);
    case NewDirectory(base) => NewDirectoryMeaning(s, base);
    case ClientStore(at, value) => ClientStoreMeaning(s, at, value);
  }

  // ----- Runs -----

  ghost function Run(s: System, ops: seq<Op>): System
    decreases |ops|
  {
    if ops == [] then s else Run(Step(s, ops[0]), ops[1..])
  }

  ghost predicate LegalRun(s: System, ops: seq<Op>)
    decreases |ops|
  {
    ops == [] || (Legal(s, ops[0]) && LegalRun(Step(s, ops[0]), ops[1..]))
  }

  ghost function Answers(s: System, ops: seq<Op>): (r: seq<Answer>)
    ensures |r| == |ops|
    decreases |ops|
  {
    if ops == [] then [] else [AnswerOf(s, ops[0])] + Answers(Step(s, ops[0]), ops[1..])
  }

  ghost function AbstractRun(a: Spaces, ops: seq<Op>): Spaces
    decreases |ops|
  {
    if ops == [] then a else AbstractRun(AbstractStep(a, ops[0]), ops[1..])
  }

  ghost function AbstractAnswers(a: Spaces, ops: seq<Op>): seq<Answer>
    decreases |ops|
  {
    if ops == [] then [] else [AbstractAnswer(a, ops[0])] + AbstractAnswers(AbstractStep(a, ops[0]), ops[1..])
  }

  /** Over every legal run the page tables denote the partial maps, and every call answers as the maps say. */
  lemma {:induction false} RunRefines(s: System, a: Spaces, ops: seq<Op>)
    requires SysInv(s) && Represents(s, a) && LegalRun(s, ops)
    ensures SysInv(Run(s, ops)) && Represents(Run(s, ops), AbstractRun(a, ops))
    ensures Answers(s, ops) == AbstractAnswers(a, ops)
    decreases |ops|
  {
    hide SysInv, Represents, Legal, Step, AbstractStep, AnswerOf, AbstractAnswer;
    if ops != [] {
      StepRefines(s, a, ops[0]);
      RunRefines(Step(s, ops[0]), AbstractStep(a, ops[0]), ops[1..]);
    }
  }

  /** The system after `mm_init` and `paging_init`: the pool is free, the kernel directory zeroed. */
  ghost predicate Boot(s: System) {
    && |s.m.mem| == WORDS
    && s.m.free == Pool()
    && s.o == Owners({s.m.cur}, map[], {}, {})
    && s.m.cur + ENTRIES <= FIRST_POOL_FRAME * 512
    && (forall at :: s.m.cur <= at < s.m.cur + ENTRIES ==> Load(s.m.mem, at) == 0)
  }

  /** The abstract machine at boot: nothing mapped, no table, every frame of the pool free. */
  ghost function Fresh(dir: nat): Spaces {
    Spaces(dir, map[], {}, Pool())
  }

  lemma BootInv(s: System)
    requires Boot(s)
    ensures SysInv(s) && Represents(s, Fresh(s.m.cur))
  {
    forall page: Page
      ensures Translate(s.m.mem, s.m.cur, page) == None
    {
      EmptyDirectory(s.m.mem, s.m.cur, page);
    }
  }

  /** The first map call after boot succeeds. */
  lemma BootMaps(s: System, phys: word, virt: word, flags: word)
    requires Boot(s)
    ensures SysInv(s) && SysInv(Step(s, Map(phys, virt, flags)))
    ensures var (t, ok) := MapStep(s, phys, PageOf(virt), flags);
            ok && t.m.cur == s.m.cur && Translate(t.m.mem, s.m.cur, PageOf(virt)) == Some(LeafEntry(phys, flags))
  {
    hide Inv, MapStep, PageOf, Translate, LeafEntry;
    BootInv(s);
    PoolCount();
    MapMeaning(s, phys, PageOf(virt), flags);
  }

  /** After that call no other page has a translation. */
  lemma BootMapsOne(s: System, phys: word, virt: word, flags: word, page: Page)
    requires Boot(s) && page != PageOf(virt)
    ensures Translate(MapStep(s, phys, PageOf(virt), flags).0.m.mem, s.m.cur, page) == None
  {
    hide Inv, MapStep, PageOf, LeafEntry, Missing;
    BootInv(s);
    MapMeaning(s, phys, PageOf(virt), flags);
    hide Translate;
    EmptyDirectory(s.m.mem, s.m.cur, page);
  }

  /**
   Null from a successful call: after boot, mapping a page to physical page 0 and unmapping it again
   succeeds and returns a null pointer, and so does mapping at virtual address 0.
   */
  lemma NullOnSuccess(s: System, virt: word, flags: word)
    requires Boot(s)
    ensures var t := Step(s, Map(0, virt, flags)); UnmapStep(t, PageOf(virt)).1 == Some(0) && UnmapResult(Some(0)) == 0
    ensures var ok := MapStep(s, 0, PageOf(0), flags).1; ok && MapResult(ok, 0) == 0
  {
    hide Boot, Inv, MapStep, UnmapStep, PageOf, Translate, LeafEntry;
    BootMaps(s, 0, 0, flags);
    BootMaps(s, 0, virt, flags);
    UnmapMeaning(Step(s, Map(0, virt, flags)), PageOf(virt));
    assert LeafEntry(0, flags) / 4096 == 0;
  }

  /** From boot, any legal run refines the run that starts with empty maps. */
  lemma BootRunRefines(s: System, ops: seq<Op>)
    requires Boot(s) && LegalRun(s, ops)
    ensures SysInv(Run(s, ops))
    ensures Represents(Run(s, ops), AbstractRun(Fresh(s.m.cur), ops))
    ensures Answers(s, ops) == AbstractAnswers(Fresh(s.m.cur), ops)
  {
    hide *;
    BootInv(s);
    RunRefines(s, Fresh(s.m.cur), ops);
  }

  // ----- No frame is handed out twice -----

  /** The call frees frame `f`. */
  predicate Frees(op: Op, f: Frame) {
    op.Free? && op.phys / 4096 == f
  }

  lemma {:induction false} LinkToTakes(linked: set<Slot>, free: set<Frame>, dir: nat, page: Page, depth: nat)
    requires depth <= 3
    ensures LinkTo(linked, free, dir, page, depth).1 <= free
  {
    if depth > 0 {
      LinkToTakes(linked, free, dir, page, depth - 1);
    }
  }

  /** Only freeing a frame makes it free. */
  lemma StepTakes(s: System, op: Op, f: Frame)
    requires SysInv(s) && Legal(s, op) && f !in s.m.free && !Frees(op, f)
    ensures f !in Step(s, op).m.free
  {
    hide Inv, MapStep, UnmapStep, LinkTo, PageOf, Missing, Translate;
    match op
    case Map(phys, virt, flags) =>
      MapLinks(s, phys, PageOf(virt), flags);
      LinkToTakes(s.o.tables.Keys, s.m.free, s.m.cur, PageOf(virt), 3);
    case Unmap(virt) => UnmapMeaning(s, PageOf(virt));
    case _ =>
  }

  /** A frame in use, whether held, pinned or a table, is not returned by any allocation before it is freed. */
  lemma {:induction false} NotReturned(s: System, ops: seq<Op>, f: Frame, k: nat)
    requires SysInv(s) && LegalRun(s, ops) && f !in s.m.free
    requires k < |ops| && ops[k].Alloc? && forall i :: 0 <= i < k ==> !Frees(ops[i], f)
    ensures Answers(s, ops)[k] != Answer(true, Some(Address(f)))
    decreases k
  {
    hide Inv, Step, AllocStep;
    AnswersStep(s, ops);
    if k == 0 {
      AllocAnswer(s);
    } else {
      assert !Frees(ops[0], f);
      StepTakes(s, ops[0], f);
      StepInv(s, ops[0]);
      NotReturned(Step(s, ops[0]), ops[1..], f, k - 1);
    }
  }

  lemma AnswersStep(s: System, ops: seq<Op>)
    requires ops != []
    ensures Answers(s, ops) == [AnswerOf(s, ops[0])] + Answers(Step(s, ops[0]), ops[1..])
  {
  }

  lemma AllocAnswer(s: System)
    requires SysInv(s)
    ensures AnswerOf(s, Alloc) ==
            if s.m.free == {} then Answer(false, None) else Answer(true, Some(Address(Min(s.m.free))))
    ensures s.m.free != {} ==> Step(s, Alloc).m.free == s.m.free - {Min(s.m.free)}
  {
    hide Inv;
    AllocMeaning(s);
  }

  /** Two allocations of a run that return the same frame have a call in between that frees it. */
  lemma {:induction false} NoReissue(s: System, ops: seq<Op>, f: Frame, j: nat, k: nat)
    requires SysInv(s) && LegalRun(s, ops) && j < k < |ops| && ops[j].Alloc? && ops[k].Alloc?
    requires Answers(s, ops)[j] == Answers(s, ops)[k] == Answer(true, Some(Address(f)))
    ensures exists i :: j < i < k && Frees(ops[i], f)
    decreases j
  {
    hide Inv, Step, AllocStep, Frees, AnswerOf;
    AnswersStep(s, ops);
    StepInv(s, ops[0]);
    var t, rest := Step(s, ops[0]), ops[1..];
    AnswersStep(t, rest);
    if j == 0 {
      AllocAnswer(s);
      if forall i :: 0 <= i < k - 1 ==> !Frees(rest[i], f) {
        NotReturned(t, rest, f, k - 1);
        assert false;
      }
      var i :| 0 <= i < k - 1 && Frees(rest[i], f);
      assert Frees(ops[i + 1], f);
    } else {
      NoReissue(t, rest, f, j - 1, k - 1);
      var i :| j - 1 < i < k - 1 && Frees(rest[i], f);
      assert Frees(ops[i + 1], f);
    }
  }

  // ----- What the invariant says about memory and frames -----

  /**
   No sharing: if two walks, from any directories, at any depths below the root, reach the same
   table, they took the same path from the same directory; and that table's frame is not free.
   */
  lemma NoSharing(s: System, d: nat, p: Page, i: nat, e: nat, q: Page, j: nat, base: nat)
    requires SysInv(s) && d in s.o.dirs && e in s.o.dirs && 1 <= i <= 3 && j <= 3
    requires TableAt(s.m.mem, d, p, i) == Some(base) && TableAt(s.m.mem, e, q, j) == Some(base)
    ensures d == e && i == j && p[..i] == q[..j]
    ensures base % 512 == 0 && base / 512 < FRAMES && base / 512 !in s.m.free && base / 512 !in s.o.held
  {
    hide Inv, TableAt, SlotOf, Base;
    TableAtIs(s.m, s.o, d, p, i);
    TableAtIs(s.m, s.o, e, q, j);
    SameBase(s, SlotOf(d, p, i), SlotOf(e, q, j));
    SlotOfParts(d, p, i);
    SlotOfParts(e, q, j);
    FrameIsTaken(s, SlotOf(d, p, i));
  }

  lemma SlotOfParts(d: nat, p: Page, i: nat)
    requires i <= 3
    ensures SlotOf(d, p, i).dir == d && SlotOf(d, p, i).path == p[..i] && |p[..i]| == i
  {
  }

  lemma SameBase(s: System, t: Slot, u: Slot)
    requires SysInv(s) && IsTable(s.o, t) && IsTable(s.o, u) && Base(s.o, t) == Base(s.o, u)
    ensures t == u
  {
    if t != u {
      TablesApart(s.m, s.o, t, u);
      assert false;
    }
  }

  lemma FrameIsTaken(s: System, t: Slot)
    requires SysInv(s) && IsTable(s.o, t) && t.path != []
    ensures var base := Base(s.o, t);
            base % 512 == 0 && base / 512 < FRAMES && base / 512 !in s.m.free && base / 512 !in s.o.held
  {
  }

  lemma {:induction false} PathSmall(s: System, t: Slot, d: nat)
    requires SysInv(s) && IsTable(s.o, t) && d < |t.path|
    ensures |t.path| <= 3 && t.path[d] < ENTRIES
    decreases |t.path|
  {
    hide RolesOk, DirsOk, LinksOk;
    if d < |t.path| - 1 {
      assert Parent(t).path == t.path[..|t.path| - 1];
      PathSmall(s, Parent(t), d);
    }
  }

  /** Every table is reached from its directory by the processor's walk of some page: none is lost. */
  lemma TablesReachable(s: System, t: Slot)
    requires SysInv(s) && t in s.o.tables && t.path != []
    ensures t.dir in s.o.dirs && |t.path| <= 3
    ensures exists page: Page :: TableAt(s.m.mem, t.dir, page, |t.path|) == Some(s.o.tables[t] as nat * 512)
  {
    hide Inv, TableAt;
    DirOf(s, t);
    forall d: nat | d < |t.path|
      ensures |t.path| <= 3 && t.path[d] < ENTRIES
    {
      PathSmall(s, t, d);
    }
    PathSmall(s, t, 0);
    var page := Padded(t.path);
    assert SlotOf(t.dir, page, |t.path|) == t;
    TableAtIs(s.m, s.o, t.dir, page, |t.path|);
  }

  /** A page whose indices begin with `path`. */
  function Padded(path: seq<nat>): (page: Page)
    requires 1 <= |path| <= 3 && forall d: nat :: d < |path| ==> path[d] < ENTRIES
    ensures page[..|path|] == path
  {
    if |path| == 1 then [path[0], 0, 0, 0]
    else if |path| == 2 then [path[0], path[1], 0, 0]
    else [path[0], path[1], path[2], 0]
  }

  lemma DirOf(s: System, t: Slot)
    requires SysInv(s) && IsTable(s.o, t)
    ensures t.dir in s.o.dirs
  {
  }

  /** A map call that runs out of frames leaks none: each frame it took is the frame of a linked table. */
  lemma FailedMapLeaksNothing(s: System, phys: word, page: Page, flags: word)
    requires SysInv(s) && !MapStep(s, phys, page, flags).1
    ensures var t := MapStep(s, phys, page, flags).0;
            SysInv(t) && AllKept(s, t) && t.m.free == {} && t.o.tables.Values == s.o.tables.Values + s.m.free
  {
    hide DirsOk, TablesOk, LinksOk, MapStep, Translate, Missing;
    MapMeaning(s, phys, page, flags);
    var t := MapStep(s, phys, page, flags).0;
    assert t.m.free == {};
    SameRest(s.m.free, s.o.tables.Values, t.o.tables.Values, s.o.held, s.o.pinned, Pool());
  }

  lemma SameRest(free: set<Frame>, before: set<Frame>, after: set<Frame>,
                 held: set<Frame>, pinned: set<Frame>, pool: set<Frame>)
    requires free !! before !! held !! pinned && free + before + held + pinned == pool
    requires after !! held !! pinned && after + held + pinned == pool
    ensures after == before + free
  {
  }

  predicate Between(a: nat, f: nat, b: nat) {
    a <= f < b
  }

  lemma {:induction false} RangeSize(a: nat, b: nat)
    requires a <= b <= FRAMES
    ensures |(set f: Frame | f < FRAMES && Between(a, f, b))| == b - a
    decreases b
  {
    var s := set f: Frame | f < FRAMES && Between(a, f, b);
    if a < b {
      var c := b - 1;
      RangeSize(a, c);
      assert s == (set f: Frame | f < FRAMES && Between(a, f, c)) + {c};
    } else {
      assert s == {};
    }
  }

  lemma PoolCount()
    ensures |Pool()| == 15872
  {
    assert Pool() == set f: Frame | f < FRAMES && Between(FIRST_POOL_FRAME, f, FRAMES);
    RangeSize(FIRST_POOL_FRAME, FRAMES);
  }

  lemma {:induction false} InjectiveSize(tables: map<Slot, Frame>)
    requires forall s, t :: s in tables && t in tables && tables[s] == tables[t] ==> s == t
    ensures |tables.Values| == |tables|
  {
    if tables != map[] {
      var s :| s in tables;
      var rest := tables - {s};
      InjectiveSize(rest);
      assert tables == rest[s := tables[s]];
      assert forall t :: t in tables && t != s ==> tables[t] != tables[s];
      ValuesOfUpdate(rest, s, tables[s]);
    } else {
      assert tables.Values == {};
    }
  }

  /** In every reachable state the pool's frames are all accounted for: free, linked, held or pinned. */
  lemma FramesConserved(s: System, ops: seq<Op>)
    requires Boot(s) && LegalRun(s, ops)
    ensures var t := Run(s, ops); |t.m.free| + |t.o.tables| + |t.o.held| + |t.o.pinned| == 15872
  {
    hide LegalRun, Run;
    BootRunRefines(s, ops);
    PoolSize(Run(s, ops));
  }

  lemma PoolSize(t: System)
    requires SysInv(t)
    ensures |t.m.free| + |t.o.tables| + |t.o.held| + |t.o.pinned| == 15872
  {
    InjectiveSize(t.o.tables);
    PoolCount();
    var used := t.m.free + t.o.tables.Values;
    assert |used| == |t.m.free| + |t.o.tables|;
    assert |used + t.o.held| == |used| + |t.o.held|;
    assert |used + t.o.held + t.o.pinned| == |used + t.o.held| + |t.o.pinned|;
  }
}
