/**
 What allocating and linking tables, and writing last-level entries, does to the forest of
 page tables and to the translations it gives.
 */
module PageOps {
  import opened Bits
  import opened Options
  import opened PageTables

  // ----- Linking one new table -----

  /** Memory after `get_pte` zeroes frame `f` and links it at word `at`. */
  function Linked(mem: seq<word>, f: Frame, at: nat): seq<word>
  {
    Store(Zeroed(mem, f * 512), at, LinkEntry(f))
  }

  ghost predicate CanGrow(m: Machine, o: Owners, s: Slot, i: nat) {
    && Inv(m, o) && IsTable(o, s) && |s.path| < 3 && i < ENTRIES
    && Child(s, i) !in o.tables && m.free != {}
  }

  ghost function Grown(m: Machine, o: Owners, s: Slot, i: nat): (Machine, Owners)
    requires CanGrow(m, o, s, i)
  {
    FrameRange(m, o);
    var f := Min(m.free);
    (m.(free := m.free - {f}, mem := Linked(m.mem, f, Base(o, s) + i)),
     o.(tables := o.tables[Child(s, i) := f]))
  }

  lemma ChildInjective(s: Slot, i: nat, t: Slot, j: nat)
    ensures Child(s, i) == Child(t, j) <==> s == t && i == j
  {
    ChildParent(s, i);
    ChildParent(t, j);
    assert (s.path + [i])[|s.path|] == i && (t.path + [j])[|t.path|] == j;
  }

  lemma ChildParent(s: Slot, i: nat)
    ensures Child(s, i).path != [] && Parent(Child(s, i)) == s
  {
  }

  lemma GrownParts(m: Machine, o: Owners, s: Slot, i: nat)
    requires CanGrow(m, o, s, i)
    ensures Grown(m, o, s, i).1 == o.(tables := o.tables[Child(s, i) := Min(m.free)])
    ensures var m2 := Grown(m, o, s, i).0;
            && |m2.mem| == |m.mem| == WORDS && m2.cur == m.cur
            && m2.free == m.free - {Min(m.free)} && |m2.free| == |m.free| - 1
  {
    hide DirsOk, TablesOk, LinksOk;
  }

  lemma FrameRangeOf(m: Machine, o: Owners)
    requires Inv(m, o)
    ensures |m.mem| == WORDS
    ensures forall f :: f in m.free ==> FIRST_POOL_FRAME <= f
    ensures forall s :: s in o.tables ==> FIRST_POOL_FRAME <= o.tables[s]
  {
    FrameRange(m, o);
  }

  lemma FollowLinkOf(m: Machine, o: Owners, s: Slot, i: nat)
    requires Inv(m, o) && IsTable(o, s) && |s.path| < 3 && i < ENTRIES
    ensures LinkOk(m, o, s, i)
    ensures var entry := Load(m.mem, Base(o, s) + i);
            && (Present(entry) <==> Child(s, i) in o.tables)
            && (Present(entry) ==> Target(entry) == Base(o, Child(s, i)))
            && (!Present(entry) ==> entry == 0)
  {
    assert LinkOk(m, o, s, i);
    FollowLink(m, o, s, i);
  }

  lemma FreeApart(m: Machine, o: Owners, t: Slot, f: Frame)
    requires Inv(m, o) && IsTable(o, t) && f in m.free
    ensures Base(o, t) + ENTRIES <= f * 512 || f * 512 + ENTRIES <= Base(o, t)
  {
    hide TablesOk, LinksOk;
    FrameRange(m, o);
    if t.path == [] {
      DirApartFromFrame(m, o, t.dir, f);
    } else {
      hide DirsOk, Pool;
      assert o.tables[t] in o.tables.Values;
      assert o.tables[t] != f;
    }
  }

  /** Every word of an existing table keeps its value when a table is linked, except the link. */
  lemma GrownWords(m: Machine, o: Owners, s: Slot, i: nat, t: Slot, j: nat)
    requires CanGrow(m, o, s, i) && IsTable(o, t) && j < ENTRIES
    ensures var m2 := Grown(m, o, s, i).0;
            Load(m2.mem, Base(o, t) + j) ==
            if t == s && j == i then LinkEntry(Min(m.free)) else Load(m.mem, Base(o, t) + j)
  {
    hide Inv;
    FrameRangeOf(m, o);
    FreeApart(m, o, t, Min(m.free));
    FreeApart(m, o, s, Min(m.free));
    TableInMemory(m, o, t);
    TableInMemory(m, o, s);
    if t != s {
      TablesApart(m, o, s, t);
    }
  }

  lemma GrownZero(m: Machine, o: Owners, s: Slot, i: nat, j: nat)
    requires CanGrow(m, o, s, i) && j < ENTRIES
    ensures Load(Grown(m, o, s, i).0.mem, Min(m.free) * 512 + j) == 0
  {
    FrameRange(m, o);
    FreeApart(m, o, s, Min(m.free));
    TableInMemory(m, o, s);
  }

  lemma GrownRoles(m: Machine, o: Owners, s: Slot, i: nat)
    requires CanGrow(m, o, s, i)
    ensures var (m2, o2) := Grown(m, o, s, i); RolesOk(m2, o2) && DirsOk(o2)
  {
    hide TablesOk, LinksOk;
    FrameRange(m, o);
    var (m2, o2) := Grown(m, o, s, i);
    var c, f := Child(s, i), Min(m.free);
    ValuesOfUpdate(o.tables, c, f);
    assert m2.free + {f} == m.free;
  }

  lemma ValuesOfUpdate(tables: map<Slot, Frame>, c: Slot, f: Frame)
    requires c !in tables
    ensures tables[c := f].Values == tables.Values + {f}
  {
    var t2 := tables[c := f];
    assert forall t :: t in tables ==> t2[t] == tables[t];
    assert t2[c] == f;
  }

  lemma GrownTables(m: Machine, o: Owners, s: Slot, i: nat)
    requires CanGrow(m, o, s, i)
    ensures TablesOk(Grown(m, o, s, i).1)
  {
    hide DirsOk, LinksOk, Grown;
    GrownParts(m, o, s, i);
    FreshFrame(m, o, Min(m.free));
    hide RolesOk;
    OneMoreTable(o, s, i, Min(m.free));
  }

  /** A child of a table, on a frame of its own, keeps the forest a forest. */
  lemma OneMoreTable(o: Owners, s: Slot, i: nat, f: Frame)
    requires TablesOk(o) && IsTable(o, s) && |s.path| < 3 && i < ENTRIES && Child(s, i) !in o.tables
    requires forall t :: t in o.tables ==> o.tables[t] != f
    ensures TablesOk(o.(tables := o.tables[Child(s, i) := f]))
  {
    hide Child, Parent;
    var c := Child(s, i);
    var o2 := o.(tables := o.tables[c := f]);
    ChildParent(s, i);
    ChildPath(s, i);
    forall t | t in o2.tables
      ensures 1 <= |t.path| <= 3 && t.path[|t.path| - 1] < ENTRIES && IsTable(o2, Parent(t))
    {
      if t != c {
        assert IsTable(o, Parent(t));
      }
    }
    forall t, u | t in o2.tables && u in o2.tables && o2.tables[t] == o2.tables[u]
      ensures t == u
    {
      assert t != c ==> t in o.tables;
      assert u != c ==> u in o.tables;
    }
  }

  lemma ChildPath(s: Slot, i: nat)
    ensures Child(s, i).path == s.path + [i]
  {
  }

  lemma FreshFrame(m: Machine, o: Owners, f: Frame)
    requires RolesOk(m, o) && f in m.free
    ensures forall t :: t in o.tables ==> o.tables[t] != f
  {
  }

  lemma ChildHasTable(m: Machine, o: Owners, t: Slot, j: nat)
    requires Inv(m, o) && Child(t, j) in o.tables
    ensures IsTable(o, t)
  {
    ChildParent(t, j);
  }

  lemma GrownLinkNew(m: Machine, o: Owners, s: Slot, i: nat, j: nat)
    requires CanGrow(m, o, s, i) && j < ENTRIES
    ensures var (m2, o2) := Grown(m, o, s, i); LinkOk(m2, o2, Child(s, i), j)
  {
    hide Inv;
    var c := Child(s, i);
    ChildParent(c, j);
    ChildParent(s, i);
    GrownZero(m, o, s, i, j);
    if Child(c, j) in o.tables {
      ChildHasTable(m, o, c, j);
      assert false;
    }
  }

  lemma GrownLinkOld(m: Machine, o: Owners, s: Slot, i: nat, t: Slot, j: nat)
    requires CanGrow(m, o, s, i) && j < ENTRIES && |t.path| < 3
    requires IsTable(o, t)
    ensures var (m2, o2) := Grown(m, o, s, i); LinkOk(m2, o2, t, j)
  {
    hide Inv, Grown;
    ChildParent(t, j);
    ChildParent(s, i);
    GrownWords(m, o, s, i, t, j);
    FollowLinkOf(m, o, t, j);
    GrownParts(m, o, s, i);
    ChildInjective(t, j, s, i);
    hide Child;
  }

  lemma GrownLinks(m: Machine, o: Owners, s: Slot, i: nat)
    requires CanGrow(m, o, s, i)
    ensures var (m2, o2) := Grown(m, o, s, i); LinksOk(m2, o2)
  {
    var (m2, o2) := Grown(m, o, s, i);
    forall t: Slot, j: nat | IsTable(o2, t) && |t.path| < 3 && j < ENTRIES
      ensures LinkOk(m2, o2, t, j)
    {
      ChildParent(s, i);
      if t == Child(s, i) {
        GrownLinkNew(m, o, s, i, j);
      } else {
        GrownLinkOld(m, o, s, i, t, j);
      }
    }
  }

  lemma GrowLeaf(m: Machine, o: Owners, s: Slot, i: nat, dir: nat, page: Page)
    requires CanGrow(m, o, s, i)
    ensures var (m2, o2) := Grown(m, o, s, i); Leaf(m2, o2, dir, page) == Leaf(m, o, dir, page)
  {
    hide Inv;
    var t := SlotOf(dir, page, 3);
    ChildParent(s, i);
    if t in o.tables {
      assert t != Child(s, i);
      GrownWords(m, o, s, i, t, page[3]);
    } else if t == Child(s, i) {
      GrownZero(m, o, s, i, page[3]);
    }
  }

  lemma GrowTranslate(m: Machine, o: Owners, s: Slot, i: nat, dir: nat, page: Page)
    requires CanGrow(m, o, s, i) && dir in o.dirs
    requires var (m2, o2) := Grown(m, o, s, i); Inv(m2, o2)
    ensures Translate(Grown(m, o, s, i).0.mem, dir, page) == Translate(m.mem, dir, page)
  {
    var (m2, o2) := Grown(m, o, s, i);
    TranslateIs(m, o, dir, page);
    TranslateIs(m2, o2, dir, page);
    GrowLeaf(m, o, s, i, dir, page);
  }

  /** A newly linked table keeps the invariant and changes no translation anywhere. */
  lemma GrowKeeps(m: Machine, o: Owners, s: Slot, i: nat)
    requires CanGrow(m, o, s, i)
    ensures var (m2, o2) := Grown(m, o, s, i);
            Inv(m2, o2) && SameMeaning(m, o, m2, o2) && |m2.free| == |m.free| - 1
  {
    hide Grown, Translate, RolesOk, DirsOk, TablesOk, LinksOk;
    GrownParts(m, o, s, i);
    GrownRoles(m, o, s, i);
    GrownTables(m, o, s, i);
    GrownLinks(m, o, s, i);
    hide Inv, CanGrow;
    GrowTranslates(m, o, s, i);
  }

  lemma GrowTranslates(m: Machine, o: Owners, s: Slot, i: nat)
    requires CanGrow(m, o, s, i)
    requires var (m2, o2) := Grown(m, o, s, i); Inv(m2, o2)
    ensures var m2 := Grown(m, o, s, i).0;
            forall dir: nat, page: Page :: dir in o.dirs ==> Translate(m2.mem, dir, page) == Translate(m.mem, dir, page)
  {
    hide Inv, Grown, Translate;
    var m2 := Grown(m, o, s, i).0;
    forall dir: nat, page: Page | dir in o.dirs
      ensures Translate(m2.mem, dir, page) == Translate(m.mem, dir, page)
    {
      GrowTranslate(m, o, s, i, dir, page);
    }
  }

  /** Same clients, same directories, at least the same tables, and the same translations. */
  ghost predicate SameMeaning(m: Machine, o: Owners, m2: Machine, o2: Owners) {
    && m2.cur == m.cur
    && o2.dirs == o.dirs && o2.held == o.held && o2.pinned == o.pinned
    && (forall s :: s in o.tables ==> s in o2.tables && o2.tables[s] == o.tables[s])
    && (forall dir: nat, page: Page :: dir in o.dirs ==> Translate(m2.mem, dir, page) == Translate(m.mem, dir, page))
  }

  // ----- The allocating walk -----

  /** The forest after one level of `get_pte`. */
  ghost function NextOwners(m: Machine, o: Owners, s: Slot, i: nat, create: bool): Owners {
    if Child(s, i) in o.tables || !create || m.free == {} then o
    else o.(tables := o.tables[Child(s, i) := Min(m.free)])
  }

  lemma NextIsGrown(m: Machine, o: Owners, s: Slot, i: nat)
    requires CanGrow(m, o, s, i)
    ensures NextTable(m, Base(o, s), i, true) == Walked(Grown(m, o, s, i).0, Some(Min(m.free) * 512))
    ensures NextOwners(m, o, s, i, true) == Grown(m, o, s, i).1
  {
    hide Inv;
    FollowLinkOf(m, o, s, i);
    FrameRangeOf(m, o);
    TableInMemory(m, o, s);
    var f := Min(m.free);
    assert AllocPage(m) == (m.(free := m.free - {f}), f as nat * 4096) && f != 0;
    assert f as nat * 4096 / 8 == f as nat * 512 && f as nat * 4096 / 4096 == f;
    LinkTarget(f);
  }

  lemma LinkTarget(f: Frame)
    ensures Target(LinkEntry(f)) == f as nat * 512
  {
  }

  /** One level of `get_pte` links at most one table and reports the child slot's table. */
  lemma NextStep(m: Machine, o: Owners, s: Slot, i: nat, create: bool)
    requires Inv(m, o) && IsTable(o, s) && |s.path| < 3 && i < ENTRIES
    ensures var w, o2, c := NextTable(m, Base(o, s), i, create), NextOwners(m, o, s, i, create), Child(s, i);
            && Inv(w.m, o2) && SameMeaning(m, o, w.m, o2)
            && w.loc == (if c in o2.tables then Some(Base(o2, c)) else None)
            && (c in o2.tables <==> c in o.tables || (create && m.free != {}))
            && |w.m.free| == |m.free| - (if c in o2.tables && c !in o.tables then 1 else 0)
            && (!create ==> w.m == m && o2 == o)
  {
    ChildParent(s, i);
    if Child(s, i) in o.tables || !create || m.free == {} {
      FollowLink(m, o, s, i);
    } else {
      NextIsGrown(m, o, s, i);
      GrowKeeps(m, o, s, i);
    }
  }

  /** The forest after the first `depth` levels. */
  ghost function WalkOwners(m: Machine, o: Owners, page: Page, depth: nat, create: bool): Owners
    requires depth <= 3
  {
    if depth == 0 then o
    else
      var w, o1 := WalkTo(m, page, depth - 1, create), WalkOwners(m, o, page, depth - 1, create);
      if w.loc.None? then o1
      else NextOwners(w.m, o1, SlotOf(m.cur, page, depth - 1), page[depth - 1], create)
  }

  /** How many tables are missing among the first `depth` levels below the directory. */
  function Missing(o: Owners, dir: nat, page: Page, depth: nat): (k: nat)
    requires depth <= 3
    ensures k <= depth
  {
    if depth == 0 then 0
    else Missing(o, dir, page, depth - 1) + (if SlotOf(dir, page, depth) in o.tables then 0 else 1)
  }

  /** What `get_pte` has done after some levels of its walk. */
  ghost predicate WalkDone(m: Machine, o: Owners, page: Page, depth: nat, create: bool, w: Walked, o2: Owners)
    requires depth <= 3
  {
    var k, s := Missing(o, m.cur, page, depth), SlotOf(m.cur, page, depth);
    && SameMeaning(m, o, w.m, o2)
    && w.loc == (if IsTable(o2, s) then Some(Base(o2, s)) else None)
    && (w.loc.Some? <==> k <= if create then |m.free| else 0)
    && |w.m.free| == |m.free| - (if !create then 0 else if k <= |m.free| then k else |m.free|)
    && (!create ==> w.m == m && o2 == o)
    && (forall t :: t in o2.tables && t !in o.tables ==> |t.path| <= depth)
  }

  /**
   The allocating walk, however far it gets before frames run out: the invariant and every
   translation survive, the frames taken are the missing tables (all the free ones if there are
   too few), and it succeeds exactly when there are enough. Without `create` nothing changes.
   */
  lemma {:induction false} WalkStep(m: Machine, o: Owners, page: Page, depth: nat, create: bool)
    requires Inv(m, o) && m.cur in o.dirs && depth <= 3
    ensures var w, o2 := WalkTo(m, page, depth, create), WalkOwners(m, o, page, depth, create);
            Inv(w.m, o2) && WalkDone(m, o, page, depth, create, w, o2)
  {
    if depth == 0 {
      assert page[..0] == [];
    } else {
      WalkStep(m, o, page, depth - 1, create);
      WalkExtend(m, o, page, depth - 1, create);
    }
  }

  lemma WalkExtend(m: Machine, o: Owners, page: Page, depth: nat, create: bool)
    requires depth < 3
    requires var w, o1 := WalkTo(m, page, depth, create), WalkOwners(m, o, page, depth, create);
             Inv(w.m, o1) && WalkDone(m, o, page, depth, create, w, o1)
    ensures var w, o2 := WalkTo(m, page, depth + 1, create), WalkOwners(m, o, page, depth + 1, create);
            Inv(w.m, o2) && WalkDone(m, o, page, depth + 1, create, w, o2)
  {
    var w, o1 := WalkTo(m, page, depth, create), WalkOwners(m, o, page, depth, create);
    if w.loc.Some? {
      WalkNext(m, o, page, depth, create, w, o1);
    } else {
      WalkStuck(m, o, page, depth, create, w, o1);
    }
  }

  lemma WalkStuck(m: Machine, o: Owners, page: Page, depth: nat, create: bool, w: Walked, o1: Owners)
    requires depth < 3 && Inv(w.m, o1) && WalkDone(m, o, page, depth, create, w, o1) && w.loc.None?
    ensures WalkDone(m, o, page, depth + 1, create, w, o1)
  {
    hide Inv, SameMeaning;
    SlotStep(m.cur, page, depth);
    NoChild(w.m, o1, SlotOf(m.cur, page, depth), page[depth]);
  }

  lemma NoChild(m: Machine, o: Owners, s: Slot, i: nat)
    requires Inv(m, o) && !IsTable(o, s)
    ensures !IsTable(o, Child(s, i))
  {
    ChildParent(s, i);
    if Child(s, i) in o.tables {
      ChildHasTable(m, o, s, i);
      assert false;
    }
  }

  lemma WalkNext(m: Machine, o: Owners, page: Page, depth: nat, create: bool, w: Walked, o1: Owners)
    requires depth < 3 && Inv(w.m, o1) && WalkDone(m, o, page, depth, create, w, o1) && w.loc.Some?
    ensures var w2 := NextTable(w.m, w.loc.value, page[depth], create);
            var o2 := NextOwners(w.m, o1, SlotOf(m.cur, page, depth), page[depth], create);
            Inv(w2.m, o2) && WalkDone(m, o, page, depth + 1, create, w2, o2)
  {
    hide Inv, Translate, NextTable, NextOwners;
    var s, i := SlotOf(m.cur, page, depth), page[depth];
    var w2, o2 := NextTable(w.m, w.loc.value, i, create), NextOwners(w.m, o1, s, i, create);
    SlotStep(m.cur, page, depth);
    NextStep(w.m, o1, s, i, create);
    SameMeaningTransitive(m, o, w.m, o1, w2.m, o2);
    NextTables(w.m, o1, s, i, create);
    assert |Child(s, i).path| == depth + 1;
  }

  lemma NextTables(m: Machine, o: Owners, s: Slot, i: nat, create: bool)
    ensures var o2 := NextOwners(m, o, s, i, create);
            forall t :: t in o2.tables ==> t in o.tables || t == Child(s, i)
  {
  }

  lemma SameMeaningTransitive(m: Machine, o: Owners, m1: Machine, o1: Owners, m2: Machine, o2: Owners)
    requires SameMeaning(m, o, m1, o1) && SameMeaning(m1, o1, m2, o2)
    ensures SameMeaning(m, o, m2, o2)
  {
  }

  // ----- Where the walk stores -----

  /** A word of memory outside the pool and outside the current directory. */
  predicate Untouchable(m: Machine, at: nat) {
    !InPool(at / 512) && !(m.cur <= at < m.cur + ENTRIES)
  }

  lemma PoolTableApart(m: Machine, o: Owners, t: Slot, at: nat)
    requires Inv(m, o) && IsTable(o, t) && (t.path == [] ==> t.dir == m.cur) && Untouchable(m, at)
    ensures !(Base(o, t) <= at < Base(o, t) + ENTRIES)
  {
    FrameRange(m, o);
    hide Inv;
    if t.path != [] {
      var f := o.tables[t];
      assert InPool(f) && at / 512 != f;
    }
  }

  lemma NextKeepsWord(m: Machine, o: Owners, s: Slot, i: nat, create: bool, at: nat)
    requires Inv(m, o) && IsTable(o, s) && (s.path == [] ==> s.dir == m.cur) && |s.path| < 3 && i < ENTRIES
    requires Untouchable(m, at)
    ensures Load(NextTable(m, Base(o, s), i, create).m.mem, at) == Load(m.mem, at)
  {
    hide Inv, NextTable, Zeroed, Store;
    PoolTableApart(m, o, s, at);
    if Child(s, i) in o.tables || !create || m.free == {} {
      NextStep(m, o, s, i, create);
      NextUnchanged(m, o, s, i, create);
    } else {
      NextIsGrown(m, o, s, i);
      GrownKeepsWord(m, o, s, i, at);
    }
  }

  lemma NextUnchanged(m: Machine, o: Owners, s: Slot, i: nat, create: bool)
    requires Inv(m, o) && IsTable(o, s) && |s.path| < 3 && i < ENTRIES
    requires Child(s, i) in o.tables || !create || m.free == {}
    ensures NextTable(m, Base(o, s), i, create).m == m
  {
    hide Inv;
    FollowLinkOf(m, o, s, i);
  }

  lemma GrownKeepsWord(m: Machine, o: Owners, s: Slot, i: nat, at: nat)
    requires CanGrow(m, o, s, i) && Untouchable(m, at) && at != Base(o, s) + i
    ensures Load(Grown(m, o, s, i).0.mem, at) == Load(m.mem, at)
  {
    FrameRange(m, o);
    hide Inv;
    var f := Min(m.free);
    assert InPool(f) && at / 512 != f;
  }

  /** However far `get_pte` walks, it stores only to the current directory and to frames of the pool. */
  lemma {:induction false} WalkKeepsWord(m: Machine, o: Owners, page: Page, depth: nat, create: bool, at: nat)
    requires Inv(m, o) && m.cur in o.dirs && depth <= 3 && Untouchable(m, at)
    ensures Load(WalkTo(m, page, depth, create).m.mem, at) == Load(m.mem, at)
  {
    hide Inv, NextTable, Missing;
    if depth > 0 {
      WalkKeepsWord(m, o, page, depth - 1, create, at);
      WalkStep(m, o, page, depth - 1, create);
      var w, o1 := WalkTo(m, page, depth - 1, create), WalkOwners(m, o, page, depth - 1, create);
      if w.loc.Some? {
        NextKeepsWord(w.m, o1, SlotOf(m.cur, page, depth - 1), page[depth - 1], create, at);
      }
    }
  }

  // ----- Last-level entries -----

  /** `m2` differs from `m`, in what directories `dirs` mean, at one page of `dir` only. */
  ghost predicate OnePage(m: Machine, m2: Machine, dirs: set<nat>, dir: nat, page: Page, r: Option<word>) {
    forall d: nat, p: Page :: d in dirs ==>
      Translate(m2.mem, d, p) == if d == dir && p == page then r else Translate(m.mem, d, p)
  }

  function EntryMeaning(v: word): Option<word> {
    if Present(v) then Some(v) else None
  }

  /** Writing the entry of one page changes the translation of that page only. */
  lemma LeafStore(m: Machine, o: Owners, dir: nat, page: Page, v: word)
    requires Inv(m, o) && dir in o.dirs && SlotOf(dir, page, 3) in o.tables
    ensures var m2 := m.(mem := Store(m.mem, Base(o, SlotOf(dir, page, 3)) + page[3], v));
            Inv(m2, o) && OnePage(m, m2, o.dirs, dir, page, EntryMeaning(v))
  {
    var m2 := m.(mem := Store(m.mem, Base(o, SlotOf(dir, page, 3)) + page[3], v));
    LeafStoreInv(m, o, dir, page, v);
    forall d: nat, p: Page | d in o.dirs
      ensures Translate(m2.mem, d, p) == if d == dir && p == page then EntryMeaning(v) else Translate(m.mem, d, p)
    {
      LeafStoreTranslate(m, o, dir, page, v, d, p);
    }
  }

  lemma LeafStoreInv(m: Machine, o: Owners, dir: nat, page: Page, v: word)
    requires Inv(m, o) && dir in o.dirs && SlotOf(dir, page, 3) in o.tables
    ensures Inv(m.(mem := Store(m.mem, Base(o, SlotOf(dir, page, 3)) + page[3], v)), o)
  {
    hide LinkOk;
    var s := SlotOf(dir, page, 3);
    var m2 := m.(mem := Store(m.mem, Base(o, s) + page[3], v));
    forall t: Slot, j: nat | IsTable(o, t) && |t.path| < 3 && j < ENTRIES
      ensures LinkOk(m2, o, t, j)
    {
      LeafStoreLink(m, o, s, page[3], v, t, j);
    }
  }

  lemma LeafStoreLink(m: Machine, o: Owners, s: Slot, i: nat, v: word, t: Slot, j: nat)
    requires Inv(m, o) && IsTable(o, s) && |s.path| == 3 && i < ENTRIES
    requires IsTable(o, t) && |t.path| < 3 && j < ENTRIES
    ensures LinkOk(m.(mem := Store(m.mem, Base(o, s) + i, v)), o, t, j)
  {
    hide Inv;
    TablesApart(m, o, s, t);
    TableInMemory(m, o, t);
    FollowLinkOf(m, o, t, j);
  }

  lemma LeafStoreTranslate(m: Machine, o: Owners, dir: nat, page: Page, v: word, d: nat, p: Page)
    requires Inv(m, o) && dir in o.dirs && SlotOf(dir, page, 3) in o.tables && d in o.dirs
    ensures var m2 := m.(mem := Store(m.mem, Base(o, SlotOf(dir, page, 3)) + page[3], v));
            Translate(m2.mem, d, p) == if d == dir && p == page then EntryMeaning(v) else Translate(m.mem, d, p)
  {
    hide Inv, Translate;
    var s, t := SlotOf(dir, page, 3), SlotOf(d, p, 3);
    var m2 := m.(mem := Store(m.mem, Base(o, s) + page[3], v));
    LeafStoreInv(m, o, dir, page, v);
    TranslateIs(m, o, d, p);
    TranslateIs(m2, o, d, p);
    LastLevelSlot(o, d, p);
    FrameRangeOf(m, o);
    if t in o.tables {
      TableInMemory(m, o, t);
      PageSplit(page, p);
      if t != s {
        TablesApart(m, o, s, t);
      }
    }
  }

  lemma LastLevelSlot(o: Owners, d: nat, p: Page)
    ensures IsTable(o, SlotOf(d, p, 3)) <==> SlotOf(d, p, 3) in o.tables
  {
    assert |p[..3]| == 3;
  }

  lemma PageSplit(p: Page, q: Page)
    ensures p == q <==> p[..3] == q[..3] && p[3] == q[3]
  {
  }
}
