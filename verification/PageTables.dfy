/**
 Four-level page tables in raw physical memory (kernel/mm/paging.c).

 Physical memory is a sequence of 64-bit words; a table is any run of 512 words. A table entry
 holds `frame * 4096 + flags` with bit 0 the present bit. The walk is the one the processor
 performs from a page-aligned directory (Intel SDM Vol. 3A, section 4.5); the allocating walk is
 `get_pte`, which takes a directory at any word.

 `Owners` names the role of every frame. Its map `tables` gives the frame of the table that
 serves each `Slot`: a directory, a depth, and the virtual-page prefix that selects the table.
 The invariant `Inv` ties that map to the words in memory.
 */
module PageTables {
  import opened Bits
  import opened Options

  const FRAMES: nat := 16384
  const FIRST_POOL_FRAME: nat := 512
  const ENTRIES: nat := 512
  const WORDS: nat := 0x80_0000
  const PAGE_COUNT: nat := 0x10_0000_0000

  // ----- The machine -----

  type Frame = f: nat | f < FRAMES

  datatype Machine = Machine(free: set<Frame>, mem: seq<word>, cur: nat)

  predicate Present(entry: word) {
    entry % 2 == 1
  }

  /** The word index of the table an entry points to. */
  function Target(entry: word): nat {
    entry / 4096 * 512
  }

  /** The entry that links a table frame: present, writable, user. */
  function LinkEntry(frame: Frame): word
  {
    frame * 4096 + 7
  }

  /** The entry written for a page: the address with its low bits cleared, the flags, present. */
  function LeafEntry(phys: word, flags: word): (entry: word)
    ensures Present(entry)
    ensures entry / 4096 == phys / 4096
    ensures entry % 4096 / 2 == flags % 4096 / 2
  {
    phys / 4096 * 4096 + flags % 4096 / 2 * 2 + 1
  }

  function Load(mem: seq<word>, a: nat): word {
    if a < |mem| then mem[a] else 0
  }

  function Store(mem: seq<word>, a: nat, v: word): (r: seq<word>)
    ensures |r| == |mem|
    ensures forall b: nat {:trigger Load(r, b)} :: b < |mem| ==> Load(r, b) == if b == a then v else Load(mem, b)
  {
    if a < |mem| then mem[a := v] else mem
  }

  function Zeroed(mem: seq<word>, base: nat): (r: seq<word>)
    ensures |r| == |mem|
    ensures forall b: nat {:trigger Load(r, b)} :: b < |mem| ==>
              Load(r, b) == if base <= b < base + ENTRIES then 0 else Load(mem, b)
  {
    seq(|mem|, i requires 0 <= i < |mem| => if base <= i < base + ENTRIES then 0 else mem[i])
  }

  // ----- Virtual addresses -----

  /** A virtual page, as the four table indices that select it. */
  type Page = p: seq<nat> | |p| == 4 && forall d :: 0 <= d < 4 ==> p[d] < ENTRIES witness [0, 0, 0, 0]

  function PageOf(virt: word): Page {
    [virt / 0x80_0000_0000 % 512, virt / 0x4000_0000 % 512, virt / 0x20_0000 % 512, virt / 0x1000 % 512]
  }

  /** The virtual page number: bits 12..47 of the address. */
  function Vpn(virt: word): nat {
    virt / 4096 % PAGE_COUNT
  }

  /** The four indices determine, and are determined by, bits 12..47. */
  lemma PageIsVpn(v: word, w: word)
    ensures PageOf(v) == PageOf(w) <==> Vpn(v) == Vpn(w)
  {
    VpnFromIndices(v);
    VpnFromIndices(w);
    if Vpn(v) == Vpn(w) {
      IndicesFromVpn(v);
      IndicesFromVpn(w);
    }
  }

  lemma VpnFromIndices(v: word)
    ensures Vpn(v) == ((PageOf(v)[0] * 512 + PageOf(v)[1]) * 512 + PageOf(v)[2]) * 512 + PageOf(v)[3]
  {
    IndicesFromVpn(v);
    Split512(Vpn(v));
  }

  lemma Split512(n: nat)
    ensures n == ((n / 0x800_0000 * 512 + n / 0x4_0000 % 512) * 512 + n / 0x200 % 512) * 512 + n % 512
  {
    DivDiv(n, 0x200, 0x200);
    DivDiv(n, 0x4_0000, 0x200);
  }

  lemma IndicesFromVpn(v: word)
    ensures PageOf(v)[0] == Vpn(v) / 0x800_0000
    ensures PageOf(v)[1] == Vpn(v) / 0x4_0000 % 512
    ensures PageOf(v)[2] == Vpn(v) / 0x200 % 512
    ensures PageOf(v)[3] == Vpn(v) % 512
  {
    var n := v / 4096;
    DivDiv(v, 4096, 0x200);
    DivDiv(v, 4096, 0x4_0000);
    DivDiv(v, 4096, 0x800_0000);
    ShiftOfLow(n, 0x800_0000, 512);
    ShiftOfLow(n, 0x4_0000, 0x4_0000);
    ShiftOfLow(n, 0x200, 0x800_0000);
    ShiftOfLow(n, 1, PAGE_COUNT);
    ModOfMod(n / 0x4_0000, 512, 512);
    ModOfMod(n / 0x200, 512, 0x4_0000);
    ModOfMod(n, 512, 0x800_0000);
  }

  /** Dropping low bits of a truncated value is truncating the shifted value. */
  lemma ShiftOfLow(n: nat, a: nat, b: nat)
    requires a > 0 && b > 0
    ensures a * b > 0 && n % (a * b) / a == n / a % b
  {
    var q, q', r := n / a / b, n / a % b, n % a;
    assert n == a * (b * q + q') + r == (a * b) * q + (a * q' + r) by {
      assert (a * b) * q == a * (b * q);
    }
    MulGap(a, q', b);
    ModUnique(n, a * b, q, a * q' + r);
    ModUnique(a * q' + r, a, q', r);
  }

  lemma ModOfMod(n: nat, a: nat, b: nat)
    requires a > 0 && b > 0
    ensures a * b > 0 && n % (a * b) % a == n % a
  {
    var q, q', r := n / a / b, n / a % b, n % a;
    assert n == a * (b * q + q') + r == (a * b) * q + (a * q' + r) by {
      assert (a * b) * q == a * (b * q);
    }
    MulGap(a, q', b);
    ModUnique(n, a * b, q, a * q' + r);
    ModUnique(a * q' + r, a, q', r);
  }

  // ----- The processor's walk -----

  /** The table a walk reaches at `depth` (0 is the directory), if every entry above it is present. */
  function TableAt(mem: seq<word>, dir: nat, page: Page, depth: nat): Option<nat>
    requires depth <= 3
  {
    if depth == 0 then Some(dir)
    else
      match TableAt(mem, dir, page, depth - 1)
      case None => None
      case Some(base) =>
        var entry := Load(mem, base + page[depth - 1]);
        if Present(entry) then Some(Target(entry)) else None
  }

  /** The translation of a virtual page under a directory. */
  function Translate(mem: seq<word>, dir: nat, page: Page): Option<word> {
    match TableAt(mem, dir, page, 3)
    case None => None
    case Some(base) =>
      var entry := Load(mem, base + page[3]);
      if Present(entry) then Some(entry) else None
  }

  /**
   The walk written out: four entries, found by bits 39..47, 30..38, 21..29 and 12..20 of the address,
   each of which must have bit 0 set and gives the next table by its bits from 12 up.
   */
  lemma TranslateSteps(mem: seq<word>, dir: nat, virt: word)
    ensures var e0 := Load(mem, dir + virt / 0x80_0000_0000 % 512);
            var e1 := Load(mem, e0 / 4096 * 512 + virt / 0x4000_0000 % 512);
            var e2 := Load(mem, e1 / 4096 * 512 + virt / 0x20_0000 % 512);
            var e3 := Load(mem, e2 / 4096 * 512 + virt / 0x1000 % 512);
            Translate(mem, dir, PageOf(virt)) ==
            if e0 % 2 == 1 && e1 % 2 == 1 && e2 % 2 == 1 && e3 % 2 == 1 then Some(e3) else None
  {
    var page := PageOf(virt);
    assert TableAt(mem, dir, page, 0) == Some(dir);
    var t1, t2 := TableAt(mem, dir, page, 1), TableAt(mem, dir, page, 2);
    assert t1.None? ==> t2.None?;
    assert t2.None? ==> TableAt(mem, dir, page, 3).None?;
  }

  // ----- The frame allocator -----

  ghost predicate IsMin(s: set<Frame>, x: Frame) {
    x in s && forall y :: y in s ==> x <= y
  }

  lemma {:induction false} MinExists(s: set<Frame>)
    requires s != {}
    ensures exists x :: IsMin(s, x)
  {
    var x :| x in s;
    if s == {x} {
      assert IsMin(s, x);
    } else {
      var rest := s - {x};
      assert s == rest + {x};
      MinExists(rest);
      var y :| IsMin(rest, y);
      assert IsMin(s, if y < x then y else x);
    }
  }

  ghost function Min(s: set<Frame>): (x: Frame)
    requires s != {}
    ensures IsMin(s, x)
  {
    MinExists(s);
    var x :| IsMin(s, x);
    x
  }

  /** `mm_alloc_page`: the lowest free frame, as a physical address; 0 when there is none. */
  ghost function AllocPage(m: Machine): (Machine, word) {
    if m.free == {} then (m, 0)
    else (m.(free := m.free - {Min(m.free)}), Min(m.free) as nat * 4096)
  }

  datatype Walked = Walked(m: Machine, loc: Option<nat>)

  /** One level of `get_pte`: the table the entry points to, allocated and linked if asked for. */
  ghost function NextTable(m: Machine, base: nat, index: nat, create: bool): Walked
  {
    var entry := Load(m.mem, base + index);
    if Present(entry) then Walked(m, Some(Target(entry)))
    else if !create then Walked(m, None)
    else
      var (m1, phys) := AllocPage(m);
      if phys == 0 then Walked(m1, None)
      else
        var zeroed := Zeroed(m1.mem, phys / 8);
        var linked := Store(zeroed, base + index, LinkEntry(phys / 4096));
        Walked(m1.(mem := linked), Some(Target(Load(linked, base + index))))
  }

  /** The first `depth` levels of `get_pte` from the current directory. */
  ghost function WalkTo(m: Machine, page: Page, depth: nat, create: bool): Walked
    requires depth <= 3
  {
    if depth == 0 then Walked(m, Some(m.cur))
    else
      var w := WalkTo(m, page, depth - 1, create);
      if w.loc.None? then w else NextTable(w.m, w.loc.value, page[depth - 1], create)
  }

  /** `get_pte`: the word index of the entry for a virtual page. */
  ghost function GetPte(m: Machine, page: Page, create: bool): Walked
  {
    var w := WalkTo(m, page, 3, create);
    if w.loc.None? then w else Walked(w.m, Some(w.loc.value + page[3]))
  }

  // ----- Ownership -----

  /** The place of a table: its directory and the indices that lead to it. */
  datatype Slot = Slot(dir: nat, path: seq<nat>)

  datatype Owners = Owners(
    dirs: set<nat>,          // word indices of the page directories
    tables: map<Slot, Frame>, // the frame of each linked table
    held: set<Frame>,        // frames handed out by `mm_alloc_page`
    pinned: set<Frame>)      // pool frames that a client turned into a directory

  function SlotOf(dir: nat, page: Page, depth: nat): Slot
    requires depth <= 3
  {
    Slot(dir, page[..depth])
  }

  function Child(s: Slot, i: nat): Slot {
    Slot(s.dir, s.path + [i])
  }

  function Parent(s: Slot): Slot
    requires s.path != []
  {
    Slot(s.dir, s.path[..|s.path| - 1])
  }

  lemma SlotStep(dir: nat, page: Page, depth: nat)
    requires depth < 3
    ensures Child(SlotOf(dir, page, depth), page[depth]) == SlotOf(dir, page, depth + 1)
    ensures Parent(SlotOf(dir, page, depth + 1)) == SlotOf(dir, page, depth)
  {
  }

  predicate IsTable(o: Owners, s: Slot) {
    if s.path == [] then s.dir in o.dirs else s in o.tables
  }

  function Base(o: Owners, s: Slot): nat
    requires IsTable(o, s)
  {
    if s.path == [] then s.dir else o.tables[s] as nat * 512
  }

  predicate InPool(f: nat) {
    FIRST_POOL_FRAME <= f < FRAMES
  }

  ghost function Pool(): set<Frame> {
    set f: Frame | f < FRAMES && InPool(f)
  }

  /** Every pool frame has exactly one role. */
  ghost predicate RolesOk(m: Machine, o: Owners) {
    && m.free + o.tables.Values + o.held + o.pinned == Pool()
    && m.free !! o.tables.Values !! o.held !! o.pinned
  }

  predicate OutsidePool(o: Owners, f: nat) {
    f < FIRST_POOL_FRAME || f in o.pinned
  }

  /** Directories lie in memory, away from each other and from every frame in use. */
  ghost predicate DirsOk(o: Owners) {
    && (forall d :: d in o.dirs ==> d + ENTRIES <= WORDS && OutsidePool(o, d / 512) && OutsidePool(o, (d + 511) / 512))
    && (forall d, e :: d in o.dirs && e in o.dirs && d != e ==> d + ENTRIES <= e || e + ENTRIES <= d)
  }

  /** Tables form a forest under the directories, and no frame serves two slots. */
  ghost predicate TablesOk(o: Owners) {
    && (forall s :: s in o.tables ==> 1 <= |s.path| <= 3 && s.path[|s.path| - 1] < ENTRIES && IsTable(o, Parent(s)))
    && (forall s, t :: s in o.tables && t in o.tables && o.tables[s] == o.tables[t] ==> s == t)
  }

  /** Entry `i` of an upper-level table links exactly the table of that slot, or is zero. */
  ghost predicate LinkOk(m: Machine, o: Owners, s: Slot, i: nat)
    requires IsTable(o, s)
  {
    var entry := Load(m.mem, Base(o, s) + i);
    if Child(s, i) in o.tables
    then entry == LinkEntry(o.tables[Child(s, i)])
    else entry == 0
  }

  ghost predicate LinksOk(m: Machine, o: Owners) {
    forall s: Slot, i: nat :: IsTable(o, s) && |s.path| < 3 && i < ENTRIES ==> LinkOk(m, o, s, i)
  }

  ghost predicate Inv(m: Machine, o: Owners) {
    && |m.mem| == WORDS
    && RolesOk(m, o)
    && DirsOk(o)
    && TablesOk(o)
    && LinksOk(m, o)
  }

  lemma FrameRange(m: Machine, o: Owners)
    requires RolesOk(m, o)
    ensures forall f :: f in m.free ==> FIRST_POOL_FRAME <= f < FRAMES
    ensures forall s :: s in o.tables ==> FIRST_POOL_FRAME <= o.tables[s] < FRAMES && o.tables[s] in o.tables.Values
  {
    assert forall f :: f in m.free ==> f in Pool();
    forall s | s in o.tables
      ensures FIRST_POOL_FRAME <= o.tables[s] < FRAMES && o.tables[s] in o.tables.Values
    {
      assert o.tables[s] in o.tables.Values;
      assert o.tables[s] in Pool();
    }
  }

  /** Distinct tables occupy disjoint words. */
  lemma TablesApart(m: Machine, o: Owners, s: Slot, t: Slot)
    requires Inv(m, o) && IsTable(o, s) && IsTable(o, t) && s != t
    ensures Base(o, s) + ENTRIES <= Base(o, t) || Base(o, t) + ENTRIES <= Base(o, s)
  {
    FrameRange(m, o);
    if s.path == [] && t.path == [] {
      assert s.dir != t.dir;
    } else if s.path == [] {
      DirApartFromFrame(m, o, s.dir, o.tables[t]);
    } else if t.path == [] {
      DirApartFromFrame(m, o, t.dir, o.tables[s]);
    }
  }

  lemma DirApartFromFrame(m: Machine, o: Owners, d: nat, f: nat)
    requires RolesOk(m, o) && DirsOk(o)
    requires d in o.dirs && f !in o.pinned && FIRST_POOL_FRAME <= f
    ensures d + ENTRIES <= f * 512 || f * 512 + ENTRIES <= d
  {
  }

  lemma TableInMemory(m: Machine, o: Owners, s: Slot)
    requires Inv(m, o) && IsTable(o, s)
    ensures Base(o, s) + ENTRIES <= WORDS
  {
  }

  // ----- The walk reads the forest -----

  /** Following an upper-level entry reaches the table of the child slot, if there is one. */
  lemma FollowLink(m: Machine, o: Owners, s: Slot, i: nat)
    requires LinksOk(m, o) && IsTable(o, s) && |s.path| < 3 && i < ENTRIES
    ensures var entry := Load(m.mem, Base(o, s) + i);
            && (Present(entry) <==> Child(s, i) in o.tables)
            && (Present(entry) ==> Target(entry) == Base(o, Child(s, i)))
            && (!Present(entry) ==> entry == 0)
  {
    assert LinkOk(m, o, s, i);
  }

  lemma {:induction false} TableAtIs(m: Machine, o: Owners, dir: nat, page: Page, depth: nat)
    requires Inv(m, o) && dir in o.dirs && depth <= 3
    ensures TableAt(m.mem, dir, page, depth) ==
            if IsTable(o, SlotOf(dir, page, depth)) then Some(Base(o, SlotOf(dir, page, depth))) else None
  {
    hide Inv, Child, Parent, Base, IsTable, SlotOf, Present, Target;
    if depth == 0 {
      RootSlot(o, dir, page);
    } else {
      TableAtIs(m, o, dir, page, depth - 1);
      ShortPath(dir, page, depth - 1);
      TableBelow(m, o, SlotOf(dir, page, depth - 1), page[depth - 1]);
      SlotStep(dir, page, depth - 1);
    }
  }

  lemma RootSlot(o: Owners, dir: nat, page: Page)
    requires dir in o.dirs
    ensures IsTable(o, SlotOf(dir, page, 0)) && Base(o, SlotOf(dir, page, 0)) == dir
  {
    assert page[..0] == [];
  }

  lemma ShortPath(dir: nat, page: Page, depth: nat)
    requires depth <= 3
    ensures |SlotOf(dir, page, depth).path| == depth
  {
  }

  /** One step of the walk: the entry of a table leads to the child's table, and without a table there is no child. */
  lemma TableBelow(m: Machine, o: Owners, s: Slot, i: nat)
    requires Inv(m, o) && |s.path| < 3 && i < ENTRIES
    ensures IsTable(o, s) ==>
              var entry := Load(m.mem, Base(o, s) + i);
              if Present(entry) then IsTable(o, Child(s, i)) && Target(entry) == Base(o, Child(s, i))
              else !IsTable(o, Child(s, i))
    ensures !IsTable(o, s) ==> !IsTable(o, Child(s, i))
  {
    hide RolesOk, DirsOk, LinkOk;
    if IsTable(o, s) {
      FollowLink(m, o, s, i);
    }
    assert Parent(Child(s, i)) == s;
  }

  /** What the forest says a page is mapped to. */
  ghost function Leaf(m: Machine, o: Owners, dir: nat, page: Page): Option<word> {
    var s := SlotOf(dir, page, 3);
    if IsTable(o, s) then
      var entry := Load(m.mem, Base(o, s) + page[3]);
      if Present(entry) then Some(entry) else None
    else None
  }

  lemma TranslateIs(m: Machine, o: Owners, dir: nat, page: Page)
    requires Inv(m, o) && dir in o.dirs
    ensures Translate(m.mem, dir, page) == Leaf(m, o, dir, page)
  {
    TableAtIs(m, o, dir, page, 3);
  }
}
