/**
 * Four-level page tables in physical memory: the walk, the invariant that the tables of all address
 * spaces form a forest of unshared frames, and what one table link or one leaf store does to the
 * translations of every address space.
 */
module PageTables {
  import opened Options
  import opened PageFormat

  function ZeroEntries(): seq<Entry> { seq(512, _ => ZERO_ENTRY) }

  type Entries = s: seq<Entry> | |s| == 512 witness ZeroEntries()

  // A frame of physical memory, as the kernel uses it; the direct map at kernbase is left out.
  datatype Frame = Table(entries: Entries) | Data(page: Page)

  type PhysMem = seq<Frame>

  function SlotOf(m: PhysMem, f: nat, i: nat): Entry {
    if f < |m| && m[f].Table? && i < 512 then m[f].entries[i] else ZERO_ENTRY
  }

  /* ---------- the walk ---------- */

  function Next(m: PhysMem, f: nat, i: nat): Option<nat> {
    var e := SlotOf(m, f, i);
    if e.present then Some(e.frame) else None
  }

  function PdptOf(m: PhysMem, root: nat, p: Path): Option<nat> { Next(m, root, p.pml4) }

  function PdtOf(m: PhysMem, root: nat, p: Path): Option<nat> {
    var t := PdptOf(m, root, p);
    if t.Some? then Next(m, t.value, p.pdpt) else None
  }

  function PtOf(m: PhysMem, root: nat, p: Path): Option<nat> {
    var t := PdtOf(m, root, p);
    if t.Some? then Next(m, t.value, p.pdt) else None
  }

  // getPhysicalPageAddr: None is the source's -1
  function Walk(m: PhysMem, root: nat, p: Path): Option<Entry> {
    var t := PtOf(m, root, p);
    if t.Some? then Some(SlotOf(m, t.value, p.pt)) else None
  }

  // Every caller treats -1 and 0 alike, as "not mapped".
  function Leaf(m: PhysMem, root: nat, p: Path): Entry {
    var w := Walk(m, root, p);
    if w.Some? then w.value else ZERO_ENTRY
  }

  // What the processor makes of a walk: the frame at its end, with the flags that all four entries
  // have (AMD64 Architecture Programmer's Manual, Volume 2, section 5.6).
  function Effective(m: PhysMem, root: nat, p: Path): Entry {
    var a := SlotOf(m, root, p.pml4);
    if !a.present then ZERO_ENTRY else
      var b := SlotOf(m, a.frame, p.pdpt);
      if !b.present then ZERO_ENTRY else
        var c := SlotOf(m, b.frame, p.pdt);
        if !c.present then ZERO_ENTRY else Through(a, Through(b, Through(c, SlotOf(m, c.frame, p.pt))))
  }

  // The walk by hand, over the four entries that the indices of an address select
  lemma EffectiveByEntries(m: PhysMem, root: nat, x: nat, a: Entry, b: Entry, c: Entry, e: Entry)
    requires a == SlotOf(m, root, x / 0x80_0000_0000 % 512) && b == SlotOf(m, a.frame, x / 0x4000_0000 % 512)
    requires c == SlotOf(m, b.frame, x / 0x20_0000 % 512) && e == SlotOf(m, c.frame, x / 0x1000 % 512)
    requires a.present && b.present && c.present
    ensures Leaf(m, root, PathOf(x)) == e
    ensures Effective(m, root, PathOf(x)) ==
              Entry(e.frame, e.present, a.writeable && b.writeable && c.writeable && e.writeable,
                    a.user && b.user && c.user && e.user)
  {
  }

  // Entry e behind a link
  function Through(link: Entry, e: Entry): Entry {
    Entry(e.frame, link.present && e.present, link.writeable && e.writeable, link.user && e.user)
  }

  /* ---------- the forest ---------- */

  // The place of a table: the root of a user's address space, the kernel's own root, or a slot of
  // its parent table in the address space of a root.
  datatype Place = Root | KernelRoot | Child(root: nat, parent: nat, slot: nat, depth: nat, user: bool)

  function Depth(pl: Place): nat { if pl.Child? then pl.depth else 0 }

  // The address space that table f with place pl belongs to.
  function Owner(f: nat, pl: Place): nat { if pl.Child? then pl.root else f }

  // The table belongs to the address space of a user.
  predicate IsOfUser(pl: Place) { if pl.Child? then pl.user else pl.Root? }

  // The place of the table under slot i of table f with place pl.
  function Under(f: nat, pl: Place, i: nat): Place { Child(Owner(f, pl), f, i, Depth(pl) + 1, IsOfUser(pl)) }

  // Slot 511 of a user's root is not its own: it leads to tables of the kernel's address space.
  predicate IsOwnSlot(pl: Place, i: nat) { i < 512 && (pl.Root? ==> i < 511) }

  // Physical memory, the free frames, the place of every table in use, the kernel's root, and the
  // roots whose leaves need not lead to allocated frames: the kernel's, which maps all of physical
  // memory, and those of dead tasks, whose tables stay behind while their frames are given back.
  datatype State = State(mem: PhysMem, free: set<nat>, place: map<nat, Place>, dead: set<nat>, kernel: nat)

  ghost predicate TablesAreOwned(s: State) {
    forall f | f in s.place :: f < |s.mem| && f !in s.free && s.mem[f].Table? && Depth(s.place[f]) <= 3
  }

  // A link to a table may be written through, and in a user's tables users may go through it.
  predicate IsOpenLink(pl: Place, e: Entry) { e.present && e.writeable && (IsOfUser(pl) ==> e.user) }

  ghost predicate SlotsLeadDown(s: State) {
    forall f, i: nat ::
      f in s.place && Depth(s.place[f]) < 3 && IsOwnSlot(s.place[f], i) && SlotOf(s.mem, f, i).present ==>
                          && SlotOf(s.mem, f, i).frame in s.place
                          && s.place[SlotOf(s.mem, f, i).frame] == Under(f, s.place[f], i)
                          && IsOpenLink(s.place[f], SlotOf(s.mem, f, i))
  }

  ghost predicate IsChild(s: State, g: nat, f: nat, i: nat) {
    g in s.place && s.place[g].Child? && s.place[g].parent == f && s.place[g].slot == i
  }

  ghost predicate PlacesLeadUp(s: State) {
    forall g, f, i :: IsChild(s, g, f, i) ==>
                        && f in s.place && IsOwnSlot(s.place[f], i) && s.place[g] == Under(f, s.place[f], i)
                        && SlotOf(s.mem, f, i).present && SlotOf(s.mem, f, i).frame == g
  }

  // Frame 0 is never handed out.
  ghost predicate IsDataFrame(s: State, f: nat) { 0 < f < |s.mem| && s.mem[f].Data? && f !in s.free }

  ghost predicate IsLiveLeaf(s: State, f: nat, i: nat) {
    f in s.place && Depth(s.place[f]) == 3 && Owner(f, s.place[f]) !in s.dead && SlotOf(s.mem, f, i) != ZERO_ENTRY
  }

  ghost predicate LeavesAreData(s: State) {
    forall f, i: nat :: IsLiveLeaf(s, f, i) ==>
                          SlotOf(s.mem, f, i).present && IsDataFrame(s, SlotOf(s.mem, f, i).frame)
  }

  // There is one kernel root, and slot 511 of every user's root is the same as its slot 511, which is
  // not for users.
  ghost predicate KernelIsShared(s: State) {
    && s.kernel in s.place && s.place[s.kernel].KernelRoot? && s.kernel in s.dead
    && (forall r | r in s.place && s.place[r].KernelRoot? :: r == s.kernel)
    && (forall r | IsUserRoot(s, r) ::
          SlotOf(s.mem, r, 511) == SlotOf(s.mem, s.kernel, 511) && IsClosedLink(SlotOf(s.mem, r, 511)))
  }

  // A link that keeps users out
  predicate IsClosedLink(e: Entry) { e.present && e.writeable && !e.user }

  ghost predicate WellFormed(s: State) {
    match s
    case State(mem, free, place, dead, kernel) =>
      && dead <= place.Keys
      && KernelIsShared(s)
      && (forall f | f in free :: 0 < f < |mem| && mem[f].Data?)
      && TablesAreOwned(s)
      && SlotsLeadDown(s)
      && PlacesLeadUp(s)
      && LeavesAreData(s)
  }

  ghost predicate IsUserRoot(s: State, r: nat) { r in s.place && s.place[r].Root? }

  ghost predicate IsRoot(s: State, r: nat) { r in s.place && !s.place[r].Child? }

  predicate IsPath(p: Path) { p.pml4 < 512 && p.pdpt < 512 && p.pdt < 512 && p.pt < 512 }

  predicate IsUserPath(p: Path) { IsPath(p) && p.pml4 < 511 }

  // The walk of p from root r goes through tables of r's own.
  ghost predicate OwnsWalk(s: State, r: nat, p: Path) {
    IsRoot(s, r) && IsPath(p) && (IsUserRoot(s, r) ==> p.pml4 < 511)
  }

  // Every table other than a root is reached from exactly one slot of exactly one table.
  lemma TablesFormAForest(s: State, g: nat)
    requires WellFormed(s) && g in s.place
    ensures g !in s.free && !IsDataFrame(s, g)
    ensures s.place[g].Child? ==>
              exists f, i: nat ::
                && LeadsTo(s, f, i, g)
                && forall h, j: nat :: LeadsTo(s, h, j, g) ==> h == f && j == i
    ensures !s.place[g].Child? ==> forall h, j: nat :: !LeadsTo(s, h, j, g)
  {
    if s.place[g].Child? {
      var Child(_, f, i, _, _) := s.place[g];
      assert IsChild(s, g, f, i);
      assert LeadsTo(s, f, i, g);
    }
  }

  ghost predicate LeadsTo(s: State, f: nat, i: nat, g: nat) {
    f in s.place && Depth(s.place[f]) < 3 && IsOwnSlot(s.place[f], i)
    && SlotOf(s.mem, f, i).present && SlotOf(s.mem, f, i).frame == g
  }

  // The tables on a walk, by place.
  lemma WalkPlaces(s: State, r: nat, p: Path)
    requires WellFormed(s) && OwnsWalk(s, r, p)
    ensures var t := PdptOf(s.mem, r, p); t.Some? ==>
              t.value in s.place && s.place[t.value] == Child(r, r, p.pml4, 1, IsUserRoot(s, r))
    ensures var t := PdtOf(s.mem, r, p); t.Some? ==>
              t.value in s.place && s.place[t.value] == Child(r, PdptOf(s.mem, r, p).value, p.pdpt, 2, IsUserRoot(s, r))
    ensures var t := PtOf(s.mem, r, p); t.Some? ==>
              t.value in s.place && s.place[t.value] == Child(r, PdtOf(s.mem, r, p).value, p.pdt, 3, IsUserRoot(s, r))
  {
  }

  // Walks that end in the same table come from the same root by the same indices.
  lemma SharedTableMeansSameWalk(s: State, r: nat, p: Path, t: nat, q: Path)
    requires WellFormed(s) && OwnsWalk(s, r, p) && OwnsWalk(s, t, q)
    requires PtOf(s.mem, r, p).Some? && PtOf(s.mem, t, q) == PtOf(s.mem, r, p)
    ensures r == t && p.pml4 == q.pml4 && p.pdpt == q.pdpt && p.pdt == q.pdt
  {
    WalkPlaces(s, r, p);
    WalkPlaces(s, t, q);
  }

  // A page of the kernel's slot is reached from a user's root as from the kernel's own.
  lemma KernelWalkIsShared(s: State, r: nat, p: Path)
    requires WellFormed(s) && IsRoot(s, r) && IsPath(p) && p.pml4 == 511
    ensures PtOf(s.mem, r, p) == PtOf(s.mem, s.kernel, p) && Leaf(s.mem, r, p) == Leaf(s.mem, s.kernel, p)
    ensures OwnsWalk(s, s.kernel, p)
  {
    assert IsUserRoot(s, r) || r == s.kernel;
  }

  // Outside the kernel's slot the last entry of a walk alone decides what a user may do,
  lemma UserWalkIsOpen(s: State, r: nat, p: Path)
    requires WellFormed(s) && IsUserRoot(s, r) && IsUserPath(p)
    ensures Effective(s.mem, r, p) == Leaf(s.mem, r, p)
  {
    WalkPlaces(s, r, p);
  }

  // and inside it a user may do nothing, whatever that entry says.
  lemma KernelWalkIsClosed(s: State, r: nat, p: Path)
    requires WellFormed(s) && IsUserRoot(s, r) && IsPath(p) && p.pml4 == 511
    ensures Effective(s.mem, r, p) == Leaf(s.mem, r, p).(user := false)
  {
    WalkPlaces(s, s.kernel, p);
  }

  ghost predicate SameLeaves(s: State, t: State) {
    forall r, p {:trigger Leaf(t.mem, r, p)} {:trigger Leaf(s.mem, r, p)} ::
      OwnsWalk(s, r, p) ==> Leaf(t.mem, r, p) == Leaf(s.mem, r, p)
  }

  /* ---------- linking a new table ---------- */

  // s with frame g zeroed into a table and slot i of table f pointing to it, for users or not
  ghost predicate IsLinked(m: PhysMem, n: PhysMem, f: nat, i: nat, g: nat, user: bool) {
    && |n| == |m| && f < |m| && g < |m| && f != g && i < 512
    && n[g] == Table(ZeroEntries())
    && m[f].Table? && n[f] == Table(m[f].entries[i := Entry(g, true, true, user)])
    && forall h: nat :: h < |m| && h != f && h != g ==> n[h] == m[h]
  }

  ghost predicate CanLink(s: State, f: nat, i: nat, g: nat, user: bool) {
    && WellFormed(s)
    && f in s.place && Depth(s.place[f]) < 3 && IsOwnSlot(s.place[f], i) && !SlotOf(s.mem, f, i).present
    && g in s.free && (IsOfUser(s.place[f]) ==> user)
  }

  ghost function WithTable(s: State, n: PhysMem, f: nat, i: nat, g: nat): State
    requires f in s.place
  {
    s.(mem := n, free := s.free - {g}, place := s.place[g := Under(f, s.place[f], i)])
  }

  lemma LinkedSlots(m: PhysMem, n: PhysMem, f: nat, i: nat, g: nat, user: bool)
    requires IsLinked(m, n, f, i, g, user)
    ensures forall h, j: nat :: SlotOf(n, h, j) ==
                                if h == g then ZERO_ENTRY
                                else if h == f && j == i then Entry(g, true, true, user)
                                else SlotOf(m, h, j)
  {
  }

  lemma LinkKeepsForest(s: State, n: PhysMem, f: nat, i: nat, g: nat, user: bool)
    requires CanLink(s, f, i, g, user) && IsLinked(s.mem, n, f, i, g, user)
    ensures WellFormed(WithTable(s, n, f, i, g))
  {
    LinkedSlots(s.mem, n, f, i, g, user);
    LinkKeepsSlots(s, n, f, i, g, user);
    LinkKeepsLeafFrames(s, n, f, i, g, user);
    assert TablesAreOwned(WithTable(s, n, f, i, g));
  }

  lemma LinkKeepsSlots(s: State, n: PhysMem, f: nat, i: nat, g: nat, user: bool)
    requires CanLink(s, f, i, g, user) && IsLinked(s.mem, n, f, i, g, user)
    ensures SlotsLeadDown(WithTable(s, n, f, i, g))
    ensures PlacesLeadUp(WithTable(s, n, f, i, g))
  {
    LinkedSlots(s.mem, n, f, i, g, user);
    assert forall h, a, b :: IsChild(WithTable(s, n, f, i, g), h, a, b) && h != g ==> IsChild(s, h, a, b);
  }

  lemma LinkKeepsLeafFrames(s: State, n: PhysMem, f: nat, i: nat, g: nat, user: bool)
    requires CanLink(s, f, i, g, user) && IsLinked(s.mem, n, f, i, g, user)
    ensures LeavesAreData(WithTable(s, n, f, i, g))
  {
    LinkedSlots(s.mem, n, f, i, g, user);
  }

  lemma LinkKeepsLeaves(s: State, n: PhysMem, f: nat, i: nat, g: nat, user: bool)
    requires CanLink(s, f, i, g, user) && IsLinked(s.mem, n, f, i, g, user)
    ensures SameLeaves(s, WithTable(s, n, f, i, g))
  {
    LinkedSlots(s.mem, n, f, i, g, user);
    forall r, p | OwnsWalk(s, r, p)
      ensures Leaf(n, r, p) == Leaf(s.mem, r, p)
    {
      WalkPlaces(s, r, p);
    }
  }

  /* ---------- storing a leaf ---------- */

  // m with slot i of table f set to e
  ghost predicate IsStored(m: PhysMem, n: PhysMem, f: nat, i: nat, e: Entry) {
    && |n| == |m| && f < |m| && i < 512 && m[f].Table?
    && n[f] == Table(m[f].entries[i := e])
    && forall h: nat :: h < |m| && h != f ==> n[h] == m[h]
  }

  ghost predicate CanStore(s: State, f: nat, i: nat, e: Entry) {
    && WellFormed(s)
    && f in s.place && Depth(s.place[f]) == 3 && i < 512
    && (Owner(f, s.place[f]) !in s.dead && e != ZERO_ENTRY ==> e.present && IsDataFrame(s, e.frame))
  }

  lemma StoredSlots(m: PhysMem, n: PhysMem, f: nat, i: nat, e: Entry)
    requires IsStored(m, n, f, i, e)
    ensures forall h, j: nat :: SlotOf(n, h, j) == if h == f && j == i then e else SlotOf(m, h, j)
  {
  }

  lemma StoreKeepsForest(s: State, n: PhysMem, f: nat, i: nat, e: Entry)
    requires CanStore(s, f, i, e) && IsStored(s.mem, n, f, i, e)
    ensures WellFormed(s.(mem := n))
  {
    StoredSlots(s.mem, n, f, i, e);
    var t := s.(mem := n);
    assert TablesAreOwned(t);
    assert SlotsLeadDown(t);
    PlacesStay(s, t);
    assert LeavesAreData(t);
  }

  lemma PlacesStay(s: State, t: State)
    requires PlacesLeadUp(s) && t.place == s.place
    requires forall f, i: nat :: f in s.place && Depth(s.place[f]) < 3 ==> SlotOf(t.mem, f, i) == SlotOf(s.mem, f, i)
    requires forall f | f in s.place :: Depth(s.place[f]) <= 3
    ensures PlacesLeadUp(t)
  {
    assert forall g, f, i :: IsChild(t, g, f, i) ==> IsChild(s, g, f, i);
  }

  // t has the translations of s, except that page p of the address space at root has entry e.
  ghost predicate OneLeafChanged(s: State, t: State, root: nat, p: Path, e: Entry) {
    forall r, q {:trigger Leaf(t.mem, r, q)} ::
      OwnsWalk(s, r, q) ==> Leaf(t.mem, r, q) == if r == root && q == p then e else Leaf(s.mem, r, q)
  }

  lemma StoreChangesOneLeaf(s: State, n: PhysMem, root: nat, p: Path, e: Entry)
    requires OwnsWalk(s, root, p) && PtOf(s.mem, root, p).Some?
    requires CanStore(s, PtOf(s.mem, root, p).value, p.pt, e) && IsStored(s.mem, n, PtOf(s.mem, root, p).value, p.pt, e)
    ensures OneLeafChanged(s, s.(mem := n), root, p, e)
  {
    var f := PtOf(s.mem, root, p).value;
    StoredSlots(s.mem, n, f, p.pt, e);
    forall r, q | OwnsWalk(s, r, q)
      ensures Leaf(n, r, q) == if r == root && q == p then e else Leaf(s.mem, r, q)
    {
      StoreKeepsWalk(s, n, root, p, e, r, q);
      if PtOf(s.mem, r, q).Some? && PtOf(s.mem, r, q).value == f {
        SharedTableMeansSameWalk(s, root, p, r, q);
      }
    }
  }

  lemma StoreKeepsWalk(s: State, n: PhysMem, root: nat, p: Path, e: Entry, r: nat, q: Path)
    requires WellFormed(s) && OwnsWalk(s, root, p) && PtOf(s.mem, root, p).Some?
    requires IsStored(s.mem, n, PtOf(s.mem, root, p).value, p.pt, e)
    requires OwnsWalk(s, r, q)
    ensures PtOf(n, r, q) == PtOf(s.mem, r, q)
  {
    WalkPlaces(s, root, p);
    WalkPlaces(s, r, q);
  }

  /* ---------- frames outside the forest ---------- */

  // n differs from m in frame d only
  ghost predicate IsRewritten(m: PhysMem, n: PhysMem, d: nat) {
    |n| == |m| && d < |m| && forall h: nat :: h < |m| && h != d ==> n[h] == m[h]
  }

  lemma RewriteKeepsLeaves(s: State, n: PhysMem, d: nat)
    requires WellFormed(s) && IsRewritten(s.mem, n, d) && d !in s.place
    ensures SameLeaves(s, s.(mem := n))
  {
    assert forall h, j: nat :: h in s.place ==> SlotOf(n, h, j) == SlotOf(s.mem, h, j);
    forall r, p | OwnsWalk(s, r, p)
      ensures Leaf(n, r, p) == Leaf(s.mem, r, p)
    {
      WalkPlaces(s, r, p);
    }
  }

  // A frame that holds data, allocated or not, may be overwritten with data.
  lemma RewriteKeepsForest(s: State, n: PhysMem, d: nat)
    requires WellFormed(s) && IsRewritten(s.mem, n, d) && d !in s.place && n[d].Data?
    ensures WellFormed(s.(mem := n))
  {
    var t := s.(mem := n);
    assert forall h, j: nat :: h in s.place ==> SlotOf(n, h, j) == SlotOf(s.mem, h, j);
    assert LeavesAreData(t);
    assert SlotsLeadDown(t);
    PlacesStay(s, t);
  }

  lemma TakeKeepsForest(s: State, d: nat)
    requires WellFormed(s)
    ensures WellFormed(s.(free := s.free - {d}))
  {
    var t := s.(free := s.free - {d});
    assert SlotsLeadDown(t);
    PlacesStay(s, t);
    assert LeavesAreData(t);
  }

  ghost function WithRoot(s: State, n: PhysMem, d: nat): State {
    s.(mem := n, free := s.free - {d}, place := s.place[d := Root])
  }

  // getNewPML4ForUser: a zeroed table with the kernel's slot filled in becomes a root.
  lemma NewRootKeepsForest(s: State, n: PhysMem, d: nat)
    requires WellFormed(s) && IsRewritten(s.mem, n, d) && d in s.free
    requires n[d].Table? && forall i | 0 <= i < 511 :: n[d].entries[i] == ZERO_ENTRY
    requires n[d].entries[511] == SlotOf(s.mem, s.kernel, 511) && IsClosedLink(n[d].entries[511])
    ensures WellFormed(WithRoot(s, n, d))
    ensures forall p :: IsUserPath(p) ==> Leaf(n, d, p) == ZERO_ENTRY
  {
    var t := WithRoot(s, n, d);
    assert forall h, j: nat :: h in s.place ==> SlotOf(n, h, j) == SlotOf(s.mem, h, j);
    assert forall i: nat :: i < 511 ==> SlotOf(n, d, i) == ZERO_ENTRY;
    assert TablesAreOwned(t);
    assert SlotsLeadDown(t);
    assert forall g, f, i :: IsChild(t, g, f, i) ==> IsChild(s, g, f, i);
    assert LeavesAreData(t);
    assert KernelIsShared(t);
  }

  /* ---------- the end of an address space ---------- */

  lemma DyingKeepsForest(s: State, root: nat)
    requires WellFormed(s) && IsRoot(s, root)
    ensures WellFormed(s.(dead := s.dead + {root}))
  {
    var t := s.(dead := s.dead + {root});
    assert TablesAreOwned(t);
    assert SlotsLeadDown(t);
    PlacesStay(s, t);
    assert forall f, i: nat :: IsLiveLeaf(t, f, i) ==> IsLiveLeaf(s, f, i);
    assert LeavesAreData(t);
  }

  // A data frame that no live leaf maps can be freed.
  lemma FreeKeepsForest(s: State, d: nat)
    requires WellFormed(s) && IsDataFrame(s, d)
    requires forall f, i: nat :: IsLiveLeaf(s, f, i) ==> SlotOf(s.mem, f, i).frame != d
    ensures WellFormed(s.(free := s.free + {d}))
  {
    var t := s.(free := s.free + {d});
    assert TablesAreOwned(t);
    assert SlotsLeadDown(t);
    PlacesStay(s, t);
    assert forall f, i: nat :: IsLiveLeaf(t, f, i) ==> IsLiveLeaf(s, f, i);
    assert LeavesAreData(t);
  }

  // Every table of the last level is reached by some walk from the root that owns it.
  lemma LastTablesAreWalked(s: State, f: nat) returns (r: nat, p: Path)
    requires WellFormed(s) && f in s.place && Depth(s.place[f]) == 3
    ensures r == Owner(f, s.place[f]) && OwnsWalk(s, r, p)
    ensures PtOf(s.mem, r, p) == Some(f)
  {
    var Child(_, pdt, k, _, _) := s.place[f];
    assert IsChild(s, f, pdt, k);
    var Child(_, pdpt, j, _, _) := s.place[pdt];
    assert IsChild(s, pdt, pdpt, j);
    var Child(_, top, i, _, _) := s.place[pdpt];
    assert IsChild(s, pdpt, top, i);
    assert s.place[top].Child? ==> IsChild(s, top, s.place[top].parent, s.place[top].slot);
    r, p := top, Path(i, j, k, 0);
  }
}
