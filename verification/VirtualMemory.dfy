/**
 * sys/virtualMemory.c and the table walkers of sys/task.c, as methods that change the frames of
 * physical memory and the frame bitmap in place.
 */
module VirtualMemory {
  import opened Options
  import opened PageFormat
  import opened PageTables
  import FrameBitmap

  // The contents of the allocated frames that are not tables.
  ghost function AllocatedData(s: State): map<nat, Page> {
    map f: nat | f < |s.mem| && IsDataFrame(s, f) :: s.mem[f].page
  }

  // Nothing happened but that free frames became tables of the forest.
  ghost predicate OnlyTablesGrew(s: State, t: State) {
    match t
    case State(mem, free, place, dead, kernel) =>
      && |mem| == |s.mem| && dead == s.dead && kernel == s.kernel
      && free <= s.free
      && (forall f | f in s.place :: f in place && place[f] == s.place[f])
      && (forall f | f in place && f !in s.place :: f in s.free && f !in free && place[f].Child?)
      && (forall f | f in s.free && f !in free :: f in place)
      && (forall f: nat :: f < |mem| && f !in s.free && f !in s.place ==> mem[f] == s.mem[f])
      && (SlotOf(s.mem, s.kernel, 511).present ==> SlotOf(mem, kernel, 511) == SlotOf(s.mem, s.kernel, 511))
  }

  // A step that grows the forest and keeps all translations.
  ghost predicate Grows(s: State, t: State) {
    && WellFormed(t)
    && OnlyTablesGrew(s, t)
    && SameLeaves(s, t)
  }

  lemma LinkGrows(s: State, n: PhysMem, f: nat, i: nat, g: nat, user: bool)
    requires CanLink(s, f, i, g, user) && IsLinked(s.mem, n, f, i, g, user)
    ensures Grows(s, WithTable(s, n, f, i, g))
  {
    LinkKeepsForest(s, n, f, i, g, user);
    LinkKeepsLeaves(s, n, f, i, g, user);
    LinkedSlots(s.mem, n, f, i, g, user);
  }

  lemma GrowthComposes(s: State, t: State, u: State)
    requires Grows(s, t) && Grows(t, u)
    ensures Grows(s, u)
  {
    assert SameLeaves(s, u);
    assert OnlyTablesGrew(s, u);
  }

  function IndexAt(p: Path, level: nat): nat
    requires level < 3
  {
    if level == 0 then p.pml4 else if level == 1 then p.pdpt else p.pdt
  }

  function TableAt(m: PhysMem, root: nat, p: Path, level: nat): Option<nat> {
    if level == 0 then Some(root) else if level == 1 then PdptOf(m, root, p)
    else if level == 2 then PdtOf(m, root, p) else PtOf(m, root, p)
  }

  // Table t is the one that the walk of p from root reaches after `level` steps.
  ghost predicate IsOnWalk(s: State, root: nat, p: Path, level: nat, t: nat) {
    t in s.place && Depth(s.place[t]) == level && IsOfUser(s.place[t]) == IsUserRoot(s, root)
      && TableAt(s.mem, root, p, level) == Some(t)
  }

  // Growth keeps the tables already on a walk, so the next step leads one level further.
  lemma WalkGoesOn(s: State, t: State, root: nat, p: Path, level: nat, f: nat, g: nat)
    requires WellFormed(s) && WellFormed(t) && OwnsWalk(s, root, p) && 0 < level < 3
    requires forall h | h in s.place :: h in t.place && t.place[h] == s.place[h]
    requires IsOnWalk(s, root, p, level, f)
    requires g in t.place && t.place[g] == Under(f, s.place[f], IndexAt(p, level))
    ensures IsOnWalk(t, root, p, level + 1, g)
  {
    WalkPlaces(s, root, p);
    assert IsChild(t, g, f, IndexAt(p, level));
    assert IsChild(t, PdptOf(s.mem, root, p).value, root, p.pml4);
    if level > 1 {
      assert IsChild(t, PdtOf(s.mem, root, p).value, PdptOf(s.mem, root, p).value, p.pdpt);
    }
  }

  // The root whose tables the walk of p from this root goes through: the kernel's for its slot.
  ghost function WalkOwner(s: State, root: nat, p: Path): nat {
    if IsUserRoot(s, root) && p.pml4 == 511 then s.kernel else root
  }

  lemma OwnerOwnsWalk(s: State, root: nat, p: Path)
    requires WellFormed(s) && IsRoot(s, root) && IsPath(p)
    ensures OwnsWalk(s, WalkOwner(s, root, p), p)
    ensures SlotOf(s.mem, root, p.pml4) == SlotOf(s.mem, WalkOwner(s, root, p), p.pml4)
    ensures WalkOwner(s, root, p) != root ==> SlotOf(s.mem, root, p.pml4).present
    ensures PtOf(s.mem, root, p) == PtOf(s.mem, WalkOwner(s, root, p), p)
    ensures Leaf(s.mem, root, p) == Leaf(s.mem, WalkOwner(s, root, p), p)
  {
  }

  lemma WalkStaysOwned(s: State, t: State, root: nat, p: Path)
    requires OwnsWalk(s, root, p) && Grows(s, t)
    ensures OwnsWalk(t, root, p)
  {
  }

  // The first step of the walk, when the table is there, and when it has been made
  lemma FirstStepIsThere(s: State, root: nat, p: Path)
    requires WellFormed(s) && IsRoot(s, root) && IsPath(p) && SlotOf(s.mem, root, p.pml4).present
    ensures IsOnWalk(s, WalkOwner(s, root, p), p, 1, SlotOf(s.mem, root, p.pml4).frame)
  {
    OwnerOwnsWalk(s, root, p);
    WalkPlaces(s, WalkOwner(s, root, p), p);
  }

  lemma FirstStepIsMade(s: State, t: State, root: nat, p: Path, g: nat)
    requires WellFormed(s) && WellFormed(t) && OwnsWalk(s, root, p) && root in t.place && t.place[root] == s.place[root]
    requires g in t.place && t.place[g] == Under(root, s.place[root], p.pml4)
    ensures IsOnWalk(t, root, p, 1, g)
  {
    assert IsChild(t, g, root, p.pml4);
  }

  lemma GrowthKeepsData(s: State, t: State)
    requires WellFormed(s) && Grows(s, t)
    ensures AllocatedData(t) == AllocatedData(s)
  {
    forall f: nat | f < |s.mem|
      ensures IsDataFrame(t, f) <==> IsDataFrame(s, f)
      ensures IsDataFrame(s, f) ==> t.mem[f] == s.mem[f]
    {
    }
  }

  // The state after mapPageForUser: page p of the address space at root has entry e.
  ghost predicate IsMapped(s: State, t: State, root: nat, p: Path, e: Entry) {
    && WellFormed(t)
    && OnlyTablesGrew(s, t)
    && AllocatedData(t) == AllocatedData(s)
    && OneLeafChanged(s, t, root, p, e)
  }

  lemma LeafCanBeStored(s: State, t: State, root: nat, p: Path, e: Entry, f: nat)
    requires WellFormed(s) && Grows(s, t) && OwnsWalk(s, root, p) && PtOf(t.mem, root, p) == Some(f)
    requires root in s.dead || (e.present && IsDataFrame(s, e.frame))
    ensures OwnsWalk(t, root, p) && CanStore(t, f, p.pt, e)
  {
    WalkStaysOwned(s, t, root, p);
    WalkPlaces(t, root, p);
    GrowthKeepsData(s, t);
    assert root !in s.dead ==> e.frame in AllocatedData(s) && e.frame in AllocatedData(t);
  }

  lemma LeafChangeComposes(s: State, t: State, u: State, root: nat, p: Path, e: Entry)
    requires Grows(s, t) && OneLeafChanged(t, u, root, p, e)
    ensures OneLeafChanged(s, u, root, p, e)
  {
  }

  lemma StoreMaps(s: State, t: State, n: PhysMem, root: nat, p: Path, e: Entry)
    requires WellFormed(s) && Grows(s, t)
    requires OwnsWalk(s, root, p) && PtOf(t.mem, root, p).Some?
    requires root in s.dead || (e.present && IsDataFrame(s, e.frame))
    requires IsStored(t.mem, n, PtOf(t.mem, root, p).value, p.pt, e)
    ensures IsMapped(s, t.(mem := n), root, p, e)
  {
    var f := PtOf(t.mem, root, p).value;
    LeafCanBeStored(s, t, root, p, e, f);
    StoreKeepsForest(t, n, f, p.pt, e);
    StoreChangesOneLeaf(t, n, root, p, e);
    LeafChangeComposes(s, t, t.(mem := n), root, p, e);
    GrowthKeepsData(s, t);
    StoreKeepsData(t, n, f, p.pt, e);
    StoreIsGrowth(s, t, n, f, p.pt, e);
  }

  lemma StoreIsGrowth(s: State, t: State, n: PhysMem, f: nat, i: nat, e: Entry)
    requires OnlyTablesGrew(s, t)
    requires t.kernel in t.place && t.place[t.kernel].KernelRoot? && f in t.place && Depth(t.place[f]) == 3
    requires IsStored(t.mem, n, f, i, e)
    ensures OnlyTablesGrew(s, t.(mem := n))
  {
  }

  lemma StoreKeepsData(s: State, n: PhysMem, f: nat, i: nat, e: Entry)
    requires IsStored(s.mem, n, f, i, e)
    ensures AllocatedData(s.(mem := n)) == AllocatedData(s)
  {
  }

  /* ---------- the view: every address space as a map from pages to entries ---------- */

  // The pages outside the kernel's slot, by address space, the contents of the allocated frames, and
  // the pages of the kernel's slot, which all address spaces share.
  datatype MemView = MemView(spaces: map<nat, map<nat, Entry>>, data: map<nat, Page>, kernel: map<nat, Entry>)

  ghost function SpaceOf(s: State, root: nat): map<nat, Entry> {
    map v: nat | v < USER_PAGES && Leaf(s.mem, root, PathOfPage(v)) != ZERO_ENTRY :: Leaf(s.mem, root, PathOfPage(v))
  }

  ghost function KernelSpaceOf(s: State): map<nat, Entry> {
    map v: nat | USER_PAGES <= v < PAGE_NUMBERS && Leaf(s.mem, s.kernel, PathOfPage(v)) != ZERO_ENTRY
      :: Leaf(s.mem, s.kernel, PathOfPage(v))
  }

  ghost function SpacesOf(s: State): map<nat, map<nat, Entry>> {
    map r | r in s.place && IsRoot(s, r) :: SpaceOf(s, r)
  }

  ghost function ViewOf(s: State): MemView { MemView(SpacesOf(s), AllocatedData(s), KernelSpaceOf(s)) }

  // The map that has page v of the address space at root
  ghost function PagesAt(view: MemView, root: nat, v: nat): map<nat, Entry>
    requires root in view.spaces
  {
    if v < USER_PAGES then view.spaces[root] else view.kernel
  }

  lemma PagesHavePaths(v: nat)
    requires v < PAGE_NUMBERS
    ensures IsPath(PathOfPage(v)) && (PathOfPage(v).pml4 < 511) == (v < USER_PAGES)
  {
    PathOfPageIsThePage(v, 0);
  }

  lemma SpacesAreKept(s: State, t: State)
    requires SameLeaves(s, t)
    ensures forall r | IsRoot(s, r) :: SpaceOf(t, r) == SpaceOf(s, r)
  {
    forall r, v: nat | IsRoot(s, r) && v < USER_PAGES
      ensures Leaf(t.mem, r, PathOfPage(v)) == Leaf(s.mem, r, PathOfPage(v))
    {
      PagesHavePaths(v);
    }
  }

  lemma KernelSpaceIsKept(s: State, t: State)
    requires SameLeaves(s, t) && t.kernel == s.kernel && KernelIsShared(s)
    ensures KernelSpaceOf(t) == KernelSpaceOf(s)
  {
    forall v: nat | USER_PAGES <= v < PAGE_NUMBERS
      ensures Leaf(t.mem, s.kernel, PathOfPage(v)) == Leaf(s.mem, s.kernel, PathOfPage(v))
    {
      PagesHavePaths(v);
    }
  }

  ghost function Put(space: map<nat, Entry>, v: nat, e: Entry): map<nat, Entry> {
    if e == ZERO_ENTRY then space - {v} else space[v := e]
  }

  lemma OneSpaceChanges(s: State, t: State, root: nat, x: nat, e: Entry)
    requires OneLeafChanged(s, t, root, PathOf(x), e) && PageOf(x) < USER_PAGES
    ensures forall r | IsRoot(s, r) ::
              SpaceOf(t, r) == if r == root then Put(SpaceOf(s, r), PageOf(x), e) else SpaceOf(s, r)
  {
    forall r | IsRoot(s, r)
      ensures SpaceOf(t, r) == if r == root then Put(SpaceOf(s, r), PageOf(x), e) else SpaceOf(s, r)
    {
      SpaceChanges(s, t, root, x, e, r);
    }
  }

  lemma SpaceChanges(s: State, t: State, root: nat, x: nat, e: Entry, r: nat)
    requires OneLeafChanged(s, t, root, PathOf(x), e) && PageOf(x) < USER_PAGES && IsRoot(s, r)
    ensures SpaceOf(t, r) == if r == root then Put(SpaceOf(s, r), PageOf(x), e) else SpaceOf(s, r)
  {
    forall v: nat | v < USER_PAGES
      ensures Leaf(t.mem, r, PathOfPage(v)) == if r == root && v == PageOf(x) then e else Leaf(s.mem, r, PathOfPage(v))
    {
      PagesHavePaths(v);
      PathOfPageIsThePage(v, x);
    }
    if r == root {
      SpaceByLeaves(s, t, r, PageOf(x), e);
    }
  }

  lemma SpaceByLeaves(s: State, t: State, r: nat, w: nat, e: Entry)
    requires w < USER_PAGES
    requires forall v: nat | v < USER_PAGES ::
               Leaf(t.mem, r, PathOfPage(v)) == if v == w then e else Leaf(s.mem, r, PathOfPage(v))
    ensures SpaceOf(t, r) == Put(SpaceOf(s, r), w, e)
  {
    assert SpaceOf(t, r).Keys == Put(SpaceOf(s, r), w, e).Keys;
  }

  // A change outside the kernel's slot leaves its pages alone, and one inside it all others.
  lemma KernelSpaceStays(s: State, t: State, root: nat, x: nat, e: Entry)
    requires OneLeafChanged(s, t, root, PathOf(x), e) && t.kernel == s.kernel && KernelIsShared(s)
    requires PageOf(x) < USER_PAGES
    ensures KernelSpaceOf(t) == KernelSpaceOf(s)
  {
    forall v: nat | USER_PAGES <= v < PAGE_NUMBERS
      ensures Leaf(t.mem, s.kernel, PathOfPage(v)) == Leaf(s.mem, s.kernel, PathOfPage(v))
    {
      PagesHavePaths(v);
      PathOfPageIsThePage(v, x);
    }
  }

  lemma KernelSpaceChanges(s: State, t: State, x: nat, e: Entry)
    requires OneLeafChanged(s, t, s.kernel, PathOf(x), e) && t.kernel == s.kernel && KernelIsShared(s)
    requires PageOf(x) >= USER_PAGES
    ensures KernelSpaceOf(t) == Put(KernelSpaceOf(s), PageOf(x), e)
  {
    KernelLeafChanges(s, t, x, e);
    var left, right := KernelSpaceOf(t), Put(KernelSpaceOf(s), PageOf(x), e);
    assert left.Keys == right.Keys;
  }

  lemma KernelLeafChanges(s: State, t: State, x: nat, e: Entry)
    requires OneLeafChanged(s, t, s.kernel, PathOf(x), e) && KernelIsShared(s) && PageOf(x) >= USER_PAGES
    ensures forall v: nat | USER_PAGES <= v < PAGE_NUMBERS ::
              Leaf(t.mem, s.kernel, PathOfPage(v)) == if v == PageOf(x) then e else Leaf(s.mem, s.kernel, PathOfPage(v))
  {
    forall v: nat | USER_PAGES <= v < PAGE_NUMBERS
      ensures Leaf(t.mem, s.kernel, PathOfPage(v)) == if v == PageOf(x) then e else Leaf(s.mem, s.kernel, PathOfPage(v))
    {
      PagesHavePaths(v);
      PathOfPageIsThePage(v, x);
    }
  }

  lemma SpacesStay(s: State, t: State, root: nat, x: nat, e: Entry)
    requires OneLeafChanged(s, t, root, PathOf(x), e) && PageOf(x) >= USER_PAGES
    ensures forall r | IsRoot(s, r) :: SpaceOf(t, r) == SpaceOf(s, r)
  {
    forall r, v: nat | IsRoot(s, r) && v < USER_PAGES
      ensures Leaf(t.mem, r, PathOfPage(v)) == Leaf(s.mem, r, PathOfPage(v))
    {
      PagesHavePaths(v);
      PathOfPageIsThePage(v, x);
    }
  }

  ghost predicate SameRoots(s: State, t: State) {
    t.kernel == s.kernel && forall r :: IsRoot(t, r) <==> IsRoot(s, r)
  }

  ghost function SetPage(view: MemView, root: nat, v: nat, e: Entry): MemView
    requires root in view.spaces
  {
    view.(spaces := view.spaces[root := Put(view.spaces[root], v, e)])
  }

  // The same for all pages: the kernel's slot belongs to all address spaces.
  ghost function PutPage(view: MemView, root: nat, v: nat, e: Entry): MemView
    requires root in view.spaces
  {
    if v < USER_PAGES then SetPage(view, root, v, e) else view.(kernel := Put(view.kernel, v, e))
  }

  lemma SpacesByRoot(s: State, t: State)
    requires SameRoots(s, t)
    ensures SpacesOf(t).Keys == SpacesOf(s).Keys
    ensures forall r :: r in SpacesOf(s) <==> IsRoot(s, r)
  {
    assert forall r :: r in SpacesOf(t) <==> IsRoot(t, r);
    assert forall r :: r in SpacesOf(s) <==> IsRoot(s, r);
  }

  lemma UserPageChanges(s: State, t: State, root: nat, x: nat, e: Entry)
    requires WellFormed(s) && IsRoot(s, root) && SameRoots(s, t) && PageOf(x) < USER_PAGES
    requires OneLeafChanged(s, t, root, PathOf(x), e)
    ensures SpacesOf(t) == SpacesOf(s)[root := Put(SpaceOf(s, root), PageOf(x), e)]
    ensures KernelSpaceOf(t) == KernelSpaceOf(s)
  {
    SpacesByRoot(s, t);
    OneSpaceChanges(s, t, root, x, e);
    KernelSpaceStays(s, t, root, x, e);
  }

  lemma KernelPageChanges(s: State, t: State, x: nat, e: Entry)
    requires WellFormed(s) && SameRoots(s, t) && PageOf(x) >= USER_PAGES
    requires OneLeafChanged(s, t, s.kernel, PathOf(x), e)
    ensures SpacesOf(t) == SpacesOf(s)
    ensures KernelSpaceOf(t) == Put(KernelSpaceOf(s), PageOf(x), e)
  {
    SpacesByRoot(s, t);
    SpacesStay(s, t, s.kernel, x, e);
    KernelSpaceChanges(s, t, x, e);
  }

  lemma OwnerByPage(s: State, root: nat, x: nat)
    requires WellFormed(s) && IsRoot(s, root)
    ensures WalkOwner(s, root, PathOf(x)) == if PageOf(x) < USER_PAGES then root else s.kernel
  {
    PathOfPageIsThePage(PageOf(x), x);
  }

  lemma ViewChangesAtOnePage(s: State, t: State, root: nat, x: nat, e: Entry)
    requires WellFormed(s) && IsRoot(s, root) && SameRoots(s, t) && AllocatedData(t) == AllocatedData(s)
    requires OneLeafChanged(s, t, WalkOwner(s, root, PathOf(x)), PathOf(x), e)
    ensures root in SpacesOf(s) && ViewOf(t) == PutPage(ViewOf(s), root, PageOf(x), e)
  {
    OwnerByPage(s, root, x);
    if PageOf(x) < USER_PAGES {
      UserPageChanges(s, t, root, x, e);
    } else {
      KernelPageChanges(s, t, x, e);
    }
  }

  lemma ViewKeepsSpaces(s: State, t: State)
    requires SameLeaves(s, t) && SameRoots(s, t) && KernelIsShared(s)
    ensures ViewOf(t).spaces == ViewOf(s).spaces && ViewOf(t).kernel == ViewOf(s).kernel
  {
    SpacesAreKept(s, t);
    KernelSpaceIsKept(s, t);
    SpacesByRoot(s, t);
  }

  lemma MappedView(s: State, t: State, root: nat, x: nat, e: Entry)
    requires WellFormed(s) && IsRoot(s, root) && IsMapped(s, t, WalkOwner(s, root, PathOf(x)), PathOf(x), e)
    ensures ViewOf(t) == PutPage(ViewOf(s), root, PageOf(x), e)
  {
    ViewChangesAtOnePage(s, t, root, x, e);
  }

  // What the processor makes of a page of a user's address space, in the view
  lemma EffectiveInView(s: State, root: nat, x: nat)
    requires WellFormed(s) && IsUserRoot(s, root)
    ensures root in ViewOf(s).spaces
    ensures var pages, v := PagesAt(ViewOf(s), root, PageOf(x)), PageOf(x);
            var e := if v in pages then pages[v] else ZERO_ENTRY;
            Effective(s.mem, root, PathOf(x)) == if v < USER_PAGES then e else e.(user := false)
  {
    LeafInView(s, root, x);
    PathOfPageIsThePage(PageOf(x), x);
    if PageOf(x) < USER_PAGES {
      UserWalkIsOpen(s, root, PathOf(x));
    } else {
      KernelWalkIsClosed(s, root, PathOf(x));
    }
  }

  // A root that will run again is a user's.
  lemma LiveRootsAreUsers(s: State, root: nat)
    requires WellFormed(s) && root in ViewOf(s).spaces && root !in s.dead
    ensures IsUserRoot(s, root)
  {
  }

  // Once a page is mapped for users, the processor lets them use it.
  lemma MappedForUser(s: State, t: State, root: nat, x: nat, e: Entry)
    requires WellFormed(s) && IsRoot(s, root) && IsMapped(s, t, WalkOwner(s, root, PathOf(x)), PathOf(x), e)
    ensures PageOf(x) < USER_PAGES && root != t.kernel ==> Effective(t.mem, root, PathOf(x)) == e
  {
    if PageOf(x) < USER_PAGES && root != t.kernel {
      PathOfPageIsThePage(PageOf(x), x);
      UserWalkIsOpen(t, root, PathOf(x));
    }
  }

  function LastTable(v: nat): nat { v / 512 }

  // Some page with the same last table as page v is mapped in the kernel's slot.
  ghost predicate HasTable(view: MemView, v: nat) {
    exists w :: w in view.kernel && LastTable(w) == LastTable(v)
  }

  lemma TablesAreThere(s: State, x: nat)
    requires WellFormed(s) && HasTable(ViewOf(s), PageOf(x))
    ensures PtOf(s.mem, s.kernel, PathOf(x)).Some?
  {
    var w :| w in ViewOf(s).kernel && LastTable(w) == LastTable(PageOf(x));
    PathOfPageIsThePage(PageOf(x), x);
    PageAddressDigits(w);
    PageAddressDigits(PageOf(x));
    assert PtOf(s.mem, s.kernel, PathOfPage(w)).Some?;
  }

  lemma GrowthKeepsView(s: State, t: State)
    requires WellFormed(s) && Grows(s, t)
    ensures ViewOf(t) == ViewOf(s)
  {
    GrowthKeepsData(s, t);
    ViewKeepsSpaces(s, t);
  }

  // Frame f leaves the free set and holds a page.
  ghost function Taken(s: State, f: nat, page: Page): State
    requires f < |s.mem|
  {
    s.(mem := s.mem[f := Data(page)], free := s.free - {f})
  }

  lemma TakenPage(s: State, f: nat, page: Page)
    requires WellFormed(s) && f in s.free
    ensures WellFormed(Taken(s, f, page))
    ensures f !in ViewOf(s).data
    ensures ViewOf(Taken(s, f, page)) == ViewOf(s).(data := ViewOf(s).data[f := page])
  {
    var n := s.mem[f := Data(page)];
    RewriteKeepsForest(s, n, f);
    RewriteKeepsLeaves(s, n, f);
    TakeKeepsForest(s.(mem := n), f);
    ViewKeepsSpaces(s, Taken(s, f, page));
  }

  lemma FilledView(s: State, f: nat, page: Page)
    requires f in ViewOf(s).data && KernelIsShared(s) && SameLeaves(s, s.(mem := s.mem[f := Data(page)]))
    ensures ViewOf(s.(mem := s.mem[f := Data(page)])) == ViewOf(s).(data := ViewOf(s).data[f := page])
  {
    ViewKeepsSpaces(s, s.(mem := s.mem[f := Data(page)]));
  }

  ghost function Marked(view: MemView, root: nat, v: nat, readOnly: bool): MemView
    requires root in view.spaces
  {
    if v in PagesAt(view, root, v)
    then PutPage(view, root, v, PagesAt(view, root, v)[v].(writeable := !readOnly))
    else view
  }

  lemma LeafInView(s: State, root: nat, x: nat)
    requires WellFormed(s) && IsRoot(s, root)
    ensures root in ViewOf(s).spaces
    ensures var pages := PagesAt(ViewOf(s), root, PageOf(x));
            && (PageOf(x) in pages <==> Leaf(s.mem, root, PathOf(x)) != ZERO_ENTRY)
            && (PageOf(x) in pages ==> pages[PageOf(x)] == Leaf(s.mem, root, PathOf(x)))
  {
    PathOfPageIsThePage(PageOf(x), x);
    if PageOf(x) >= USER_PAGES {
      KernelWalkIsShared(s, root, PathOf(x));
    }
  }

  lemma RemarkKeepsForest(s: State, n: PhysMem, root: nat, p: Path, f: nat, readOnly: bool)
    requires WellFormed(s) && OwnsWalk(s, root, p)
    requires PtOf(s.mem, root, p) == Some(f)
    requires root !in s.dead && !readOnly ==> Leaf(s.mem, root, p) != ZERO_ENTRY
    requires IsStored(s.mem, n, f, p.pt, Leaf(s.mem, root, p).(writeable := !readOnly))
    ensures WellFormed(s.(mem := n)) && AllocatedData(s.(mem := n)) == AllocatedData(s)
    ensures OneLeafChanged(s, s.(mem := n), root, p, Leaf(s.mem, root, p).(writeable := !readOnly))
  {
    var e := Leaf(s.mem, root, p).(writeable := !readOnly);
    WalkPlaces(s, root, p);
    assert root !in s.dead && Leaf(s.mem, root, p) != ZERO_ENTRY ==> IsLiveLeaf(s, f, p.pt);
    StoreKeepsForest(s, n, f, p.pt, e);
    StoreChangesOneLeaf(s, n, root, p, e);
    StoreKeepsData(s, n, f, p.pt, e);
  }

  lemma MarkedView(s: State, t: State, root: nat, x: nat, readOnly: bool)
    requires WellFormed(s) && IsRoot(s, root) && SameRoots(s, t) && root in ViewOf(s).spaces
    requires !readOnly ==> PageOf(x) in PagesAt(ViewOf(s), root, PageOf(x))
    requires var e := Leaf(s.mem, root, PathOf(x)).(writeable := !readOnly);
             OneLeafChanged(s, t, WalkOwner(s, root, PathOf(x)), PathOf(x), e)
    requires AllocatedData(t) == AllocatedData(s)
    ensures ViewOf(t) == Marked(ViewOf(s), root, PageOf(x), readOnly)
  {
    LeafInView(s, root, x);
    ViewChangesAtOnePage(s, t, root, x, Leaf(s.mem, root, PathOf(x)).(writeable := !readOnly));
    if PageOf(x) !in PagesAt(ViewOf(s), root, PageOf(x)) {
      ClearingNothing(ViewOf(s), root, PageOf(x));
    }
  }

  lemma ClearingNothing(view: MemView, root: nat, v: nat)
    requires root in view.spaces && v !in PagesAt(view, root, v)
    ensures PutPage(view, root, v, ZERO_ENTRY) == view
  {
    assert PagesAt(view, root, v) - {v} == PagesAt(view, root, v);
    assert view.spaces[root := view.spaces[root]] == view.spaces;
  }

  // What "no live leaf maps f" means in the view.
  ghost predicate IsUnmapped(view: MemView, dead: set<nat>, f: nat) {
    forall r, v :: r in view.spaces && r !in dead && v in view.spaces[r] ==> view.spaces[r][v].frame != f
  }

  lemma UnmappedInView(s: State, f: nat)
    requires WellFormed(s) && IsUnmapped(ViewOf(s), s.dead, f)
    ensures forall t, i: nat :: IsLiveLeaf(s, t, i) ==> SlotOf(s.mem, t, i).frame != f
  {
    forall t: nat, i: nat | IsLiveLeaf(s, t, i)
      ensures SlotOf(s.mem, t, i).frame != f
    {
      var r, p := LastTablesAreWalked(s, t);
      var q := p.(pt := i);
      PathOfPageNumber(q);
      PageNumberBounds(q);
      var v := PageNumber(q);
      assert PtOf(s.mem, r, q) == Some(t);
      assert Leaf(s.mem, r, q) == SlotOf(s.mem, t, i);
      assert v in SpaceOf(s, r);
      assert ViewOf(s).spaces[r][v] == SlotOf(s.mem, t, i);
    }
  }

  // Frame f is cleared and free again.
  ghost function Released(s: State, f: nat): State
    requires f < |s.mem|
  {
    s.(mem := s.mem[f := Data(ZeroPage())], free := s.free + {f})
  }

  lemma ReleasedPage(s: State, f: nat)
    requires WellFormed(s) && f in ViewOf(s).data && IsUnmapped(ViewOf(s), s.dead, f)
    ensures WellFormed(Released(s, f))
    ensures ViewOf(Released(s, f)) == ViewOf(s).(data := ViewOf(s).data - {f})
  {
    var n := s.mem[f := Data(ZeroPage())];
    UnmappedInView(s, f);
    RewriteKeepsForest(s, n, f);
    RewriteKeepsLeaves(s, n, f);
    assert forall h, j: nat :: h in s.place ==> SlotOf(n, h, j) == SlotOf(s.mem, h, j);
    assert forall t, i: nat :: IsLiveLeaf(s.(mem := n), t, i) ==> IsLiveLeaf(s, t, i);
    FreeKeepsForest(s.(mem := n), f);
    ViewKeepsSpaces(s, Released(s, f));
  }

  lemma ReleasedAgain(s: State, f: nat)
    requires WellFormed(s) && f in s.free
    ensures WellFormed(Released(s, f)) && f !in ViewOf(s).data
    ensures ViewOf(Released(s, f)) == ViewOf(s)
  {
    var n := s.mem[f := Data(ZeroPage())];
    RewriteKeepsForest(s, n, f);
    RewriteKeepsLeaves(s, n, f);
    assert s.free + {f} == s.free;
    ViewKeepsSpaces(s, Released(s, f));
  }

  // The slot that a new root gets is the kernel's.
  lemma SlotToCopy(s: State, current: nat)
    requires WellFormed(s) && IsRoot(s, current) && (current != s.kernel || IsClosedLink(SlotOf(s.mem, s.kernel, 511)))
    ensures SlotOf(s.mem, current, 511) == SlotOf(s.mem, s.kernel, 511) && IsClosedLink(SlotOf(s.mem, s.kernel, 511))
  {
    assert IsUserRoot(s, current) || current == s.kernel;
  }

  lemma NewRootView(s: State, n: PhysMem, root: nat)
    requires WellFormed(s) && root in s.free && IsRewritten(s.mem, n, root) && n[root].Table?
    requires SameLeaves(s, s.(mem := n))
    requires forall p :: IsUserPath(p) ==> Leaf(n, root, p) == ZERO_ENTRY
    ensures root !in ViewOf(s).spaces
    ensures ViewOf(WithRoot(s, n, root)) == ViewOf(s).(spaces := ViewOf(s).spaces[root := map[]])
  {
    var t := WithRoot(s, n, root);
    NewRootSpaces(s, n, root);
    KernelSpaceIsKept(s, s.(mem := n));
    assert AllocatedData(t) == AllocatedData(s);
    var left, right := ViewOf(t).spaces, ViewOf(s).spaces[root := map[]];
    assert left.Keys == right.Keys;
    assert forall r | r in left :: left[r] == right[r];
  }

  lemma NewRootSpaces(s: State, n: PhysMem, root: nat)
    requires SameLeaves(s, s.(mem := n))
    requires forall p :: IsUserPath(p) ==> Leaf(n, root, p) == ZERO_ENTRY
    ensures SpaceOf(WithRoot(s, n, root), root) == map[]
    ensures forall r | IsRoot(s, r) :: SpaceOf(WithRoot(s, n, root), r) == SpaceOf(s, r)
  {
    SpacesAreKept(s, s.(mem := n));
    forall v: nat | v < USER_PAGES
      ensures Leaf(n, root, PathOfPage(v)) == ZERO_ENTRY
    {
      PagesHavePaths(v);
    }
    assert forall r | IsRoot(s, r) :: SpaceOf(WithRoot(s, n, root), r) == SpaceOf(s.(mem := n), r);
  }

  // Right after boot, no page is mapped.
  lemma EmptyKernel(s: State)
    requires s.place == map[s.kernel := KernelRoot] && s.dead == {s.kernel} && s.kernel < |s.mem| && s.kernel !in s.free
    requires s.mem[s.kernel] == Table(ZeroEntries()) && forall f | f in s.free :: 0 < f < |s.mem| && s.mem[f].Data?
    ensures WellFormed(s) && ViewOf(s).spaces == map[s.kernel := map[]] && ViewOf(s).kernel == map[]
  {
    assert forall i: nat :: SlotOf(s.mem, s.kernel, i) == ZERO_ENTRY;
    assert forall p :: Leaf(s.mem, s.kernel, p) == ZERO_ENTRY;
    assert SpaceOf(s, s.kernel) == map[];
  }

  // Physical memory is what the bitmap covers; physical addresses, taken as virtual ones, stay out
  // of the kernel's PML4 slot.
  class Memory {
    const frames: array<Frame>
    const bitmap: FrameBitmap.Bitmap
    // The kernel's own root, the source's static `pml4`
    var pml4: nat
    ghost var state: State

    ghost predicate Valid()
      reads this, frames, bitmap.availFrames
    {
      match state
      case State(mem, free, _, _, kernel) =>
        && pml4 == kernel
        && 64 * bitmap.availFrames.Length == frames.Length <= USER_PAGES
        && mem == frames[..]
        && free == bitmap.Free()
        && WellFormed(state)
    }

    // The kernel's slot leads to tables that are not for users.
    ghost predicate KernelIsClosed()
      reads this
    {
      IsClosedLink(SlotOf(state.mem, state.kernel, 511))
    }

    // The start of mapKernelMemory: a zeroed frame becomes the kernel's root.
    constructor (frames: array<Frame>, bitmap: FrameBitmap.Bitmap)
      requires 64 * bitmap.availFrames.Length == frames.Length <= USER_PAGES && 0 !in bitmap.Free()
      requires bitmap.Free() != {}
      requires forall f | f in bitmap.Free() :: f < frames.Length && frames[f].Data?
      modifies frames, bitmap.availFrames
      ensures Valid() && this.frames == frames && this.bitmap == bitmap
      ensures state.kernel in old(bitmap.Free()) && state.free == old(bitmap.Free()) - {state.kernel}
      ensures state.dead == {state.kernel} && View().spaces == map[state.kernel := map[]] && View().kernel == map[]
      ensures !SlotOf(state.mem, state.kernel, 511).present
    {
      this.frames, this.bitmap := frames, bitmap;
      new;
      var address := bitmap.PageAllocator();
      pml4 := address / PAGE_SIZE;
      frames[pml4] := Table(ZeroEntries());
      state := State(frames[..], bitmap.Free(), map[pml4 := KernelRoot], {pml4}, pml4);
      EmptyKernel(state);
    }

    // pageAllocator; no caller of it checks for NULL
    method Allocate() returns (f: nat)
      requires bitmap.Free() != {}
      modifies bitmap.availFrames
      ensures f in old(bitmap.Free()) && bitmap.Free() == old(bitmap.Free()) - {f}
    {
      var address := bitmap.PageAllocator();
      f := address / PAGE_SIZE;
    }

    method SetEntry(f: nat, i: nat, e: Entry)
      requires f < frames.Length && frames[f].Table? && i < 512
      modifies frames
      ensures IsStored(old(frames[..]), frames[..], f, i, e)
    {
      frames[f] := Table(frames[f].entries[i := e]);
    }

    // A zeroed frame becomes the table under slot i of table f.
    method LinkNewTable(f: nat, i: nat, g: nat, user: bool)
      requires f < frames.Length && frames[f].Table? && i < 512 && g < frames.Length && g != f
      modifies frames
      ensures IsLinked(old(frames[..]), frames[..], f, i, g, user)
    {
      frames[g] := Table(ZeroEntries());
      SetEntry(f, i, Entry(g, true, true, user));
    }

    // One level of mapPageForUser: the table that slot i of table f points to, made if absent.
    // The forest has only grown since the state `base`.
    method EnsureTable(f: nat, i: nat, user: bool, ghost base: State) returns (g: nat)
      requires Valid() && |state.free| > 0
      requires f in state.place && Depth(state.place[f]) < 3 && IsOwnSlot(state.place[f], i)
      requires IsOfUser(state.place[f]) ==> user
      requires Grows(base, state)
      modifies this`state, frames, bitmap.availFrames
      ensures Valid()
      ensures g in state.place && state.place[g] == Under(f, old(state).place[f], i)
      ensures forall h | h in old(state).place :: h in state.place && state.place[h] == old(state).place[h]
      ensures Grows(base, state) && |old(state).free| <= |state.free| + 1
      ensures SlotOf(old(state).mem, f, i).present ==> state == old(state) && SlotOf(old(state).mem, f, i).frame == g
    {
      assert SlotOf(state.mem, f, i) == frames[f].entries[i];
      var entry := frames[f].entries[i];
      if entry.present {
        g := entry.frame;
      } else {
        g := AddTable(f, i, user, base);
      }
    }

    // A zeroed frame under an empty slot
    method AddTable(f: nat, i: nat, user: bool, ghost base: State) returns (g: nat)
      requires Valid() && |state.free| > 0 && Grows(base, state)
      requires f in state.place && Depth(state.place[f]) < 3 && IsOwnSlot(state.place[f], i)
      requires !SlotOf(state.mem, f, i).present
      requires IsOfUser(state.place[f]) ==> user
      modifies this`state, frames, bitmap.availFrames
      ensures Valid()
      ensures g in state.place && state.place[g] == Under(f, old(state).place[f], i)
      ensures forall h | h in old(state).place :: h in state.place && state.place[h] == old(state).place[h]
      ensures Grows(base, state) && |old(state).free| <= |state.free| + 1
      ensures SlotOf(state.mem, f, i) == Entry(g, true, true, user)
    {
      g := Allocate();
      LinkNewTable(f, i, g, user);
      Grow(f, i, g, user, base);
    }

    // The new table joins the forest.
    ghost method Grow(f: nat, i: nat, g: nat, user: bool, base: State)
      requires CanLink(state, f, i, g, user) && IsLinked(state.mem, frames[..], f, i, g, user) && Grows(base, state)
      modifies this`state
      ensures WellFormed(state) && Grows(base, state) && f in old(state).place
      ensures state == WithTable(old(state), frames[..], f, i, g)
      ensures SlotOf(state.mem, f, i) == Entry(g, true, true, user)
    {
      LinkGrows(state, frames[..], f, i, g, user);
      GrowthComposes(base, state, WithTable(state, frames[..], f, i, g));
      state := WithTable(state, frames[..], f, i, g);
    }

    // The first level.  Slot 511 of a user's root leads to a table of the kernel's.
    method EnsureTop(root: nat, p: Path, user: bool) returns (t: nat)
      requires Valid() && |state.free| > 0 && IsRoot(state, root) && IsPath(p)
      requires IsUserRoot(state, WalkOwner(state, root, p)) ==> user
      modifies this`state, frames, bitmap.availFrames
      ensures Valid() && Grows(old(state), state) && |old(state).free| <= |state.free| + 1
      ensures IsOnWalk(state, WalkOwner(old(state), root, p), p, 1, t)
      ensures TableAt(old(state).mem, WalkOwner(old(state), root, p), p, 1).Some? ==> state == old(state)
      ensures !SlotOf(old(state).mem, root, p.pml4).present ==>
                SlotOf(state.mem, root, p.pml4) == Entry(t, true, true, user)
    {
      assert SlotOf(state.mem, root, p.pml4) == frames[root].entries[p.pml4];
      OwnerOwnsWalk(state, root, p);
      var entry := frames[root].entries[p.pml4];
      if entry.present {
        t := entry.frame;
        FirstStepIsThere(state, root, p);
      } else {
        t := AddTable(root, p.pml4, user, state);
        FirstStepIsMade(old(state), state, root, p, t);
      }
    }

    // The table that mapPageForUser has reached after `level` of its three steps down
    method EnsureWalk(root: nat, p: Path, user: bool, level: nat) returns (t: nat)
      requires Valid() && 0 < level <= 3 && |state.free| >= level && IsRoot(state, root) && IsPath(p)
      requires IsUserRoot(state, WalkOwner(state, root, p)) ==> user
      modifies this`state, frames, bitmap.availFrames
      ensures Valid() && Grows(old(state), state) && |old(state).free| <= |state.free| + level
      ensures IsOnWalk(state, WalkOwner(old(state), root, p), p, level, t)
      ensures TableAt(old(state).mem, WalkOwner(old(state), root, p), p, level).Some? ==> state == old(state)
    {
      ghost var owner := WalkOwner(state, root, p);
      if level == 1 {
        t := EnsureTop(root, p, user);
      } else {
        OwnerOwnsWalk(state, root, p);
        t := EnsureWalk(root, p, user, level - 1);
        ghost var s, up := state, t;
        WalkStaysOwned(old(state), s, owner, p);
        t := EnsureTable(t, IndexAt(p, level - 1), user, old(state));
        WalkGoesOn(s, state, owner, p, level - 1, up, t);
      }
    }

    // mapPageForUser (user), mapPage and forceMapPage: page x of the address space at root now leads
    // to frame, by the tables of the root that owns the walk.
    method MapPage(x: nat, frame: nat, root: nat, user: bool)
      requires Valid() && |state.free| >= 3 && IsRoot(state, root)
      requires WalkOwner(state, root, PathOf(x)) in state.dead || IsDataFrame(state, frame)
      requires IsUserRoot(state, WalkOwner(state, root, PathOf(x))) ==> user
      modifies this`state, frames, bitmap.availFrames
      ensures Valid()
      ensures IsMapped(old(state), state, WalkOwner(old(state), root, PathOf(x)), PathOf(x),
                Entry(frame, true, true, user))
      ensures |old(state).free| <= |state.free| + 3
      ensures PtOf(old(state).mem, WalkOwner(old(state), root, PathOf(x)), PathOf(x)).Some? ==>
                state.free == old(state).free
    {
      var p := PathOf(x);
      OwnerOwnsWalk(state, root, p);
      var pt := EnsureWalk(root, p, user, 3);
      StoreLeaf(pt, WalkOwner(old(state), root, p), p, Entry(frame, true, true, user), old(state));
    }

    // The last line of mapPageForUser and forceMapPage
    method StoreLeaf(pt: nat, ghost owner: nat, p: Path, e: Entry, ghost base: State)
      requires Valid() && WellFormed(base) && Grows(base, state) && IsOnWalk(state, owner, p, 3, pt)
      requires OwnsWalk(base, owner, p) && (owner in base.dead || (e.present && IsDataFrame(base, e.frame)))
      modifies this`state, frames
      ensures Valid() && IsMapped(base, state, owner, p, e) && state.free == old(state.free)
    {
      SetEntry(pt, p.pt, e);
      StoreMaps(base, state, frames[..], owner, p, e);
      state := state.(mem := frames[..]);
    }

    /* ---------- the operations as the rest of the kernel sees them ---------- */

    ghost function View(): MemView
      reads this
    {
      ViewOf(state)
    }

    // mapPageForUser is a functional update of one page: in the address space at root, or, for a page
    // of the kernel's slot, in all of them.
    method MapPageForUser(x: nat, frame: nat, root: nat)
      requires Valid() && |state.free| >= 3 && root in View().spaces
      requires frame in View().data || root == state.kernel
      modifies this`state, frames, bitmap.availFrames
      ensures Valid()
      ensures View() == PutPage(old(View()), root, PageOf(x), UserEntry(frame))
      ensures PageOf(x) < USER_PAGES && root != state.kernel ==>
                Effective(state.mem, root, PathOf(x)) == UserEntry(frame)
      ensures state.free <= old(state.free) && |old(state).free| <= |state.free| + 3
      ensures state.dead == old(state.dead) && state.kernel == old(state.kernel)
    {
      ghost var s := state;
      MapPage(x, frame, root, true);
      MappedView(s, state, root, x, UserEntry(frame));
      MappedForUser(s, state, root, x, UserEntry(frame));
    }

    // mapPage, and forceMapPage into the kernel's own tables, whose entries are not for users.  No
    // table is made when a page of the kernel's slot with the same last table is mapped.
    method MapKernelPage(x: nat, frame: nat)
      requires Valid() && |state.free| >= 3
      modifies this`state, frames, bitmap.availFrames
      ensures Valid()
      ensures View() == PutPage(old(View()), state.kernel, PageOf(x), Entry(frame, true, true, false))
      ensures state.free <= old(state.free) && |old(state).free| <= |state.free| + 3
      ensures HasTable(old(View()), PageOf(x)) ==> state.free == old(state.free)
      ensures old(KernelIsClosed()) ==> KernelIsClosed()
      ensures state.dead == old(state.dead) && state.kernel == old(state.kernel)
    {
      ghost var s := state;
      if HasTable(View(), PageOf(x)) {
        TablesAreThere(s, x);
      }
      MapPage(x, frame, pml4, false);
      MappedView(s, state, state.kernel, x, Entry(frame, true, true, false));
    }

    // The tables on the way to page x of the kernel's slot, not for users; no page is mapped.
    method MakeTables(x: nat)
      requires Valid() && |state.free| >= 4 && PageOf(x) >= USER_PAGES
      requires !SlotOf(state.mem, state.kernel, 511).present || KernelIsClosed()
      modifies this`state, frames, bitmap.availFrames
      ensures Valid() && View() == old(View()) && |old(state.free)| <= |state.free| + 4
      ensures state.dead == old(state.dead) && state.kernel == old(state.kernel) && KernelIsClosed()
    {
      ghost var s := state;
      PathOfPageIsThePage(PageOf(x), x);
      var pdpt := EnsureTop(pml4, PathOf(x), false);
      GrowthKeepsView(s, state);
      MakeLowerTables(x);
    }

    method MakeLowerTables(x: nat)
      requires Valid() && |state.free| >= 3 && KernelIsClosed()
      modifies this`state, frames, bitmap.availFrames
      ensures Valid() && View() == old(View()) && |old(state.free)| <= |state.free| + 3
      ensures state.dead == old(state.dead) && state.kernel == old(state.kernel) && KernelIsClosed()
    {
      var pt := EnsureWalk(pml4, PathOf(x), false, 3);
      GrowthKeepsView(old(state), state);
    }

    ghost method AFreeFrame() returns (f: nat)
      requires Valid() && |state.free| > 0
      ensures f in state.free && f !in View().data
    {
      f :| f in state.free;
    }

    // pageAllocator, for a frame that will hold data; its contents are what they were.
    method AllocatePage() returns (f: nat)
      requires Valid() && |state.free| > 0
      modifies this`state, bitmap.availFrames
      ensures Valid()
      ensures f in old(state.free) && f !in old(View()).data && f < frames.Length && frames[f].Data?
      ensures state == old(state).(free := old(state.free) - {f})
      ensures View() == old(View()).(data := old(View()).data[f := frames[f].page])
    {
      f := Allocate();
      TakenPage(state, f, frames[f].page);
      assert state.mem[f := state.mem[f]] == state.mem;
      state := Taken(state, f, frames[f].page);
    }

    method ReadPage(f: nat) returns (page: Page)
      requires Valid() && f in View().data
      ensures page == View().data[f]
    {
      page := frames[f].page;
    }

    method FillPage(f: nat, page: Page)
      requires Valid() && f in View().data
      modifies this`state, frames
      ensures Valid() && state == old(state).(mem := old(state.mem)[f := Data(page)])
      ensures View() == old(View()).(data := old(View()).data[f := page])
    {
      frames[f] := Data(page);
      ghost var n := state.mem[f := Data(page)];
      RewriteKeepsForest(state, n, f);
      RewriteKeepsLeaves(state, n, f);
      FilledView(state, f, page);
      state := state.(mem := n);
    }

    // kmalloc: an allocated frame, zeroed
    method Kmalloc() returns (f: nat)
      requires Valid() && |state.free| > 0
      modifies this`state, frames, bitmap.availFrames
      ensures Valid()
      ensures f in old(state.free) && f !in old(View()).data
      ensures state.free == old(state.free) - {f} && state.dead == old(state.dead) && state.kernel == old(state.kernel)
      ensures View() == old(View()).(data := old(View()).data[f := ZeroPage()])
      ensures forall k | 0 <= k < 0x1000 :: View().data[f][k] == 0
    {
      ZeroPageIsZero();
      f := Allocate();
      frames[f] := Data(ZeroPage());
      TakenPage(state, f, ZeroPage());
      state := Taken(state, f, ZeroPage());
    }

    // getNewPML4ForUser: only the kernel's slot of the current root is copied.
    method GetNewPML4ForUser(current: nat) returns (root: nat)
      requires Valid() && |state.free| > 0 && current in View().spaces
      requires current != state.kernel || KernelIsClosed()
      modifies this`state, frames, bitmap.availFrames
      ensures Valid()
      ensures root !in old(View()).spaces && state.free == old(state.free) - {root} && root in old(state.free)
      ensures root !in state.dead && state.dead == old(state.dead) && state.kernel == old(state.kernel)
      ensures View() == old(View()).(spaces := old(View()).spaces[root := map[]])
      ensures SlotOf(state.mem, root, 511) == SlotOf(old(state).mem, current, 511)
    {
      SlotToCopy(state, current);
      assert SlotOf(state.mem, current, 511) == frames[current].entries[511];
      root := Allocate();
      frames[root] := Table(ZeroEntries());
      frames[root] := Table(frames[root].entries[511 := frames[current].entries[511]]);
      AddRoot(root, frames[..]);
    }

    ghost method AddRoot(root: nat, n: PhysMem)
      requires WellFormed(state) && root in state.free && IsRewritten(state.mem, n, root)
      requires n[root].Table? && forall i | 0 <= i < 511 :: n[root].entries[i] == ZERO_ENTRY
      requires n[root].entries[511] == SlotOf(state.mem, state.kernel, 511) && IsClosedLink(n[root].entries[511])
      modifies this`state
      ensures WellFormed(state) && state == WithRoot(old(state), n, root)
      ensures root !in ViewOf(old(state)).spaces
      ensures View() == old(View()).(spaces := old(View()).spaces[root := map[]])
    {
      NewRootKeepsForest(state, n, root);
      RewriteKeepsLeaves(state, n, root);
      NewRootView(state, n, root);
      state := WithRoot(state, n, root);
    }

    // The three steps down that getPhysicalPageAddr and markPageAsRW share.
    method FindPt(x: nat, root: nat) returns (pt: Option<nat>)
      requires Valid() && IsRoot(state, root)
      ensures pt == PtOf(state.mem, root, PathOf(x))
      ensures pt.Some? ==> pt.value < frames.Length && frames[pt.value].Table?
    {
      var p := PathOf(x);
      OwnerOwnsWalk(state, root, p);
      WalkPlaces(state, WalkOwner(state, root, p), p);
      pt := None;
      var pmlEntry := frames[root].entries[p.pml4];
      assert pmlEntry == SlotOf(state.mem, root, p.pml4);
      if pmlEntry.present {
        var pdptEntry := frames[pmlEntry.frame].entries[p.pdpt];
        assert pdptEntry == SlotOf(state.mem, pmlEntry.frame, p.pdpt);
        if pdptEntry.present {
          var pdtEntry := frames[pdptEntry.frame].entries[p.pdt];
          assert pdtEntry == SlotOf(state.mem, pdptEntry.frame, p.pdt);
          if pdtEntry.present {
            pt := Some(pdtEntry.frame);
          }
        }
      }
    }

    // The processor's walk: one entry of each level, and the flags that all of them have
    method Translate(x: nat, root: nat) returns (e: Entry)
      requires Valid() && IsUserRoot(state, root)
      ensures e == Effective(state.mem, root, PathOf(x))
    {
      var p := PathOf(x);
      OwnerOwnsWalk(state, root, p);
      WalkPlaces(state, WalkOwner(state, root, p), p);
      e := ZERO_ENTRY;
      var pmlEntry := frames[root].entries[p.pml4];
      assert pmlEntry == SlotOf(state.mem, root, p.pml4);
      if pmlEntry.present {
        var pdptEntry := frames[pmlEntry.frame].entries[p.pdpt];
        assert pdptEntry == SlotOf(state.mem, pmlEntry.frame, p.pdpt);
        if pdptEntry.present {
          var pdtEntry := frames[pdptEntry.frame].entries[p.pdt];
          assert pdtEntry == SlotOf(state.mem, pdptEntry.frame, p.pdt);
          if pdtEntry.present {
            var ptEntry := frames[pdtEntry.frame].entries[p.pt];
            assert ptEntry == SlotOf(state.mem, pdtEntry.frame, p.pt);
            e := Through(pmlEntry, Through(pdptEntry, Through(pdtEntry, ptEntry)));
          }
        }
      }
    }

    // getPhysicalPageAddr; None is -1
    method GetPhysicalPageAddr(x: nat, root: nat) returns (entry: Option<Entry>)
      requires Valid() && root in View().spaces
      ensures PageOf(x) in PagesAt(View(), root, PageOf(x)) <==> entry.Some? && entry.value != ZERO_ENTRY
      ensures PageOf(x) in PagesAt(View(), root, PageOf(x)) ==>
                entry == Some(PagesAt(View(), root, PageOf(x))[PageOf(x)])
    {
      LeafInView(state, root, x);
      var pt := FindPt(x, root);
      entry := if pt.Some? then Some(frames[pt.value].entries[PtIndex(x)]) else None;
    }

    // markPageAsRW: -1 when the page has no last-level table, else 0.
    method MarkPageAsRW(x: nat, root: nat, readOnly: bool) returns (result: int)
      requires Valid() && root in View().spaces
      requires !readOnly ==> PageOf(x) in PagesAt(View(), root, PageOf(x))
      modifies this`state, frames
      ensures Valid() && state.free == old(state.free) && state.dead == old(state.dead)
      ensures state.kernel == old(state.kernel)
      ensures result == -1 ==> PageOf(x) !in PagesAt(old(View()), root, PageOf(x))
      ensures result == -1 || result == 0
      ensures View() == Marked(old(View()), root, PageOf(x), readOnly)
    {
      LeafInView(state, root, x);
      var pt := FindPt(x, root);
      if pt.Some? {
        var e := frames[pt.value].entries[PtIndex(x)].(writeable := !readOnly);
        SetEntry(pt.value, PtIndex(x), e);
        Remark(x, root, pt.value, readOnly);
        result := 0;
      } else {
        result := -1;
      }
    }

    ghost method Remark(x: nat, root: nat, pt: nat, readOnly: bool)
      requires WellFormed(state) && IsRoot(state, root) && PtOf(state.mem, root, PathOf(x)) == Some(pt)
      requires root in View().spaces && (!readOnly ==> PageOf(x) in PagesAt(View(), root, PageOf(x)))
      requires IsStored(state.mem, frames[..], pt, PtIndex(x),
                 Leaf(state.mem, root, PathOf(x)).(writeable := !readOnly))
      modifies this`state
      ensures WellFormed(state) && state == old(state).(mem := frames[..])
      ensures root in old(View()).spaces && View() == Marked(old(View()), root, PageOf(x), readOnly)
    {
      LeafInView(state, root, x);
      OwnerOwnsWalk(state, root, PathOf(x));
      RemarkKeepsForest(state, frames[..], WalkOwner(state, root, PathOf(x)), PathOf(x), pt, readOnly);
      MarkedView(state, state.(mem := frames[..]), root, x, readOnly);
      state := state.(mem := frames[..]);
    }

    // The address space at root will not be run again; its tables stay where they are.
    ghost method Retire(root: nat)
      requires Valid() && root in View().spaces
      modifies this`state
      ensures Valid() && View() == old(View())
      ensures state == old(state).(dead := old(state.dead) + {root})
    {
      DyingKeepsForest(state, root);
      state := state.(dead := state.dead + {root});
      assert AllocatedData(state) == AllocatedData(old(state));
      ViewKeepsSpaces(old(state), state);
    }

    // kdealloc; a frame may be given back again while it is free.
    method Kdealloc(f: nat)
      requires Valid() && (f in View().data || f in state.free)
      requires IsUnmapped(View(), state.dead, f)
      modifies this`state, frames, bitmap.availFrames
      ensures Valid()
      ensures state.free == old(state.free) + {f} && state.dead == old(state.dead) && state.kernel == old(state.kernel)
      ensures View() == old(View()).(data := old(View()).data - {f})
      ensures f < |state.mem| && state.mem[f].Data? && forall k | 0 <= k < 0x1000 :: state.mem[f].page[k] == 0
    {
      ZeroPageIsZero();
      frames[f] := Data(ZeroPage());
      bitmap.PageDeAllocator(f * PAGE_SIZE);
      if f in state.free {
        ReleasedAgain(state, f);
      } else {
        ReleasedPage(state, f);
      }
      state := Released(state, f);
    }
  }
}
