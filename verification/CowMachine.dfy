/**
 * The copy-on-write machine: the tasks of the run ring, their leaf page-table entries and the
 * contents of the allocated frames, and what fork, a write fault, a user write, a context switch,
 * exec, exit, kill, malloc and the mapping of a page by setenv do to them.
 */
module CowMachine {
  import opened PageFormat
  import opened RingOps
  import opened Vmas

  // A live task: its areas, and the entries of its mapped user pages.
  datatype Proc = Proc(areas: seq<Vma>, space: map<nat, Entry>)

  // `data` holds the contents of every allocated frame that is not a table.
  datatype Cow = Cow(ring: seq<Proc>, data: map<nat, Page>)

  /* ---------- Invariant ---------- */

  ghost predicate Maps(c: Cow, i: nat, v: nat, f: nat) {
    i < |c.ring| && v in c.ring[i].space && c.ring[i].space[v].frame == f
  }

  ghost predicate IsReadOnly(c: Cow, i: nat, v: nat) {
    i < |c.ring| && v in c.ring[i].space && !c.ring[i].space[v].writeable
  }

  // A frame mapped twice is mapped by different tasks, at the same page, read-only in both.
  ghost predicate SharingIsReadOnly(c: Cow) {
    forall i: nat, v, j: nat, w, f :: Maps(c, i, v, f) && Maps(c, j, w, f) && (i != j || v != w) ==>
                                 i != j && v == w && IsReadOnly(c, i, v) && IsReadOnly(c, j, w)
  }

  ghost predicate EntriesAreUserEntries(c: Cow) {
    forall i: nat, v, f :: Maps(c, i, v, f) ==>
                             f in c.data && c.ring[i].space[v].present && c.ring[i].space[v].user
  }

  // Every mapped page is visited by the stepping over the task's areas, so fork misses none, and so
  // is every page that a demand fault may map.
  ghost predicate PagesAreCovered(c: Cow) {
    forall i: nat | i < |c.ring| ::
      EmptyAreasAreCovered(c.ring[i].areas) && c.ring[i].space.Keys <= VisitedPages(c.ring[i].areas)
  }

  ghost predicate Inv(c: Cow) {
    && |c.ring| > 0
    && EntriesAreUserEntries(c)
    && SharingIsReadOnly(c)
    && PagesAreCovered(c)
  }

  /* ---------- Steps of the copy-on-write machine ---------- */

  datatype Op =
      // copies: the frames that take the copies of stack pages; added: all frames allocated
    | Fork(copies: map<nat, nat>, added: map<nat, Page>)
      // a write fault that the handler resumes; spare: the frame that it allocates, if it does
    | Fault(page: nat, spare: nat)
      // a user store of one byte; spare: the frame the fault handler allocates, if it does
    | Write(page: nat, offset: nat, value: Byte, spare: nat)
    | Switch
      // image: the contents of the frames allocated for the new program
    | Exec(proc: Proc, image: map<nat, Page>)
    | Exit
    | Kill(index: nat)
      // malloc of an area
    | Malloc(size: nat)
      // setenv gives the running task a page with these contents.
    | MapPage(page: nat, contents: Page, spare: nat)

  ghost function Remap(c: Cow, i: nat, v: nat, e: Entry): Cow
    requires i < |c.ring|
  {
    c.(ring := c.ring[i := c.ring[i].(space := c.ring[i].space[v := e])])
  }

  // copyParentCr3Entries: a page of an ordinary area is shared read-only, a stack page copied.
  ghost function ChildSpace(p: Proc, copies: map<nat, nat>): map<nat, Entry> {
    map v | v in p.space.Keys * VisitedPages(p.areas) ::
      if v in copies then UserEntry(copies[v]) else p.space[v].(writeable := false)
  }

  // makeParentCr3asReadOnly
  ghost function ParentSpace(p: Proc): map<nat, Entry> {
    map v | v in p.space ::
      if v in SharedPages(p.areas) then p.space[v].(writeable := false) else p.space[v]
  }

  // Stack pages are copied into distinct new frames; every page visited only in a stack is.
  ghost predicate IsForkPlan(c: Cow, p: Proc, copies: map<nat, nat>, added: map<nat, Page>) {
    && c.data.Keys !! added.Keys
    && copies.Keys <= p.space.Keys * StackPages(p.areas)
    && p.space.Keys * StackPages(p.areas) - SharedPages(p.areas) <= copies.Keys
    && (forall v | v in copies ::
      copies[v] in added && p.space[v].frame in c.data && added[copies[v]] == c.data[p.space[v].frame])
    && (forall v, w | v in copies && w in copies && v != w :: copies[v] != copies[w])
  }

  ghost function ForkStep(c: Cow, copies: map<nat, nat>, added: map<nat, Page>): Cow
    requires |c.ring| > 0
  {
    var p := c.ring[0];
    Cow(AddAfterRunning(c.ring[0 := p.(space := ParentSpace(p))], Proc(p.areas, ChildSpace(p, copies))), c.data + added)
  }

  predicate HasPage(p: Proc, v: nat, f: nat) { v in p.space && p.space[v].frame == f }

  // The number of tasks whose walk of page v ends at frame f.
  ghost function ShareCount(ring: seq<Proc>, v: nat, f: nat): nat {
    if ring == [] then 0
    else ShareCount(ring[..|ring| - 1], v, f) + if HasPage(ring[|ring| - 1], v, f) then 1 else 0
  }

  // The copy-on-write branch of the fault handler.
  ghost function CowFault(c: Cow, v: nat, spare: nat): Cow
    requires |c.ring| > 0 && v in c.ring[0].space && c.ring[0].space[v].frame in c.data
  {
    var e := c.ring[0].space[v];
    if ShareCount(c.ring, v, e.frame) == 1 then
      Remap(c, 0, v, e.(writeable := true))
    else
      Remap(c, 0, v, UserEntry(spare)).(data := c.data[spare := c.data[e.frame]])
  }

  // The demand-zero branch.
  ghost function DemandFault(c: Cow, v: nat, spare: nat): Cow
    requires |c.ring| > 0
  {
    Remap(c, 0, v, UserEntry(spare)).(data := c.data[spare := ZeroPage()])
  }

  // A user write faults on a page that is not mapped or not writeable, and is then retried.
  ghost function Touch(c: Cow, v: nat, spare: nat): Cow
    requires Inv(c)
  {
    if v !in c.ring[0].space then DemandFault(c, v, spare)
    else if c.ring[0].space[v].writeable then c
    else
      assert Maps(c, 0, v, c.ring[0].space[v].frame);
      CowFault(c, v, spare)
  }

  ghost function Store(c: Cow, v: nat, offset: nat, value: Byte): Cow
    requires |c.ring| > 0 && v in c.ring[0].space && c.ring[0].space[v].frame in c.data && offset < PAGE_SIZE
  {
    var f := c.ring[0].space[v].frame;
    c.(data := c.data[f := c.data[f][offset := value]])
  }

  // The frames that FreePageEntries gives back for task i.  Its test for sharing looks the
  // *physical* address up in the other tasks' tables, as if it were a virtual one.
  ghost function Freed(c: Cow, i: nat): set<nat>
    requires i < |c.ring|
  {
    set v | v in c.ring[i].space && v in VisitedPages(c.ring[i].areas)
      && !HasIdentitySharer(c, i, c.ring[i].space[v].frame)
      :: c.ring[i].space[v].frame
  }

  ghost predicate HasIdentitySharer(c: Cow, i: nat, f: nat) {
    exists j: nat :: j != i && Maps(c, j, PageOf(PageAddress(f)), f)
  }

  ghost function Teardown(c: Cow, i: nat): Cow
    requires i < |c.ring| && |c.ring| > 1
  {
    Cow(DropAt(c.ring, i), c.data - Freed(c, i))
  }

  // Every page that task i shares is, in number, its own frame.
  ghost predicate SharesOnlyIdentityPages(c: Cow, i: nat) {
    forall v, j: nat, f :: Maps(c, i, v, f) && Maps(c, j, v, f) && j != i ==> v == PageOf(PageAddress(f))
  }

  ghost predicate ImageIsPrivate(c: Cow, p: Proc, image: map<nat, Page>) {
    && EmptyAreasAreCovered(p.areas)
    && p.space.Keys <= VisitedPages(p.areas)
    && (forall f | f in image :: f !in c.data)
    && (forall v | v in p.space :: p.space[v].present && p.space[v].user && p.space[v].frame in image)
    && (forall v, w | v in p.space && w in p.space && v != w :: p.space[v].frame != p.space[w].frame)
  }

  ghost function WithArea(c: Cow, a: Vma): Cow
    requires |c.ring| > 0
  {
    c.(ring := c.ring[0 := c.ring[0].(areas := c.ring[0].areas + [a])])
  }

  ghost predicate Enabled(c: Cow, op: Op)
    requires |c.ring| > 0
  {
    match op
    case Fork(copies, added) => IsForkPlan(c, c.ring[0], copies, added)
    case Fault(v, spare) => spare !in c.data && (v in c.ring[0].space || IsFirstPage(c.ring[0].areas, v))
    case Write(v, offset, _, spare) =>
      && offset < PAGE_SIZE && spare !in c.data
      && (v in c.ring[0].space || IsFirstPage(c.ring[0].areas, v))
    case Switch => true
    case Exec(p, image) => ImageIsPrivate(c, p, image)
    case Exit => |c.ring| > 1 && SharesOnlyIdentityPages(c, 0)
    case Kill(i) => 0 < i < |c.ring| && SharesOnlyIdentityPages(c, i)
    case Malloc(size) => EmptyAreasAreCovered(c.ring[0].areas + [NewArea(c.ring[0].areas, size)])
    case MapPage(v, _, spare) => spare !in c.data && v in VisitedPages(c.ring[0].areas)
  }

  ghost function Apply(c: Cow, op: Op): Cow
    requires Inv(c) && Enabled(c, op)
  {
    match op
    case Fork(copies, added) => ForkStep(c, copies, added)
    case Fault(v, spare) => Touch(c, v, spare)
    case Write(v, offset, value, spare) =>
      TouchMakesWriteable(c, v, spare);
      Store(Touch(c, v, spare), v, offset, value)
    case Switch => c.(ring := Advance(c.ring))
    case Exec(p, image) => Cow(ReplaceRunning(c.ring, p), c.data + image)
    case Exit => Teardown(c, 0)
    case Kill(i) => Teardown(c, i)
    case Malloc(size) => WithArea(c, NewArea(c.ring[0].areas, size))
    case MapPage(v, contents, spare) => Remap(c, 0, v, UserEntry(spare)).(data := c.data[spare := contents])
  }

  // The retried write cannot fault again.
  lemma TouchMakesWriteable(c: Cow, v: nat, spare: nat)
    requires Inv(c) && spare !in c.data
    ensures var d := Touch(c, v, spare);
            && |d.ring| == |c.ring| && v in d.ring[0].space && d.ring[0].space[v].writeable
            && d.ring[0].space[v].frame in d.data
  {
    if v in c.ring[0].space {
      assert Maps(c, 0, v, c.ring[0].space[v].frame);
    }
  }
}
