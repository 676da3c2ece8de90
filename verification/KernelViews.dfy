/**
 * How the heap of the kernel (ring of tasks, page tables, frames) stands for a state of the
 * copy-on-write machine, and what single changes of a view mean there.
 */
module KernelViews {
  import opened PageFormat
  import opened RingOps
  import opened Vmas
  import opened VirtualMemory
  import opened CowMachine
  import opened RunQueue
  import opened ForkMemory
  import EagerRefinement

  ghost function SpaceIn(view: MemView, root: nat): map<nat, Entry> {
    if root in view.spaces then view.spaces[root] else map[]
  }

  ghost function ProcOf(t: Task, view: MemView): Proc { Proc(t.areas, SpaceIn(view, t.cr3)) }

  ghost function ProcsOf(ring: seq<Task>, view: MemView): seq<Proc> {
    seq(|ring|, i requires 0 <= i < |ring| => ProcOf(ring[i], view))
  }

  ghost function AbsOf(ring: seq<Task>, view: MemView): Cow { Cow(ProcsOf(ring, view), view.data) }

  // A task of the ring: its own live address space, its areas, and mapped stack pages (fork
  // reads them through the task's tables).
  ghost predicate IsTask(t: Task, view: MemView, dead: set<nat>) {
    match view
    case MemView(spaces, _, _) =>
      t.cr3 in spaces && t.cr3 !in dead && AreUserVmas(t.areas) && StackPages(t.areas) <= spaces[t.cr3].Keys
  }

  twostate lemma MemoryStays(memory: Memory)
    requires old(memory.Valid())
    requires unchanged(memory) && unchanged(memory.frames) && unchanged(memory.bitmap.availFrames)
    ensures memory.Valid() && memory.View() == old(memory.View())
  {
  }

  ghost predicate RootsAreOwn(ring: seq<Task>) {
    forall i, j | 0 <= i < j < |ring| :: ring[i].cr3 != ring[j].cr3
  }

  ghost function Roots(ring: seq<Task>): set<nat> { set i | 0 <= i < |ring| :: ring[i].cr3 }

  // Every address space belongs to a task of the ring or will not be run again.
  ghost predicate RootsAreUsed(ring: seq<Task>, view: MemView, dead: set<nat>) {
    match view
    case MemView(spaces, _, _) => forall r | r in spaces :: r in dead || r in Roots(ring)
  }

  ghost predicate IsConsistent(ring: seq<Task>, view: MemView, dead: set<nat>) {
    && RootsAreOwn(ring) && RootsAreUsed(ring, view, dead)
    && (forall i | 0 <= i < |ring| :: IsTask(ring[i], view, dead))
    && Inv(AbsOf(ring, view))
  }

  // The kernel's step from (ring, view, dead) to (now, after, later) is this step of the machine, and
  // the pages of the kernel's slot stay.
  ghost predicate IsStep(ring: seq<Task>, view: MemView, dead: set<nat>, now: seq<Task>, after: MemView,
                         later: set<nat>, op: Op) {
    && IsConsistent(ring, view, dead) && IsConsistent(now, after, later)
    && Enabled(AbsOf(ring, view), op) && after.kernel == view.kernel
    && AbsOf(now, after) == Apply(AbsOf(ring, view), op)
  }

  lemma EntriesInView(ring: seq<Task>, view: MemView, dead: set<nat>, i: nat)
    requires IsConsistent(ring, view, dead) && i < |ring|
    ensures ring[i].cr3 in view.spaces && AreUserEntries(view, view.spaces[ring[i].cr3])
  {
    var c := AbsOf(ring, view);
    var space := view.spaces[ring[i].cr3];
    assert IsTask(ring[i], view, dead);
    assert c.ring[i].space == space;
    forall v | v in space
      ensures space[v].present && space[v].user && space[v].frame in view.data
    {
      assert Maps(c, i, v, space[v].frame);
    }
  }

  // A change at one page of the running task's address space, and one that also fills a frame
  lemma SetPageIsRemap(ring: seq<Task>, view: MemView, v: nat, e: Entry)
    requires |ring| > 0 && RootsAreOwn(ring) && ring[0].cr3 in view.spaces && e.present
    ensures AbsOf(ring, SetPage(view, ring[0].cr3, v, e)) == Remap(AbsOf(ring, view), 0, v, e)
  {
    var after := SetPage(view, ring[0].cr3, v, e);
    forall i | 0 <= i < |ring|
      ensures ProcOf(ring[i], after) == Remap(AbsOf(ring, view), 0, v, e).ring[i]
    {
    }
  }

  lemma DataStaysApart(ring: seq<Task>, view: MemView, data: map<nat, Page>)
    ensures AbsOf(ring, view.(data := data)) == AbsOf(ring, view).(data := data)
  {
    assert forall i | 0 <= i < |ring| :: ProcOf(ring[i], view.(data := data)) == ProcOf(ring[i], view);
  }

  lemma WithCopyIsRemap(ring: seq<Task>, view: MemView, v: nat, f: nat, page: Page)
    requires |ring| > 0 && RootsAreOwn(ring) && ring[0].cr3 in view.spaces
    ensures AbsOf(ring, WithCopy(view, ring[0].cr3, v, f, page)) ==
              Remap(AbsOf(ring, view), 0, v, UserEntry(f)).(data := view.data[f := page])
  {
    var filled := view.(data := view.data[f := page]);
    DataStaysApart(ring, view, view.data[f := page]);
    SetPageIsRemap(ring, filled, v, UserEntry(f));
  }

  // Tasks stay tasks when one address space gains or changes a page, or frames change contents.
  lemma TasksStay(ring: seq<Task>, view: MemView, after: MemView, dead: set<nat>)
    requires IsConsistent(ring, view, dead)
    requires forall r :: r in after.spaces <==> r in view.spaces
    requires forall r | r in view.spaces :: view.spaces[r].Keys <= after.spaces[r].Keys
    requires Inv(AbsOf(ring, after))
    ensures IsConsistent(ring, after, dead)
  {
    assert forall i | 0 <= i < |ring| :: IsTask(ring[i], view, dead);
  }

  /* ---------- counting sharers ---------- */

  // Does the walk of page v in task t end at frame f?
  ghost predicate Reaches(t: Task, view: MemView, v: nat, f: nat) {
    if v < USER_PAGES then HasPage(ProcOf(t, view), v, f) else v in view.kernel && view.kernel[v].frame == f
  }

  // How many of the first k tasks of the ring have frame f at page v
  ghost function TaskCount(ring: seq<Task>, view: MemView, k: nat, v: nat, f: nat): nat
    requires k <= |ring|
  {
    if k == 0 then 0 else TaskCount(ring, view, k - 1, v, f) + if Reaches(ring[k - 1], view, v, f) then 1 else 0
  }

  lemma {:induction false} TaskCountIsShareCount(ring: seq<Task>, view: MemView, k: nat, v: nat, f: nat)
    requires k <= |ring| && v < USER_PAGES
    ensures TaskCount(ring, view, k, v, f) == ShareCount(ProcsOf(ring, view)[..k], v, f)
  {
    if k > 0 {
      var procs := ProcsOf(ring, view);
      TaskCountIsShareCount(ring, view, k - 1, v, f);
      assert procs[..k][..k - 1] == procs[..k - 1];
    }
  }

  lemma CountAll(ring: seq<Task>, view: MemView, v: nat, f: nat)
    requires v < USER_PAGES
    ensures TaskCount(ring, view, |ring|, v, f) == ShareCount(AbsOf(ring, view).ring, v, f)
  {
    TaskCountIsShareCount(ring, view, |ring|, v, f);
    assert ProcsOf(ring, view)[..|ring|] == ProcsOf(ring, view);
  }

  // All tasks share the pages of the kernel's slot.
  lemma {:induction false} AllReachKernelPages(ring: seq<Task>, view: MemView, k: nat, v: nat)
    requires k <= |ring| && v >= USER_PAGES && v in view.kernel
    ensures TaskCount(ring, view, k, v, view.kernel[v].frame) == k
  {
    if k > 0 {
      AllReachKernelPages(ring, view, k - 1, v);
    }
  }

  lemma TaskInView(ring: seq<Task>, view: MemView, dead: set<nat>, i: nat)
    requires IsConsistent(ring, view, dead) && i < |ring|
    ensures IsTask(ring[i], view, dead)
  {
  }

  ghost predicate HaveSpaces(ring: seq<Task>, view: MemView) {
    match view
    case MemView(spaces, _, _) => forall i | 0 <= i < |ring| :: ring[i].cr3 in spaces
  }

  lemma TasksHaveSpaces(ring: seq<Task>, view: MemView, dead: set<nat>)
    requires IsConsistent(ring, view, dead)
    ensures HaveSpaces(ring, view)
  {
    forall i | 0 <= i < |ring|
      ensures ring[i].cr3 in view.spaces
    {
      TaskInView(ring, view, dead, i);
    }
  }

  lemma SpaceAt(ring: seq<Task>, view: MemView, k: nat)
    requires HaveSpaces(ring, view) && k < |ring|
    ensures ring[k].cr3 in view.spaces
  {
  }

  /* ---------- the three ways in which the fault handler resumes a task ---------- */

  // The step from view to after is the machine's fault at page v.
  ghost predicate IsTouch(ring: seq<Task>, view: MemView, after: MemView, dead: set<nat>, v: nat, spare: nat) {
    IsStep(ring, view, dead, ring, after, dead, Fault(v, spare))
  }

  // The running task has entry e at page v.
  ghost predicate HasEntry(ring: seq<Task>, view: MemView, v: nat, e: Entry) {
    match view
    case MemView(spaces, data, _) =>
      && |ring| > 0 && ring[0].cr3 in spaces && v in spaces[ring[0].cr3] && spaces[ring[0].cr3][v] == e
      && e.frame in data
  }

  // The running task gets a fresh frame for page v.
  lemma WithCopyIsConsistent(ring: seq<Task>, view: MemView, dead: set<nat>, v: nat, f: nat, page: Page)
    requires IsConsistent(ring, view, dead) && f !in view.data && v in VisitedPages(ring[0].areas)
    requires ring[0].cr3 in view.spaces
    ensures IsConsistent(ring, WithCopy(view, ring[0].cr3, v, f, page), dead)
  {
    WithCopyIsRemap(ring, view, v, f, page);
    EagerRefinement.FreshPageKeepsInv(AbsOf(ring, view), v, f, page);
    TasksStay(ring, view, WithCopy(view, ring[0].cr3, v, f, page), dead);
  }

  lemma DemandIsTouch(ring: seq<Task>, view: MemView, dead: set<nat>, v: nat, f: nat)
    requires IsConsistent(ring, view, dead) && f !in view.data && IsFirstPage(ring[0].areas, v)
    requires ring[0].cr3 in view.spaces && v !in view.spaces[ring[0].cr3]
    ensures IsTouch(ring, view, WithCopy(view, ring[0].cr3, v, f, ZeroPage()), dead, v, f)
  {
    assert EmptyAreasAreCovered(AbsOf(ring, view).ring[0].areas);
    AcceptedPagesAreVisited(ring[0].areas);
    WithCopyIsRemap(ring, view, v, f, ZeroPage());
    WithCopyIsConsistent(ring, view, dead, v, f, ZeroPage());
  }

  lemma CopyIsTouch(ring: seq<Task>, view: MemView, dead: set<nat>, v: nat, f: nat, e: Entry)
    requires IsConsistent(ring, view, dead) && f !in view.data && HasEntry(ring, view, v, e)
    requires !e.writeable && ShareCount(AbsOf(ring, view).ring, v, e.frame) != 1
    ensures IsTouch(ring, view, WithCopy(view, ring[0].cr3, v, f, view.data[e.frame]), dead, v, f)
  {
    var c := AbsOf(ring, view);
    assert v in c.ring[0].space;
    WithCopyIsRemap(ring, view, v, f, view.data[e.frame]);
    WithCopyIsConsistent(ring, view, dead, v, f, view.data[e.frame]);
  }

  lemma UnshareIsTouch(ring: seq<Task>, view: MemView, dead: set<nat>, v: nat, f: nat, e: Entry)
    requires v < USER_PAGES
    requires IsConsistent(ring, view, dead) && f !in view.data && HasEntry(ring, view, v, e)
    requires !e.writeable && ShareCount(AbsOf(ring, view).ring, v, e.frame) == 1
    ensures IsTouch(ring, view, Marked(view, ring[0].cr3, v, false), dead, v, f)
  {
    var c := AbsOf(ring, view);
    assert c.ring[0].space[v] == e;
    assert Maps(c, 0, v, e.frame);
    SetPageIsRemap(ring, view, v, e.(writeable := true));
    EagerRefinement.UnshareKeepsInv(c, v);
    TasksStay(ring, view, Marked(view, ring[0].cr3, v, false), dead);
  }

  // Nothing to do at a page that may be written
  lemma WriteableIsTouch(ring: seq<Task>, view: MemView, dead: set<nat>, v: nat, f: nat, e: Entry)
    requires IsConsistent(ring, view, dead) && f !in view.data && HasEntry(ring, view, v, e) && e.writeable
    ensures IsTouch(ring, view, view, dead, v, f)
  {
    assert AbsOf(ring, view).ring[0].space[v] == e;
  }

  lemma TouchGivesEntry(ring: seq<Task>, view: MemView, after: MemView, dead: set<nat>, v: nat, spare: nat)
    requires IsTouch(ring, view, after, dead, v, spare)
    ensures |ring| > 0 && ring[0].cr3 in after.spaces && v in after.spaces[ring[0].cr3]
    ensures after.spaces[ring[0].cr3][v].writeable && HasEntry(ring, after, v, after.spaces[ring[0].cr3][v])
  {
    TouchMakesWriteable(AbsOf(ring, view), v, spare);
    EntriesInView(ring, after, dead, 0);
    assert AbsOf(ring, after).ring[0].space == after.spaces[ring[0].cr3];
  }

  ghost function Stored(view: MemView, f: nat, offset: nat, value: Byte): MemView
    requires f in view.data && offset < PAGE_SIZE
  {
    view.(data := view.data[f := view.data[f][offset := value]])
  }

  // A touch and then a store to the page is a user write.
  lemma TouchAndStore(ring: seq<Task>, view: MemView, mid: MemView, dead: set<nat>, v: nat, spare: nat, e: Entry,
                      offset: nat, value: Byte)
    requires IsTouch(ring, view, mid, dead, v, spare) && HasEntry(ring, mid, v, e) && e.writeable && offset < PAGE_SIZE
    ensures IsStep(ring, view, dead, ring, Stored(mid, e.frame, offset, value), dead, Write(v, offset, value, spare))
  {
    var after, c := Stored(mid, e.frame, offset, value), AbsOf(ring, mid);
    assert c.ring[0].space[v] == e;
    DataStaysApart(ring, mid, after.data);
    EagerRefinement.StoreRefines(c, v, offset, value);
    TasksStay(ring, mid, after, dead);
  }

  /* ---------- the context switch ---------- */

  lemma SwitchIsStep(ring: seq<Task>, view: MemView, dead: set<nat>)
    requires IsConsistent(ring, view, dead) && |ring| > 0
    ensures IsStep(ring, view, dead, Advance(ring), view, dead, Switch)
  {
    var c, now := AbsOf(ring, view), Advance(ring);
    EagerRefinement.SwitchRefines(c);
    forall i | 0 <= i < |now|
      ensures IsTask(now[i], view, dead) && ProcOf(now[i], view) == Advance(c.ring)[i]
    {
      TaskInView(ring, view, dead, if i < |ring| - 1 then i + 1 else 0);
    }
    assert AbsOf(now, view) == c.(ring := Advance(c.ring));
    RootsTurn(ring);
  }

  lemma RootsTurn(ring: seq<Task>)
    requires |ring| > 0
    ensures Roots(ring) <= Roots(Advance(ring)) && (RootsAreOwn(ring) ==> RootsAreOwn(Advance(ring)))
  {
    var now := Advance(ring);
    forall r | r in Roots(ring)
      ensures r in Roots(now)
    {
      var i :| 0 <= i < |ring| && ring[i].cr3 == r;
      assert now[if i == 0 then |ring| - 1 else i - 1].cr3 == r;
    }
  }

  method SwitchBeside(memory: Memory, queue: RunQueue) returns (alarm: bool)
    requires memory.Valid() && IsInOrder(queue)
    modifies queue`running, queue`ring, queue.ring`currAlarmCount, queue.ring`expectedAlarmCount
    ensures memory.Valid() && IsInOrder(queue) && |old(queue.ring)| > 0 && queue.ring == Advance(old(queue.ring))
    ensures alarm <==> old(After(queue.ring, 0).currAlarmCount) > old(After(queue.ring, 0).expectedAlarmCount)
    ensures forall t | t in queue.ring && !(alarm && t == queue.running) ::
              t.currAlarmCount == old(t.currAlarmCount) && t.expectedAlarmCount == old(t.expectedAlarmCount)
    ensures alarm ==> queue.running.currAlarmCount == 0 && queue.running.expectedAlarmCount == 0
  {
    alarm := queue.RunNext();
    MemoryStays(memory);
  }

  /* ---------- the first state ---------- */

  // sbush alone, in private frames, is a state to start from.
  lemma FirstTaskIsConsistent(sbush: Task, view: MemView, dead: set<nat>)
    requires IsTask(sbush, view, dead) && RootsAreUsed([sbush], view, dead)
    requires EmptyAreasAreCovered(sbush.areas) && view.spaces[sbush.cr3].Keys <= VisitedPages(sbush.areas)
    requires AreUserEntries(view, view.spaces[sbush.cr3])
    requires forall v, w | v in view.spaces[sbush.cr3] && w in view.spaces[sbush.cr3] && v != w ::
               view.spaces[sbush.cr3][v].frame != view.spaces[sbush.cr3][w].frame
    ensures IsConsistent([sbush], view, dead)
  {
    var c := AbsOf([sbush], view);
    assert c.ring[0].space == view.spaces[sbush.cr3];
    assert EntriesAreUserEntries(c);
    assert SharingIsReadOnly(c);
    assert PagesAreCovered(c);
  }
}
