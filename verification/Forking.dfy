/**
 * fork of sys/task.c: the memory of the child is built, the child enters the ring and the parent's
 * pages become read-only.  Together that is one Fork step of the copy-on-write machine.
 */
module Forking {
  import opened PageFormat
  import opened Vmas
  import opened RingOps
  import opened VirtualMemory
  import opened CowMachine
  import opened RunQueue
  import opened ForkMemory
  import opened KernelViews
  import EagerRefinement

  // Frames nobody maps have been allocated.
  ghost predicate DataGrew(view: MemView, after: MemView) {
    match view
    case MemView(spaces, data, kernel) =>
      && after.spaces == spaces && after.kernel == kernel
      && forall f | f in data :: f in after.data && after.data[f] == data[f]
  }

  lemma AddingAFrame(view: MemView, f: nat, page: Page)
    requires f !in view.data
    ensures DataGrew(view, view.(data := view.data[f := page]))
  {
  }

  lemma GrowingTwice(view: MemView, mid: MemView, after: MemView)
    requires DataGrew(view, mid) && DataGrew(mid, after)
    ensures DataGrew(view, after)
  {
  }

  // The child's memory exists next to the parent's.
  ghost predicate IsChildBuilt(view: MemView, after: MemView, areas: seq<Vma>, parent: nat, child: nat, g: Progress) {
    match view
    case MemView(spaces, _, kernel) =>
      && parent in spaces && child !in spaces && after.kernel == kernel
      && after.spaces == spaces[child := ChildSpace(Proc(areas, spaces[parent]), g.copies)]
      && IsListProgress(areas, |areas|, g) && CopiesAreGood(view, after.data, spaces[parent], g)
  }

  lemma BuiltInSteps(v0: MemView, v1: MemView, v2: MemView, v3: MemView, v4: MemView,
                     areas: seq<Vma>, parent: nat, child: nat, g: Progress)
    requires DataGrew(v0, v1) && child !in v1.spaces && v2 == v1.(spaces := v1.spaces[child := map[]])
    requires parent in v0.spaces && AreUserEntries(v0, v0.spaces[parent])
    requires IsForked(v2, v3, areas, parent, child, g) && DataGrew(v3, v4)
    ensures IsChildBuilt(v0, v4, areas, parent, child, g)
  {
    CopiesStayGood(v0, v2, v3.data, v4.data, v0.spaces[parent], g);
    var space := ChildSpace(Proc(areas, v0.spaces[parent]), g.copies);
    assert v1.spaces[child := map[]][child := space] == v1.spaces[child := space];
  }

  lemma CopiesStayGood(base: MemView, later: MemView, data: map<nat, Page>, more: map<nat, Page>,
                       space: map<nat, Entry>, g: Progress)
    requires CopiesAreGood(later, data, space, g) && AreUserEntries(base, space)
    requires forall f | f in base.data :: f in later.data && later.data[f] == base.data[f]
    requires forall f | f in data :: f in more && more[f] == data[f]
    ensures CopiesAreGood(base, more, space, g)
  {
  }

  lemma EntriesStayGood(v0: MemView, v1: MemView, space: map<nat, Entry>)
    requires AreUserEntries(v0, space) && forall f | f in v0.data :: f in v1.data
    ensures AreUserEntries(v1, space)
  {
  }

  function Appended(copy: seq<Vma>, areas: seq<Vma>, i: nat): (longer: seq<Vma>)
    requires i < |areas| && copy == areas[..i]
    ensures longer == areas[..i + 1]
  {
    copy + [areas[i]]
  }

  // copyVMA: one frame for each area of the child's list
  method CopyVma(memory: Memory, areas: seq<Vma>, ghost reserve: nat) returns (copy: seq<Vma>)
    requires memory.Valid() && |memory.state.free| >= reserve + |areas|
    modifies memory`state, memory.frames, memory.bitmap.availFrames
    ensures memory.Valid() && DataGrew(old(memory.View()), memory.View()) && copy == areas
    ensures |memory.state.free| >= reserve && memory.state.dead == old(memory.state.dead)
  {
    copy := [];
    ghost var view := memory.View();
    for i := 0 to |areas|
      invariant memory.Valid() && DataGrew(view, memory.View()) && copy == areas[..i]
      invariant |memory.state.free| >= reserve + |areas| - i && memory.state.dead == old(memory.state.dead)
    {
      TakeFrame(memory, view);
      copy := Appended(copy, areas, i);
    }
  }

  // kmalloc for a record of the kernel
  method TakeFrame(memory: Memory, ghost view: MemView)
    requires memory.Valid() && |memory.state.free| > 0 && DataGrew(view, memory.View())
    modifies memory`state, memory.frames, memory.bitmap.availFrames
    ensures memory.Valid() && DataGrew(view, memory.View()) && memory.state.dead == old(memory.state.dead)
    ensures |memory.state.free| >= |old(memory.state.free)| - 1
  {
    ghost var mid := memory.View();
    var f := memory.Kmalloc();
    AddingAFrame(mid, f, ZeroPage());
    GrowingTwice(view, mid, memory.View());
  }

  // The child's root and its entries
  method MakeChildRoot(memory: Memory, areas: seq<Vma>, parent: nat, ghost view: MemView, ghost reserve: nat)
    returns (child: nat, ghost g: Progress, ghost root: MemView)
    requires memory.Valid() && AreUserVmas(areas) && |memory.state.free| >= reserve + 4 * AreaSteps(areas) + 1
    requires DataGrew(view, memory.View()) && parent in view.spaces && AreUserEntries(view, view.spaces[parent])
    requires StackPages(areas) <= view.spaces[parent].Keys && parent !in memory.state.dead
    modifies memory`state, memory.frames, memory.bitmap.availFrames
    ensures memory.Valid() && child !in old(memory.View()).spaces && child !in memory.state.dead
    ensures root == old(memory.View()).(spaces := old(memory.View()).spaces[child := map[]])
    ensures IsForked(root, memory.View(), areas, parent, child, g)
    ensures |memory.state.free| >= reserve && memory.state.dead == old(memory.state.dead)
  {
    EntriesStayGood(view, memory.View(), view.spaces[parent]);
    child := memory.GetNewPML4ForUser(parent);
    root := memory.View();
    g := CopyParentCr3Entries(memory, areas, parent, child, reserve);
  }

  ghost predicate CanBeForked(view: MemView, areas: seq<Vma>, parent: nat) {
    match view
    case MemView(spaces, _, _) =>
      && parent in spaces && AreUserVmas(areas) && AreUserEntries(view, spaces[parent])
      && StackPages(areas) <= spaces[parent].Keys
  }

  lemma TasksCanBeForked(ring: seq<Task>, view: MemView, dead: set<nat>)
    requires IsConsistent(ring, view, dead) && |ring| > 0
    ensures CanBeForked(view, ring[0].areas, ring[0].cr3) && ring[0].cr3 !in dead
  {
    EntriesInView(ring, view, dead, 0);
    TaskInView(ring, view, dead, 0);
  }

  // As many frames as fork may need
  ghost function ForkFrames(areas: seq<Vma>): nat {
    4 * AreaSteps(areas) + |areas| + 3
  }

  // createChildTask, as far as memory is concerned
  method BuildChild(memory: Memory, areas: seq<Vma>, parent: nat, ghost reserve: nat)
    returns (child: nat, copy: seq<Vma>, ghost g: Progress)
    requires memory.Valid() && |memory.state.free| >= reserve + ForkFrames(areas)
    requires CanBeForked(memory.View(), areas, parent) && parent !in memory.state.dead
    modifies memory`state, memory.frames, memory.bitmap.availFrames
    ensures memory.Valid() && memory.state.dead == old(memory.state.dead) && |memory.state.free| >= reserve
    ensures copy == areas && child !in memory.state.dead
    ensures IsChildBuilt(old(memory.View()), memory.View(), areas, parent, child, g)
  {
    ghost var v0 := memory.View();
    TakeFrame(memory, v0);
    ghost var v1 := memory.View();
    ghost var v2;
    child, g, v2 := MakeChildRoot(memory, areas, parent, v0, reserve + |areas| + 1);
    ghost var v3 := memory.View();
    TakeFrame(memory, v3);
    ghost var mid := memory.View();
    copy := CopyVma(memory, areas, reserve);
    GrowingTwice(v3, mid, memory.View());
    BuiltInSteps(v0, v1, v2, v3, memory.View(), areas, parent, child, g);
  }

  /* ---------- the step of the machine ---------- */

  ghost function Added(view: MemView, after: MemView): map<nat, Page> { after.data - view.data.Keys }

  // The step is the machine's fork, and the new task is the parent's child under this pid.
  ghost predicate IsForkWithPid(ring: seq<Task>, view: MemView, now: seq<Task>, after: MemView, dead: set<nat>,
                                copies: map<nat, nat>, pid: int) {
    && IsStep(ring, view, dead, now, after, dead, Fork(copies, Added(view, after)))
    && |ring| > 0 && |now| > 1 && now[0] == ring[0] && now[1].pid == pid && now[1].ppid == ring[0].pid
  }

  lemma BuiltIsPlan(view: MemView, after: MemView, areas: seq<Vma>, parent: nat, child: nat, g: Progress, c: Cow,
                    p: Proc)
    requires IsChildBuilt(view, after, areas, parent, child, g)
    requires c.data == view.data && p == Proc(areas, view.spaces[parent])
    ensures IsForkPlan(c, p, g.copies, Added(view, after))
    ensures view.data + Added(view, after) == after.data
  {
    assert areas[..|areas|] == areas;
  }

  lemma BuiltIsForkStep(ring: seq<Task>, view: MemView, mid: MemView, dead: set<nat>, child: Task, g: Progress)
    requires |ring| > 0 && IsConsistent(ring, view, dead) && child.areas == ring[0].areas
    requires IsChildBuilt(view, mid, child.areas, ring[0].cr3, child.cr3, g)
    ensures AbsOf(AddAfterRunning(ring, child), WithParentMarked(mid, child.areas, ring[0].cr3)) ==
              ForkStep(AbsOf(ring, view), g.copies, Added(view, mid))
  {
    var after, now := WithParentMarked(mid, child.areas, ring[0].cr3), AddAfterRunning(ring, child);
    var d := ForkStep(AbsOf(ring, view), g.copies, Added(view, mid));
    BuiltIsPlan(view, mid, child.areas, ring[0].cr3, child.cr3, g, AbsOf(ring, view), ProcOf(ring[0], view));
    forall i | 0 <= i < |ring|
      ensures ring[i].cr3 in view.spaces
    {
      TaskInView(ring, view, dead, i);
    }
    forall i | 0 <= i < |now|
      ensures ProcOf(now[i], after) == d.ring[i]
    {
    }
    assert AbsOf(now, after).ring == d.ring;
  }

  lemma BuiltIsFork(ring: seq<Task>, view: MemView, mid: MemView, dead: set<nat>, child: Task, g: Progress)
    requires |ring| > 0 && IsConsistent(ring, view, dead) && child.areas == ring[0].areas && child.cr3 !in dead
    requires IsChildBuilt(view, mid, child.areas, ring[0].cr3, child.cr3, g)
    ensures var after := WithParentMarked(mid, child.areas, ring[0].cr3);
            IsStep(ring, view, dead, AddAfterRunning(ring, child), after, dead, Fork(g.copies, Added(view, after)))
  {
    var after, now := WithParentMarked(mid, child.areas, ring[0].cr3), AddAfterRunning(ring, child);
    BuiltIsPlan(view, mid, child.areas, ring[0].cr3, child.cr3, g, AbsOf(ring, view), ProcOf(ring[0], view));
    BuiltIsForkStep(ring, view, mid, dead, child, g);
    EagerRefinement.ForkKeepsInv(AbsOf(ring, view), g.copies, Added(view, mid));
    assert Added(view, after) == Added(view, mid);
    forall i | 0 <= i < |now|
      ensures IsTask(now[i], after, dead)
    {
      TaskInView(ring, view, dead, if i < 2 then 0 else i - 1);
    }
    RootsStayOwn(ring, view, dead, child);
    RootsStayUsed(ring, view, after, dead, child);
  }

  lemma RootsStayUsed(ring: seq<Task>, view: MemView, after: MemView, dead: set<nat>, child: Task)
    requires |ring| > 0 && RootsAreUsed(ring, view, dead)
    requires forall r :: r in after.spaces <==> r in view.spaces || r == child.cr3
    ensures RootsAreUsed(AddAfterRunning(ring, child), after, dead)
  {
    var now := AddAfterRunning(ring, child);
    assert now[1].cr3 in Roots(now);
    forall r | r in Roots(ring)
      ensures r in Roots(now)
    {
      var i :| 0 <= i < |ring| && ring[i].cr3 == r;
      assert now[if i == 0 then 0 else i + 1].cr3 == r;
    }
  }

  lemma RootsStayOwn(ring: seq<Task>, view: MemView, dead: set<nat>, child: Task)
    requires |ring| > 0 && IsConsistent(ring, view, dead) && child.cr3 !in view.spaces
    ensures RootsAreOwn(AddAfterRunning(ring, child))
  {
    forall i | 0 <= i < |ring|
      ensures ring[i].cr3 in view.spaces
    {
      TaskInView(ring, view, dead, i);
    }
  }

  // The parent's entries are still there when it is the parent's turn.
  lemma BuiltEntries(view: MemView, mid: MemView, dead: set<nat>, ring: seq<Task>, g: Progress, child: nat)
    requires |ring| > 0 && IsConsistent(ring, view, dead)
    requires IsChildBuilt(view, mid, ring[0].areas, ring[0].cr3, child, g)
    ensures ring[0].cr3 in mid.spaces && AreUserEntries(mid, mid.spaces[ring[0].cr3])
  {
    EntriesInView(ring, view, dead, 0);
    EntriesStayGood(view, mid, view.spaces[ring[0].cr3]);
  }

  // The child is in the ring, under its own pid; its memory exists next to the parent's.
  ghost predicate IsBirth(ring: seq<Task>, view: MemView, now: seq<Task>, mid: MemView, dead: set<nat>, g: Progress,
                          pid: int) {
    && |ring| > 0 && |now| > 1 && now == AddAfterRunning(ring, now[1])
    && now[1].pid == pid && now[1].ppid == ring[0].pid
    && now[1].areas == ring[0].areas && now[1].cr3 !in dead
    && IsChildBuilt(view, mid, ring[0].areas, ring[0].cr3, now[1].cr3, g)
  }

  lemma BirthIsFork(ring: seq<Task>, view: MemView, now: seq<Task>, mid: MemView, dead: set<nat>, g: Progress, pid: int)
    requires IsConsistent(ring, view, dead) && IsBirth(ring, view, now, mid, dead, g, pid)
    ensures |ring| > 0 && ring[0].cr3 in mid.spaces && AreUserEntries(mid, mid.spaces[ring[0].cr3])
    ensures AreUserVmas(ring[0].areas) && ring[0].cr3 !in dead
    ensures IsForkWithPid(ring, view, now, WithParentMarked(mid, ring[0].areas, ring[0].cr3), dead, g.copies, pid)
  {
    TaskInView(ring, view, dead, 0);
    BuiltEntries(view, mid, dead, ring, g, now[1].cr3);
    BuiltIsFork(ring, view, mid, dead, now[1], g);
  }

  // The child's record, and its entry into the ring
  method AdoptChild(queue: RunQueue, root: nat, areas: seq<Vma>) returns (pid: int)
    requires IsInOrder(queue)
    modifies queue`ring, queue`pidCount, queue.running`next
    ensures IsInOrder(queue) && queue.running == old(queue.running)
    ensures pid == queue.pidCount == old(queue.pidCount) + 1 && |queue.ring| > 1
    ensures queue.ring == AddAfterRunning(old(queue.ring), queue.ring[1])
    ensures queue.ring[1].pid == pid && queue.ring[1].ppid == queue.running.pid
    ensures queue.ring[1].cr3 == root && queue.ring[1].areas == areas && fresh(queue.ring[1])
    ensures IsUntimed(queue.ring[1])
  {
    var child := new Task(queue.pidCount + 1, queue.running.pid, root, areas);
    queue.Adopt(child);
    pid := child.pid;
  }

  // The child's memory, for the running task
  method BuildChildBeside(memory: Memory, queue: RunQueue, ghost reserve: nat)
    returns (child: nat, copy: seq<Vma>, ghost g: Progress)
    requires memory.Valid() && IsInOrder(queue) && IsConsistent(queue.ring, memory.View(), memory.state.dead)
    requires |memory.state.free| >= reserve + ForkFrames(queue.running.areas)
    modifies memory`state, memory.frames, memory.bitmap.availFrames
    ensures memory.Valid() && memory.state.dead == old(memory.state.dead) && |memory.state.free| >= reserve
    ensures IsInOrder(queue) && copy == queue.running.areas && child !in memory.state.dead
    ensures IsChildBuilt(old(memory.View()), memory.View(), copy, queue.running.cr3, child, g)
  {
    TasksCanBeForked(queue.ring, memory.View(), memory.state.dead);
    child, copy, g := BuildChild(memory, queue.running.areas, queue.running.cr3, reserve);
    assert IsInOrder(queue) by {
      QueueStays(queue);
    }
  }

  // fork, up to the marking of the parent's pages
  method AddChild(memory: Memory, queue: RunQueue, ghost reserve: nat) returns (pid: int, ghost g: Progress)
    requires memory.Valid() && IsInOrder(queue) && IsConsistent(queue.ring, memory.View(), memory.state.dead)
    requires |memory.state.free| >= reserve + ForkFrames(queue.running.areas)
    modifies memory`state, memory.frames, memory.bitmap.availFrames, queue`ring, queue`pidCount, queue.running`next
    ensures memory.Valid() && memory.state.dead == old(memory.state.dead) && |memory.state.free| >= reserve
    ensures IsInOrder(queue) && queue.running == old(queue.running)
    ensures IsBirth(old(queue.ring), old(memory.View()), queue.ring, memory.View(), memory.state.dead, g, pid)
    ensures |queue.ring| > 1 && fresh(queue.ring[1]) && IsUntimed(queue.ring[1])
    ensures pid == queue.pidCount == old(queue.pidCount) + 1
  {
    var root, areas;
    root, areas, g := BuildChildBeside(memory, queue, reserve);
    pid := AdoptChild(queue, root, areas);
  }

  // The marking of the parent's pages, the last step of fork
  method FinishFork(memory: Memory, parent: Task, ghost ring: seq<Task>, ghost view: MemView, ghost now: seq<Task>,
                    ghost g: Progress, ghost pid: int)
    requires memory.Valid() && IsConsistent(ring, view, memory.state.dead) && |ring| > 0 && parent == ring[0]
    requires IsBirth(ring, view, now, memory.View(), memory.state.dead, g, pid)
    modifies memory`state, memory.frames
    ensures memory.Valid() && memory.state.dead == old(memory.state.dead) && memory.state.free == old(memory.state.free)
    ensures IsForkWithPid(ring, view, now, memory.View(), memory.state.dead, g.copies, pid)
  {
    BirthIsFork(ring, view, now, memory.View(), memory.state.dead, g, pid);
    MakeParentCr3asReadOnly(memory, parent.areas, parent.cr3);
  }

  // It does not touch the ring.
  method FinishBeside(memory: Memory, queue: RunQueue, parent: Task, ghost ring: seq<Task>, ghost view: MemView,
                      ghost now: seq<Task>, ghost g: Progress, ghost pid: int)
    requires memory.Valid() && IsInOrder(queue)
    requires IsConsistent(ring, view, memory.state.dead) && |ring| > 0 && parent == ring[0]
    requires IsBirth(ring, view, now, memory.View(), memory.state.dead, g, pid)
    modifies memory`state, memory.frames
    ensures memory.Valid() && IsInOrder(queue)
    ensures memory.state.dead == old(memory.state.dead) && memory.state.free == old(memory.state.free)
    ensures IsForkWithPid(ring, view, now, memory.View(), memory.state.dead, g.copies, pid)
  {
    FinishFork(memory, parent, ring, view, now, g, pid);
    assert IsInOrder(queue) by {
      QueueStays(queue);
    }
  }

  // fork: the child is built, enters the ring, and the parent's pages are marked.
  method ForkBeside(memory: Memory, queue: RunQueue, ghost reserve: nat) returns (pid: int, ghost copies: map<nat, nat>)
    requires memory.Valid() && IsInOrder(queue) && IsConsistent(queue.ring, memory.View(), memory.state.dead)
    requires |memory.state.free| >= reserve + ForkFrames(queue.running.areas)
    modifies memory`state, memory.frames, memory.bitmap.availFrames, queue`ring, queue`pidCount, queue.running`next
    ensures memory.Valid() && IsInOrder(queue)
    ensures |memory.state.free| >= reserve && memory.state.dead == old(memory.state.dead)
    ensures |queue.ring| > 1 && fresh(queue.ring[1]) && queue.ring[1].areas == old(queue.running).areas
    ensures IsUntimed(queue.ring[1]) && pid == queue.pidCount == old(queue.pidCount) + 1
    ensures queue.ring == AddAfterRunning(old(queue.ring), queue.ring[1])
    ensures IsForkWithPid(old(queue.ring), old(memory.View()), queue.ring, memory.View(),
              memory.state.dead, copies, pid)
  {
    ghost var ring, view := queue.ring, memory.View();
    var parent := queue.running;
    ghost var g;
    pid, g := AddChild(memory, queue, reserve);
    FinishBeside(memory, queue, parent, ring, view, queue.ring, g, pid);
    copies := g.copies;
  }
}
