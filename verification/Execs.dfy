/**
 * A successful exec of sys/task.c: a new address space is filled with the pages of the program, its
 * stack and its arguments, and a new task with the old one's pid takes the old one's place.  What
 * the pages contain is a parameter; the reading of the executable file is not part of this model.
 */
module Execs {
  import opened PageFormat
  import opened Vmas
  import opened RingOps
  import opened VirtualMemory
  import opened CowMachine
  import opened RunQueue
  import opened ForkMemory
  import opened KernelViews
  import opened PageFaults
  import opened Forking
  import EagerRefinement

  datatype Section = Section(address: nat, contents: Page)

  ghost predicate AreUserSections(sections: seq<Section>) {
    forall i | 0 <= i < |sections| :: PageOf(sections[i].address) < USER_PAGES
  }

  ghost function Loaded(sections: seq<Section>): map<nat, Page> {
    if sections == [] then map[]
    else
      var last := sections[|sections| - 1];
      Loaded(sections[..|sections| - 1])[PageOf(last.address) := last.contents]
  }

  lemma NextLoaded(sections: seq<Section>, i: nat)
    requires i < |sections|
    ensures Loaded(sections[..i + 1]) == Loaded(sections[..i])[PageOf(sections[i].address) := sections[i].contents]
  {
    assert sections[..i + 1][..i] == sections[..i];
  }

  // A page holds what the last section for it contains.
  lemma {:induction false} LastSectionCounts(sections: seq<Section>, i: nat)
    requires i < |sections|
    requires forall j | i < j < |sections| :: PageOf(sections[j].address) != PageOf(sections[i].address)
    ensures PageOf(sections[i].address) in Loaded(sections)
    ensures Loaded(sections)[PageOf(sections[i].address)] == sections[i].contents
  {
    var less := sections[..|sections| - 1];
    if i < |less| {
      assert less[i] == sections[i] && forall j | i < j < |less| :: less[j] == sections[j];
      LastSectionCounts(less, i);
    }
  }

  lemma {:induction false} OnlySectionsAreLoaded(sections: seq<Section>, v: nat)
    ensures v in Loaded(sections) <==> exists i :: 0 <= i < |sections| && PageOf(sections[i].address) == v
  {
    if sections != [] {
      var less := sections[..|sections| - 1];
      OnlySectionsAreLoaded(less, v);
      assert forall i | 0 <= i < |less| :: less[i] == sections[i];
    }
  }

  // Private frames, allocated since `data`, hold the image.
  ghost predicate IsImage(space: map<nat, Entry>, now: map<nat, Page>, data: map<nat, Page>, image: map<nat, Page>) {
    && space.Keys == image.Keys
    && (forall v | v in space :: space[v] == UserEntry(space[v].frame))
    && (forall v | v in space :: space[v].frame in now && space[v].frame !in data && now[space[v].frame] == image[v])
    && (forall v, w | v in space && w in space && v != w :: space[v].frame != space[w].frame)
  }

  ghost predicate IsLoaded(base: MemView, view: MemView, root: nat, image: map<nat, Page>) {
    match base
    case MemView(spaces, data, kernel) =>
      && root in view.spaces && view.kernel == kernel
      && view.spaces == spaces[root := view.spaces[root]]
      && (forall f | f in data :: f in view.data && view.data[f] == data[f])
      && IsImage(view.spaces[root], view.data, data, image)
  }

  lemma NothingLoaded(base: MemView, root: nat)
    requires root in base.spaces && base.spaces[root] == map[]
    ensures IsLoaded(base, base, root, map[])
  {
    assert base.spaces == base.spaces[root := base.spaces[root]];
  }

  lemma LoadOneMore(base: MemView, view: MemView, root: nat, image: map<nat, Page>, v: nat, f: nat, page: Page)
    requires IsLoaded(base, view, root, image) && f !in view.data
    ensures IsLoaded(base, WithCopy(view, root, v, f, page), root, image[v := page])
  {
    var after := WithCopy(view, root, v, f, page);
    assert after.spaces == base.spaces[root := after.spaces[root]];
    ImageGrows(view.spaces[root], view.data, base.data, image, v, f, page);
  }

  lemma ImageGrows(space: map<nat, Entry>, now: map<nat, Page>, data: map<nat, Page>, image: map<nat, Page>, v: nat,
                   f: nat, page: Page)
    requires IsImage(space, now, data, image) && f !in now && f !in data
    ensures IsImage(space[v := UserEntry(f)], now[f := page], data, image[v := page])
  {
    var more := space[v := UserEntry(f)];
    assert more.Keys == image[v := page].Keys;
  }

  method LoadSections(memory: Memory, root: nat, sections: seq<Section>, ghost reserve: nat)
    requires memory.Valid() && |memory.state.free| >= reserve + 4 * |sections|
    requires root in memory.View().spaces && memory.View().spaces[root] == map[]
    requires AreUserSections(sections)
    modifies memory`state, memory.frames, memory.bitmap.availFrames
    ensures memory.Valid() && memory.state.dead == old(memory.state.dead) && |memory.state.free| >= reserve
    ensures IsLoaded(old(memory.View()), memory.View(), root, Loaded(sections))
  {
    ghost var base, image := memory.View(), map[];
    NothingLoaded(base, root);
    for i := 0 to |sections|
      invariant memory.Valid() && memory.state.dead == old(memory.state.dead)
      invariant |memory.state.free| >= reserve + 4 * (|sections| - i)
      invariant image == Loaded(sections[..i]) && IsLoaded(base, memory.View(), root, image)
    {
      NextLoaded(sections, i);
      image := LoadSection(memory, root, sections[i], base, image);
    }
    assert sections[..|sections|] == sections;
  }

  method LoadSection(memory: Memory, root: nat, section: Section, ghost base: MemView, ghost image: map<nat, Page>)
    returns (ghost more: map<nat, Page>)
    requires memory.Valid() && |memory.state.free| >= 4 && PageOf(section.address) < USER_PAGES
    requires IsLoaded(base, memory.View(), root, image)
    modifies memory`state, memory.frames, memory.bitmap.availFrames
    ensures memory.Valid() && memory.state.dead == old(memory.state.dead)
    ensures |old(memory.state.free)| <= |memory.state.free| + 4
    ensures more == image[PageOf(section.address) := section.contents] && IsLoaded(base, memory.View(), root, more)
  {
    ghost var view := memory.View();
    var f := MapFreshPage(memory, section.address, root, section.contents);
    LoadOneMore(base, view, root, image, PageOf(section.address), f, section.contents);
    more := image[PageOf(section.address) := section.contents];
  }

  // The new program's memory exists next to the others'.
  ghost predicate IsProgramBuilt(view: MemView, after: MemView, root: nat, image: map<nat, Page>) {
    match view
    case MemView(spaces, data, kernel) =>
      && root !in spaces && root in after.spaces && after.kernel == kernel
      && after.spaces == spaces[root := after.spaces[root]]
      && (forall f | f in data :: f in after.data && after.data[f] == data[f])
      && IsImage(after.spaces[root], after.data, data, image)
  }

  lemma ProgramInSteps(v0: MemView, v1: MemView, v2: MemView, v3: MemView, v4: MemView, root: nat,
                       image: map<nat, Page>)
    requires DataGrew(v0, v1) && root !in v1.spaces && v2 == v1.(spaces := v1.spaces[root := map[]])
    requires IsLoaded(v2, v3, root, image) && DataGrew(v3, v4)
    ensures IsProgramBuilt(v0, v4, root, image)
  {
    ImageStays(v3.spaces[root], v3.data, v4.data, v2.data, v0.data, image);
    assert v1.spaces[root := map[]][root := v3.spaces[root]] == v1.spaces[root := v3.spaces[root]];
  }

  lemma ImageStays(space: map<nat, Entry>, now: map<nat, Page>, more: map<nat, Page>, data: map<nat, Page>,
                   less: map<nat, Page>, image: map<nat, Page>)
    requires IsImage(space, now, data, image)
    requires forall f | f in now :: f in more && more[f] == now[f]
    requires forall f | f in less :: f in data
    ensures IsImage(space, more, less, image)
  {
  }

  // A new root, and the program in it.  Its kernel slot comes from the root in use, which is a
  // process's or, at boot, the kernel's.
  method LoadProgram(memory: Memory, current: nat, sections: seq<Section>, ghost reserve: nat)
    returns (root: nat, ghost base: MemView)
    requires memory.Valid() && |memory.state.free| >= reserve + 4 * |sections| + 1
    requires current in memory.View().spaces && (current !in memory.state.dead || memory.KernelIsClosed())
    requires AreUserSections(sections)
    modifies memory`state, memory.frames, memory.bitmap.availFrames
    ensures memory.Valid() && memory.state.dead == old(memory.state.dead) && |memory.state.free| >= reserve
    ensures root !in old(memory.View()).spaces && root !in memory.state.dead
    ensures base == old(memory.View()).(spaces := old(memory.View()).spaces[root := map[]])
    ensures IsLoaded(base, memory.View(), root, Loaded(sections))
  {
    root := memory.GetNewPML4ForUser(current);
    base := memory.View();
    LoadSections(memory, root, sections, reserve);
  }

  // As many frames as a new program may need
  ghost function ProgramFrames(areas: seq<Vma>, sections: seq<Section>): nat {
    4 * |sections| + |areas| + 4
  }

  // The memory that exec allocates: the task, its address space, its areas, its kernel stack and
  // its directory buffer
  method BuildProgram(memory: Memory, current: nat, areas: seq<Vma>, sections: seq<Section>, ghost reserve: nat)
    returns (root: nat, list: seq<Vma>)
    requires memory.Valid() && |memory.state.free| >= reserve + ProgramFrames(areas, sections)
    requires current in memory.View().spaces && current !in memory.state.dead
    requires AreUserSections(sections)
    modifies memory`state, memory.frames, memory.bitmap.availFrames
    ensures memory.Valid() && memory.state.dead == old(memory.state.dead) && |memory.state.free| >= reserve
    ensures list == areas && root !in memory.state.dead
    ensures IsProgramBuilt(old(memory.View()), memory.View(), root, Loaded(sections))
  {
    ghost var v0 := memory.View();
    TakeFrame(memory, v0);
    ghost var v1, v2 := memory.View(), memory.View();
    root, v2 := LoadProgram(memory, current, sections, reserve + |areas| + 2);
    ghost var v3 := memory.View();
    TakeFrame(memory, v3);
    TakeFrame(memory, v3);
    ghost var mid := memory.View();
    list := CopyVma(memory, areas, reserve);
    GrowingTwice(v3, mid, memory.View());
    ProgramInSteps(v0, v1, v2, v3, memory.View(), root, Loaded(sections));
  }

  /* ---------- the step of the machine ---------- */

  // The areas of the program cover its pages, and its stacks are mapped.
  ghost predicate IsProgram(areas: seq<Vma>, image: map<nat, Page>) {
    AreUserVmas(areas) && EmptyAreasAreCovered(areas) && image.Keys <= VisitedPages(areas)
      && StackPages(areas) <= image.Keys
  }

  lemma BuiltIsPrivate(view: MemView, mid: MemView, root: nat, areas: seq<Vma>, image: map<nat, Page>, c: Cow)
    requires IsProgramBuilt(view, mid, root, image) && IsProgram(areas, image) && c.data == view.data
    ensures ImageIsPrivate(c, Proc(areas, mid.spaces[root]), Added(view, mid))
    ensures view.data + Added(view, mid) == mid.data
    ensures EagerRefinement.View(Proc(areas, mid.spaces[root]), Added(view, mid)) == image
  {
  }

  lemma NewTaskIsTask(view: MemView, mid: MemView, dead: set<nat>, task: Task, image: map<nat, Page>, gone: nat)
    requires IsProgramBuilt(view, mid, task.cr3, image) && IsProgram(task.areas, image)
    requires task.cr3 !in dead && gone in view.spaces
    ensures IsTask(task, mid, dead + {gone})
  {
  }

  // The other tasks keep their address spaces, and stay tasks.
  lemma OthersStayTasks(ring: seq<Task>, view: MemView, mid: MemView, dead: set<nat>, root: nat, image: map<nat, Page>,
                        i: nat)
    requires IsConsistent(ring, view, dead) && 0 < i < |ring| && IsProgramBuilt(view, mid, root, image)
    ensures ring[0].cr3 in view.spaces && ring[i].cr3 in view.spaces
    ensures IsTask(ring[i], mid, dead + {ring[0].cr3}) && ProcOf(ring[i], mid) == ProcOf(ring[i], view)
  {
    TaskInView(ring, view, dead, 0);
    TaskInView(ring, view, dead, i);
  }

  // What does not change for the tasks behind the running one
  ghost predicate OthersStay(ring: seq<Task>, view: MemView, mid: MemView, later: set<nat>) {
    forall i | 0 < i < |ring| ::
      ring[i].cr3 in view.spaces && IsTask(ring[i], mid, later) && ProcOf(ring[i], mid) == ProcOf(ring[i], view)
  }

  lemma OthersAllStay(ring: seq<Task>, view: MemView, mid: MemView, dead: set<nat>, root: nat, image: map<nat, Page>)
    requires IsConsistent(ring, view, dead) && |ring| > 1 && IsProgramBuilt(view, mid, root, image)
    ensures ring[0].cr3 in view.spaces && OthersStay(ring, view, mid, dead + {ring[0].cr3})
  {
    OthersStayTasks(ring, view, mid, dead, root, image, 1);
    forall i | 0 < i < |ring|
      ensures ring[i].cr3 in view.spaces && IsTask(ring[i], mid, dead + {ring[0].cr3})
      ensures ProcOf(ring[i], mid) == ProcOf(ring[i], view)
    {
      OthersStayTasks(ring, view, mid, dead, root, image, i);
    }
  }

  lemma TasksAfterExec(ring: seq<Task>, view: MemView, mid: MemView, later: set<nat>, task: Task)
    requires |ring| > 1 && RootsAreOwn(ring) && task.cr3 !in view.spaces && OthersStay(ring, view, mid, later)
    requires IsTask(task, mid, later)
    ensures ProcsOf(ReplaceRunning(ring, task), mid) == ReplaceRunning(ProcsOf(ring, view), ProcOf(task, mid))
    ensures forall i | 0 <= i < |ring| :: IsTask(ReplaceRunning(ring, task)[i], mid, later)
    ensures RootsAreOwn(ReplaceRunning(ring, task))
  {
    ProcsReplaced(ring, view, mid, task);
    TasksReplaced(ring, mid, later, task);
    RootsStayOwnToo(ring, view, task, ReplaceRunning(ring, task));
  }

  lemma ProcsReplaced(ring: seq<Task>, view: MemView, mid: MemView, task: Task)
    requires |ring| > 1 && forall i | 0 < i < |ring| :: ProcOf(ring[i], mid) == ProcOf(ring[i], view)
    ensures ProcsOf(ReplaceRunning(ring, task), mid) == ReplaceRunning(ProcsOf(ring, view), ProcOf(task, mid))
  {
    var left, right := ProcsOf(ReplaceRunning(ring, task), mid), ReplaceRunning(ProcsOf(ring, view), ProcOf(task, mid));
    assert |left| == |right| && forall i | 0 <= i < |left| :: left[i] == right[i];
  }

  lemma TasksReplaced(ring: seq<Task>, mid: MemView, later: set<nat>, task: Task)
    requires |ring| > 1 && IsTask(task, mid, later) && forall i | 0 < i < |ring| :: IsTask(ring[i], mid, later)
    ensures forall i | 0 <= i < |ring| :: IsTask(ReplaceRunning(ring, task)[i], mid, later)
  {
  }

  lemma RootsStayOwnToo(ring: seq<Task>, view: MemView, task: Task, now: seq<Task>)
    requires RootsAreOwn(ring) && |now| == |ring| > 0 && task.cr3 !in view.spaces
    requires forall i | 0 <= i < |ring| :: now[i] == if i == 0 then task else ring[i]
    requires forall i | 0 < i < |ring| :: now[i].cr3 in view.spaces
    ensures RootsAreOwn(now)
  {
  }

  lemma ExecIsStep(ring: seq<Task>, view: MemView, mid: MemView, dead: set<nat>, task: Task, image: map<nat, Page>)
    requires IsConsistent(ring, view, dead) && |ring| > 1 && task.cr3 !in dead
    requires IsProgramBuilt(view, mid, task.cr3, image) && IsProgram(task.areas, image)
    ensures IsStep(ring, view, dead, ReplaceRunning(ring, task), mid, dead + {ring[0].cr3},
                   Exec(ProcOf(task, mid), Added(view, mid)))
  {
    var c, now, later := AbsOf(ring, view), ReplaceRunning(ring, task), dead + {ring[0].cr3};
    BuiltIsPrivate(view, mid, task.cr3, task.areas, image, c);
    OthersAllStay(ring, view, mid, dead, task.cr3, image);
    NewTaskIsTask(view, mid, dead, task, image, ring[0].cr3);
    TasksAfterExec(ring, view, mid, later, task);
    EagerRefinement.ExecRefines(c, ProcOf(task, mid), Added(view, mid));
    RootsAfterExec(ring, view, mid, dead, task);
    assert AbsOf(now, mid) == Cow(ReplaceRunning(c.ring, ProcOf(task, mid)), c.data + Added(view, mid));
  }

  // The step is the machine's exec, the new task has the old one's pid and sees this image.
  ghost predicate IsExecOf(ring: seq<Task>, view: MemView, dead: set<nat>, now: seq<Task>, after: MemView,
                           later: set<nat>, image: map<nat, Page>) {
    && |ring| > 0 && |now| > 0 && now[0].pid == ring[0].pid
    && IsStep(ring, view, dead, now, after, later, Exec(ProcOf(now[0], after), Added(view, after)))
    && EagerRefinement.View(ProcOf(now[0], after), Added(view, after)) == image
  }

  lemma ExecHappens(ring: seq<Task>, view: MemView, mid: MemView, dead: set<nat>, now: seq<Task>, image: map<nat, Page>)
    requires IsConsistent(ring, view, dead) && |ring| > 1 && |now| > 0 && now == ReplaceRunning(ring, now[0])
    requires now[0].cr3 !in dead && now[0].pid == ring[0].pid
    requires IsProgramBuilt(view, mid, now[0].cr3, image) && IsProgram(now[0].areas, image)
    ensures ring[0].cr3 in mid.spaces
    ensures IsConsistent(now, mid, dead + {ring[0].cr3})
    ensures IsExecOf(ring, view, dead, now, mid, dead + {ring[0].cr3}, image)
  {
    TaskInView(ring, view, dead, 0);
    ExecIsStep(ring, view, mid, dead, now[0], image);
    BuiltIsPrivate(view, mid, now[0].cr3, now[0].areas, image, AbsOf(ring, view));
  }

  lemma RootsAfterExec(ring: seq<Task>, view: MemView, mid: MemView, dead: set<nat>, task: Task)
    requires |ring| > 1 && RootsAreUsed(ring, view, dead)
    requires forall r :: r in mid.spaces <==> r in view.spaces || r == task.cr3
    ensures RootsAreUsed(ReplaceRunning(ring, task), mid, dead + {ring[0].cr3})
  {
    var now := ReplaceRunning(ring, task);
    assert now[0].cr3 in Roots(now);
    forall r | r in Roots(ring) && r != ring[0].cr3
      ensures r in Roots(now)
    {
      var i :| 0 <= i < |ring| && ring[i].cr3 == r;
      assert now[i].cr3 == r;
    }
  }

  // The new task's way into the ring
  method EnterBeside(memory: Memory, queue: RunQueue, root: nat, areas: seq<Vma>)
    requires memory.Valid() && IsInOrder(queue) && |queue.ring| > 1
    modifies queue`running, queue`ring, queue`pidCount, queue.ring`next
    ensures memory.Valid() && IsInOrder(queue) && |queue.ring| > 0
    ensures queue.ring == ReplaceRunning(old(queue.ring), queue.ring[0])
    ensures queue.ring[0].cr3 == root && queue.ring[0].areas == areas && queue.ring[0].pid == old(queue.running.pid)
    ensures fresh(queue.ring[0]) && queue.ring[0].ppid == 0 && IsUntimed(queue.ring[0])
    ensures queue.pidCount == old(queue.pidCount) + 1
  {
    var task := new Task(queue.running.pid, 0, root, areas);
    queue.Become(task);
    MemoryStays(memory);
  }

  // The old address space is not run again.
  ghost method RetireBeside(memory: Memory, queue: RunQueue, root: nat)
    requires memory.Valid() && IsInOrder(queue) && root in memory.View().spaces
    modifies memory`state
    ensures memory.Valid() && IsInOrder(queue) && memory.View() == old(memory.View())
    ensures memory.state.dead == old(memory.state.dead) + {root} && memory.state.free == old(memory.state.free)
  {
    memory.Retire(root);
    assert IsInOrder(queue) by {
      QueueStays(queue);
    }
  }

  method BuildBeside(memory: Memory, queue: RunQueue, current: nat, areas: seq<Vma>, sections: seq<Section>,
                     ghost reserve: nat)
    returns (root: nat, list: seq<Vma>)
    requires memory.Valid() && |memory.state.free| >= reserve + ProgramFrames(areas, sections)
    requires current in memory.View().spaces && current !in memory.state.dead
    requires AreUserSections(sections)
    requires IsInOrder(queue)
    modifies memory`state, memory.frames, memory.bitmap.availFrames
    ensures memory.Valid() && IsInOrder(queue) && memory.state.dead == old(memory.state.dead)
    ensures |memory.state.free| >= reserve && list == areas && root !in memory.state.dead
    ensures IsProgramBuilt(old(memory.View()), memory.View(), root, Loaded(sections))
  {
    root, list := BuildProgram(memory, current, areas, sections, reserve);
    assert IsInOrder(queue) by {
      QueueStays(queue);
    }
  }

  // The new task takes the running one's place; the old address space is not run again.
  method ReplaceBeside(memory: Memory, queue: RunQueue, root: nat, areas: seq<Vma>, ghost view: MemView,
                       ghost image: map<nat, Page>)
    requires memory.Valid() && IsInOrder(queue) && |queue.ring| > 1
    requires IsConsistent(queue.ring, view, memory.state.dead) && IsProgram(areas, image)
    requires IsProgramBuilt(view, memory.View(), root, image) && root !in memory.state.dead
    modifies memory`state, queue`running, queue`ring, queue`pidCount, queue.ring`next
    ensures memory.Valid() && IsInOrder(queue) && memory.state.free == old(memory.state.free)
    ensures IsExecOf(old(queue.ring), view, old(memory.state.dead), queue.ring, memory.View(), memory.state.dead, image)
    ensures |queue.ring| > 0 && queue.ring == ReplaceRunning(old(queue.ring), queue.ring[0])
    ensures fresh(queue.ring[0]) && queue.ring[0].areas == areas
    ensures queue.ring[0].ppid == 0 && IsUntimed(queue.ring[0]) && queue.pidCount == old(queue.pidCount) + 1
  {
    ghost var ring, dead := queue.ring, memory.state.dead;
    EnterBeside(memory, queue, root, areas);
    ghost var now := queue.ring;
    ExecHappens(ring, view, memory.View(), dead, now, image);
    RetireBeside(memory, queue, ring[0].cr3);
  }

  // exec: the program is built next to the running one, and takes its place.
  method ExecBeside(memory: Memory, queue: RunQueue, areas: seq<Vma>, sections: seq<Section>)
    requires memory.Valid() && IsInOrder(queue) && |queue.ring| > 1
    requires IsConsistent(queue.ring, memory.View(), memory.state.dead)
    requires |memory.state.free| >= ProgramFrames(areas, sections)
    requires AreUserSections(sections) && IsProgram(areas, Loaded(sections))
    modifies memory`state, memory.frames, memory.bitmap.availFrames
    modifies queue`running, queue`ring, queue`pidCount, queue.ring`next
    ensures memory.Valid() && IsInOrder(queue)
    ensures |old(memory.state.free)| <= |memory.state.free| + ProgramFrames(areas, sections)
    ensures IsExecOf(old(queue.ring), old(memory.View()), old(memory.state.dead),
                     queue.ring, memory.View(), memory.state.dead, Loaded(sections))
    ensures |queue.ring| > 0 && queue.ring == ReplaceRunning(old(queue.ring), queue.ring[0])
    ensures fresh(queue.ring[0]) && queue.ring[0].areas == areas
    ensures queue.ring[0].ppid == 0 && IsUntimed(queue.ring[0]) && queue.pidCount == old(queue.pidCount) + 1
  {
    ghost var view, reserve := memory.View(), |memory.state.free| - ProgramFrames(areas, sections);
    TaskInView(queue.ring, view, memory.state.dead, 0);
    var root, list := BuildBeside(memory, queue, queue.running.cr3, areas, sections, reserve);
    ReplaceBeside(memory, queue, root, list, view, Loaded(sections));
  }
}
