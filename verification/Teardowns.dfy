/**
 * The end of a task in sys/task.c: FreePageEntries gives back the frames that the stepping over the
 * task's areas visits, except those that it takes for shared.
 */
module Teardowns {
  import opened PageFormat
  import opened Vmas
  import opened RingOps
  import opened VirtualMemory
  import opened CowMachine
  import opened RunQueue
  import opened ForkMemory
  import opened KernelViews
  import opened PageFaults
  import EagerRefinement

  /* ---------- once around the ring, from any task ---------- */

  // The ring as seen from its k-th task
  function Round(ring: seq<Task>, k: nat): seq<Task>
    requires k < |ring|
  {
    ring[k..] + ring[..k]
  }

  lemma RoundIsRing(ring: seq<Task>, k: nat)
    requires IsRing(ring) && k < |ring|
    ensures IsRing(Round(ring, k)) && Round(ring, k)[0] == ring[k]
  {
    var round := Round(ring, k);
    forall i | 0 <= i < |round|
      ensures round[i].next == After(round, i)
    {
      var j := if k + i < |ring| then k + i else k + i - |ring|;
      assert round[i] == ring[j] && ring[j].next == After(ring, j);
    }
  }

  lemma RoundHasSpaces(ring: seq<Task>, view: MemView, k: nat)
    requires HaveSpaces(ring, view) && k < |ring|
    ensures HaveSpaces(Round(ring, k), view)
  {
  }

  lemma {:induction false} NoOthersMeans(round: seq<Task>, view: MemView, m: nat, v: nat, f: nat)
    requires 0 < m <= |round| && v < USER_PAGES
    ensures TaskCount(round, view, m, v, f) >= TaskCount(round, view, 1, v, f)
    ensures TaskCount(round, view, m, v, f) == TaskCount(round, view, 1, v, f) <==>
              forall i | 0 < i < m :: !HasPage(ProcOf(round[i], view), v, f)
  {
    if m > 1 {
      NoOthersMeans(round, view, m - 1, v, f);
    }
  }

  // The other tasks, by place in the ring and by hops from the k-th one
  lemma OthersInRound(ring: seq<Task>, k: nat)
    requires k < |ring|
    ensures forall j: nat | j < |ring| && j != k :: ring[j] == Round(ring, k)[if j > k then j - k else j + |ring| - k]
    ensures forall i | 0 < i < |ring| :: Round(ring, k)[i] == ring[if k + i < |ring| then k + i else k + i - |ring|]
  {
  }

  lemma NoneMeansNoSharer(ring: seq<Task>, view: MemView, k: nat, f: nat)
    requires k < |ring| && PageOf(PageAddress(f)) < USER_PAGES
    ensures var round, v := Round(ring, k), PageOf(PageAddress(f));
            TaskCount(round, view, |round|, v, f) == TaskCount(round, view, 1, v, f) <==>
            !HasIdentitySharer(AbsOf(ring, view), k, f)
  {
    var c, v, round := AbsOf(ring, view), PageOf(PageAddress(f)), Round(ring, k);
    NoOthersMeans(round, view, |round|, v, f);
    OthersInRound(ring, k);
    assert forall j: nat | j < |ring| :: Maps(c, j, v, f) <==> HasPage(ProcOf(ring[j], view), v, f);
    if i :| 0 < i < |round| && HasPage(ProcOf(round[i], view), v, f) {
      assert Maps(c, if k + i < |ring| then k + i else k + i - |ring|, v, f);
    }
  }

  // The count of FreePageEntries: 1 exactly when no other task maps, at the page whose virtual
  // address is the frame's *physical* address, that frame.
  method CountIdentitySharers(memory: Memory, task: Task, frame: nat, ghost ring: seq<Task>, ghost k: nat)
    returns (pageCount: nat)
    requires memory.Valid() && IsRing(ring) && k < |ring| && task == ring[k] && PageOf(PageAddress(frame)) < USER_PAGES
    requires HaveSpaces(ring, memory.View())
    ensures pageCount == 1 <==> !HasIdentitySharer(AbsOf(ring, memory.View()), k, frame)
  {
    RoundIsRing(ring, k);
    RoundHasSpaces(ring, memory.View(), k);
    pageCount := CountSharers(memory, PageAddress(frame), task, frame, Round(ring, k));
    NoneMeansNoSharer(ring, memory.View(), k, frame);
  }

  /* ---------- the frames given back ---------- */

  // The frames given back once the pages in `seen` have been visited
  ghost function FreedOn(c: Cow, k: nat, seen: set<nat>): set<nat>
    requires k < |c.ring|
  {
    set v | v in c.ring[k].space && v in seen && !HasIdentitySharer(c, k, c.ring[k].space[v].frame) ::
      c.ring[k].space[v].frame
  }

  ghost predicate IsFreeing(c: Cow, k: nat, base: MemView, free0: set<nat>, view: MemView, free: set<nat>,
                            seen: set<nat>)
    requires k < |c.ring|
  {
    match base
    case MemView(spaces, data, kernel) =>
      view == MemView(spaces, data - FreedOn(c, k, seen), kernel) && free == free0 + FreedOn(c, k, seen)
  }

  lemma NothingFreed(c: Cow, k: nat, base: MemView, free: set<nat>)
    requires k < |c.ring|
    ensures IsFreeing(c, k, base, free, base, free, {})
  {
    assert FreedOn(c, k, {}) == {};
    assert base.data - {} == base.data;
  }

  lemma FreeingGoesOn(c: Cow, k: nat, base: MemView, free0: set<nat>, view: MemView, free: set<nat>, seen: set<nat>,
                      v: nat, f: nat)
    requires k < |c.ring| && IsFreeing(c, k, base, free0, view, free, seen)
    requires HasPage(c.ring[k], v, f) && !HasIdentitySharer(c, k, f)
    ensures IsFreeing(c, k, base, free0, view.(data := view.data - {f}), free + {f}, seen + {v})
  {
    assert FreedOn(c, k, seen + {v}) == FreedOn(c, k, seen) + {f};
    assert base.data - FreedOn(c, k, seen) - {f} == base.data - (FreedOn(c, k, seen) + {f});
  }

  lemma FreeingSkips(c: Cow, k: nat, base: MemView, free0: set<nat>, view: MemView, free: set<nat>, seen: set<nat>,
                     v: nat)
    requires k < |c.ring| && IsFreeing(c, k, base, free0, view, free, seen)
    requires v in c.ring[k].space ==> HasIdentitySharer(c, k, c.ring[k].space[v].frame)
    ensures IsFreeing(c, k, base, free0, view, free, seen + {v})
  {
    assert FreedOn(c, k, seen + {v}) == FreedOn(c, k, seen);
  }

  lemma SharersAreIdentical(c: Cow, k: nat, v: nat, j: nat, w: nat, f: nat)
    requires Inv(c) && SharesOnlyIdentityPages(c, k) && Maps(c, k, v, f)
    ensures Maps(c, j, w, f) && j != k ==> HasIdentitySharer(c, k, f)
  {
    if Maps(c, j, w, f) && j != k {
      assert Maps(c, j, v, f);
    }
  }

  // No live address space maps a frame that the task does not share.
  lemma UnsharedMeansUnmapped(ring: seq<Task>, base: MemView, dead: set<nat>, k: nat, v: nat, f: nat)
    requires IsConsistent(ring, base, dead) && k < |ring| && SharesOnlyIdentityPages(AbsOf(ring, base), k)
    requires Maps(AbsOf(ring, base), k, v, f) && !HasIdentitySharer(AbsOf(ring, base), k, f)
    ensures IsUnmapped(base, dead + {ring[k].cr3}, f)
  {
    var c := AbsOf(ring, base);
    forall r, w | r in base.spaces && r !in dead + {ring[k].cr3} && w in base.spaces[r]
      ensures base.spaces[r][w].frame != f
    {
      assert r in Roots(ring);
      var j: nat :| j < |ring| && ring[j].cr3 == r;
      assert c.ring[j].space == base.spaces[r];
      SharersAreIdentical(c, k, v, j, w, f);
      assert base.spaces[r][w].frame == f ==> Maps(c, j, w, f);
    }
  }

  lemma UnmappedStays(base: MemView, view: MemView, dead: set<nat>, f: nat)
    requires IsUnmapped(base, dead, f) && view.spaces == base.spaces
    ensures IsUnmapped(view, dead, f)
  {
  }

  // The facts about the state before the release that each step of it needs
  ghost predicate IsLeaving(ring: seq<Task>, base: MemView, dead: set<nat>, task: Task, k: nat) {
    && IsConsistent(ring, base, dead)
    && k < |ring| && task == ring[k] && SharesOnlyIdentityPages(AbsOf(ring, base), k)
  }

  lemma LeavingFacts(ring: seq<Task>, base: MemView, dead: set<nat>, task: Task, k: nat)
    requires IsLeaving(ring, base, dead, task, k)
    ensures k < |ring| && task == ring[k] && |AbsOf(ring, base).ring| == |ring|
    ensures AbsOf(ring, base).ring[k] == ProcOf(task, base)
    ensures HaveSpaces(ring, base) && task.cr3 in base.spaces
    ensures AreUserEntries(base, base.spaces[task.cr3]) && AreUserVmas(task.areas)
  {
    TasksHaveSpaces(ring, base, dead);
    TaskInView(ring, base, dead, k);
    EntriesInView(ring, base, dead, k);
  }

  lemma SharersBySpaces(ring: seq<Task>, base: MemView, view: MemView, k: nat, f: nat)
    requires view.spaces == base.spaces
    ensures HasIdentitySharer(AbsOf(ring, view), k, f) == HasIdentitySharer(AbsOf(ring, base), k, f)
  {
    var c, d := AbsOf(ring, base), AbsOf(ring, view);
    assert d.ring == c.ring;
    forall j: nat, v
      ensures Maps(d, j, v, f) == Maps(c, j, v, f)
    {
    }
  }

  // A release: the ring, what memory and the free set were before it, and the place of the task
  datatype Release = Release(ring: seq<Task>, base: MemView, dead: set<nat>, free: set<nat>, k: nat)

  // The pages in `seen` have been visited.
  ghost predicate IsReleasing(r: Release, task: Task, view: MemView, dead: set<nat>, free: set<nat>, seen: set<nat>) {
    match r
    case Release(ring, base, dead0, free0, k) =>
      && IsLeaving(ring, base, dead0, task, k) && dead == dead0 + {task.cr3}
      && k < |ring| && IsFreeing(AbsOf(ring, base), k, base, free0, view, free, seen)
  }

  lemma ReleaseBegins(r: Release, task: Task)
    requires IsLeaving(r.ring, r.base, r.dead, task, r.k)
    ensures IsReleasing(r, task, r.base, r.dead + {task.cr3}, r.free, {})
  {
    LeavingFacts(r.ring, r.base, r.dead, task, r.k);
    NothingFreed(AbsOf(r.ring, r.base), r.k, r.base, r.free);
  }

  lemma ReleaseEnds(r: Release, task: Task, view: MemView, dead: set<nat>, free: set<nat>, seen: set<nat>)
    requires IsReleasing(r, task, view, dead, free, seen) && seen == VisitedPages(task.areas)
    ensures r.k < |r.ring| && view == WithFreed(r.ring, r.base, r.k)
    ensures dead == r.dead + {task.cr3} && free == r.free + Freed(AbsOf(r.ring, r.base), r.k)
  {
    AllFreed(r.ring, r.base, r.free, view, r.k, free, seen);
  }

  // What one step of the loop finds: the task's entries are still what they were.
  lemma ReleaseFacts(r: Release, task: Task, view: MemView, dead: set<nat>, free: set<nat>, seen: set<nat>)
    requires IsReleasing(r, task, view, dead, free, seen)
    ensures r.k < |r.ring| && task == r.ring[r.k] && AreUserVmas(task.areas)
    ensures HaveSpaces(r.ring, view) && task.cr3 in view.spaces && view.spaces == r.base.spaces
    ensures AreUserEntries(r.base, view.spaces[task.cr3])
  {
    LeavingFacts(r.ring, r.base, r.dead, task, r.k);
  }

  lemma PageIsKept(r: Release, task: Task, view: MemView, dead: set<nat>, free: set<nat>, seen: set<nat>, v: nat)
    requires IsReleasing(r, task, view, dead, free, seen) && r.k < |r.ring|
    requires v in SpaceIn(r.base, task.cr3) ==>
               HasIdentitySharer(AbsOf(r.ring, r.base), r.k, SpaceIn(r.base, task.cr3)[v].frame)
    ensures IsReleasing(r, task, view, dead, free, seen + {v})
  {
    FreeingSkips(AbsOf(r.ring, r.base), r.k, r.base, r.free, view, free, seen, v);
  }

  lemma PageIsFreed(r: Release, task: Task, view: MemView, dead: set<nat>, free: set<nat>, seen: set<nat>, v: nat,
                    f: nat)
    requires IsReleasing(r, task, view, dead, free, seen) && r.k < |r.ring| && HasPage(ProcOf(task, r.base), v, f)
    requires !HasIdentitySharer(AbsOf(r.ring, r.base), r.k, f)
    ensures IsUnmapped(view, dead, f)
    ensures IsReleasing(r, task, view.(data := view.data - {f}), dead, free + {f}, seen + {v})
  {
    LeavingFacts(r.ring, r.base, r.dead, task, r.k);
    UnsharedMeansUnmapped(r.ring, r.base, r.dead, r.k, v, f);
    UnmappedStays(r.base, view, dead, f);
    FreeingGoesOn(AbsOf(r.ring, r.base), r.k, r.base, r.free, view, free, seen, v, f);
  }

  // One page of the stepping loop
  method FreePage(memory: Memory, x: nat, task: Task, ghost r: Release, ghost seen: set<nat>)
    requires memory.Valid() && IsRing(r.ring) && PageOf(x) < USER_PAGES
    requires IsReleasing(r, task, memory.View(), memory.state.dead, memory.state.free, seen)
    modifies memory`state, memory.frames, memory.bitmap.availFrames
    ensures memory.Valid()
    ensures IsReleasing(r, task, memory.View(), memory.state.dead, memory.state.free, seen + {PageOf(x)})
  {
    ReleaseFacts(r, task, memory.View(), memory.state.dead, memory.state.free, seen);
    var entry := memory.GetPhysicalPageAddr(x, task.cr3);
    if entry.Some? && entry.value != ZERO_ENTRY {
      FreeFrame(memory, entry.value.frame, task, r, seen, PageOf(x));
    } else {
      PageIsKept(r, task, memory.View(), memory.state.dead, memory.state.free, seen, PageOf(x));
    }
  }

  // The release of one frame, unless it seems to be shared
  method FreeFrame(memory: Memory, frame: nat, task: Task, ghost r: Release, ghost seen: set<nat>, ghost v: nat)
    requires memory.Valid() && IsRing(r.ring)
    requires IsReleasing(r, task, memory.View(), memory.state.dead, memory.state.free, seen)
    requires HasPage(ProcOf(task, r.base), v, frame)
    modifies memory`state, memory.frames, memory.bitmap.availFrames
    ensures memory.Valid()
    ensures IsReleasing(r, task, memory.View(), memory.state.dead, memory.state.free, seen + {v})
  {
    ReleaseFacts(r, task, memory.View(), memory.state.dead, memory.state.free, seen);
    FrameIsInMemory(memory, r, task, seen, v, frame);
    var pageCount := CountIdentitySharers(memory, task, frame, r.ring, r.k);
    SharersBySpaces(r.ring, r.base, memory.View(), r.k, frame);
    if pageCount == 1 {
      PageIsFreed(r, task, memory.View(), memory.state.dead, memory.state.free, seen, v, frame);
      memory.Kdealloc(frame);
    } else {
      PageIsKept(r, task, memory.View(), memory.state.dead, memory.state.free, seen, v);
    }
  }

  // A frame that was allocated when the release began is allocated or has been given back.
  lemma FrameIsInMemory(memory: Memory, r: Release, task: Task, seen: set<nat>, v: nat, frame: nat)
    requires memory.Valid() && IsReleasing(r, task, memory.View(), memory.state.dead, memory.state.free, seen)
    requires HasPage(ProcOf(task, r.base), v, frame)
    ensures frame in memory.View().data || frame in memory.state.free
    ensures PageOf(PageAddress(frame)) < USER_PAGES
  {
    LeavingFacts(r.ring, r.base, r.dead, task, r.k);
    FramesFitPages(memory, frame);
  }

  lemma FramesFitPages(memory: Memory, frame: nat)
    requires memory.Valid()
    ensures frame in memory.View().data || frame in memory.state.free ==> PageOf(PageAddress(frame)) < USER_PAGES
  {
  }

  // `total` are the pages visited in area a before address x, and those seen before the area.
  ghost predicate IsTotal(a: Vma, x: nat, seen: set<nat>, total: set<nat>) {
    match a
    case Vma(start, end) => total + StepsFrom(x, end) == seen + StepsFrom(start, end)
  }

  lemma TotalGrows(a: Vma, x: nat, seen: set<nat>, total: set<nat>, next: nat, more: set<nat>)
    requires IsTotal(a, x, seen, total) && x < a.end && next == x + PAGE_SIZE && more == total + {PageOf(x)}
    requires IsUserVma(a) && HasComeTo(a, x)
    ensures IsTotal(a, next, seen, more) && HasComeTo(a, next) && PageOf(x) < USER_PAGES
  {
    assert StepsFrom(x, a.end) == {PageOf(x)} + StepsFrom(next, a.end);
  }

  lemma TotalEnds(a: Vma, x: nat, seen: set<nat>, total: set<nat>)
    requires IsTotal(a, x, seen, total) && x >= a.end
    ensures total == seen + StepsFrom(a.start, a.end)
  {
    assert StepsFrom(x, a.end) == {};
  }

  // The loop has come to address x of the area.
  ghost predicate HasComeTo(a: Vma, x: nat) { StepsFrom(x, a.end) <= StepsFrom(a.start, a.end) }

  // One step of the loop over area a
  method FreeOn(memory: Memory, a: Vma, x: nat, task: Task, ghost r: Release, ghost seen: set<nat>,
                ghost total: set<nat>, ghost next: nat, ghost more: set<nat>)
    requires memory.Valid() && IsRing(r.ring) && IsUserVma(a) && IsTotal(a, x, seen, total) && HasComeTo(a, x)
    requires IsReleasing(r, task, memory.View(), memory.state.dead, memory.state.free, total)
    requires x < a.end && next == x + PAGE_SIZE && more == total + {PageOf(x)}
    modifies memory`state, memory.frames, memory.bitmap.availFrames
    ensures memory.Valid() && IsTotal(a, next, seen, more) && HasComeTo(a, next)
    ensures IsReleasing(r, task, memory.View(), memory.state.dead, memory.state.free, more)
  {
    TotalGrows(a, x, seen, total, next, more);
    FreePage(memory, x, task, r, total);
  }

  // One area
  method FreeArea(memory: Memory, a: Vma, task: Task, ghost r: Release, ghost seen: set<nat>)
    requires memory.Valid() && IsRing(r.ring) && IsUserVma(a)
    requires IsReleasing(r, task, memory.View(), memory.state.dead, memory.state.free, seen)
    modifies memory`state, memory.frames, memory.bitmap.availFrames
    ensures memory.Valid()
    ensures IsReleasing(r, task, memory.View(), memory.state.dead, memory.state.free, seen + StepsFrom(a.start, a.end))
  {
    var start := a.start;
    ghost var total := seen;
    while start < a.end
      invariant memory.Valid() && IsTotal(a, start, seen, total) && HasComeTo(a, start)
      invariant IsReleasing(r, task, memory.View(), memory.state.dead, memory.state.free, total)
      decreases a.end - start
    {
      var next := start + PAGE_SIZE;
      ghost var more := total + {PageOf(start)};
      FreeOn(memory, a, start, task, r, seen, total, next, more);
      start, total := next, more;
    }
    assert total == seen + StepsFrom(a.start, a.end) by {
      TotalEnds(a, start, seen, total);
    }
  }

  // FreePageEntries.  The task's address space counts as dead from here on.
  method FreePageEntries(memory: Memory, task: Task, ghost ring: seq<Task>, ghost k: nat)
    requires memory.Valid() && IsRing(ring) && IsLeaving(ring, memory.View(), memory.state.dead, task, k)
    modifies memory`state, memory.frames, memory.bitmap.availFrames
    ensures memory.Valid() && memory.state.dead == old(memory.state.dead) + {task.cr3}
    ensures k < |ring| && memory.View() == WithFreed(ring, old(memory.View()), k)
    ensures memory.state.free == old(memory.state.free) + Freed(AbsOf(ring, old(memory.View())), k)
  {
    ghost var r := Release(ring, memory.View(), memory.state.dead, memory.state.free, k);
    LeavingFacts(ring, r.base, r.dead, task, k);
    ReleaseBegins(r, task);
    memory.Retire(task.cr3);
    FreeAreas(memory, task, r);
    ReleaseEnds(r, task, memory.View(), memory.state.dead, memory.state.free, VisitedPages(task.areas));
  }

  method FreeAreas(memory: Memory, task: Task, ghost r: Release)
    requires memory.Valid() && IsRing(r.ring) && AreUserVmas(task.areas)
    requires IsReleasing(r, task, memory.View(), memory.state.dead, memory.state.free, {})
    modifies memory`state, memory.frames, memory.bitmap.availFrames
    ensures memory.Valid()
    ensures IsReleasing(r, task, memory.View(), memory.state.dead, memory.state.free, VisitedPages(task.areas))
  {
    ghost var seen: set<nat> := {};
    for i := 0 to |task.areas|
      invariant memory.Valid() && seen == VisitedPages(task.areas[..i])
      invariant IsReleasing(r, task, memory.View(), memory.state.dead, memory.state.free, seen)
    {
      OneAreaMore(task.areas, i, seen);
      FreeArea(memory, task.areas[i], task, r, seen);
      seen := seen + StepsFrom(task.areas[i].start, task.areas[i].end);
    }
    assert task.areas[..|task.areas|] == task.areas;
  }

  lemma OneAreaMore(areas: seq<Vma>, i: nat, seen: set<nat>)
    requires i < |areas| && seen == VisitedPages(areas[..i])
    ensures seen + StepsFrom(areas[i].start, areas[i].end) == VisitedPages(areas[..i + 1])
  {
    assert areas[..i + 1][..i] == areas[..i];
  }

  ghost function WithFreed(ring: seq<Task>, view: MemView, k: nat): MemView
    requires k < |ring|
  {
    view.(data := view.data - Freed(AbsOf(ring, view), k))
  }

  lemma AllFreed(ring: seq<Task>, base: MemView, free0: set<nat>, view: MemView, k: nat, free: set<nat>, seen: set<nat>)
    requires k < |ring| && IsFreeing(AbsOf(ring, base), k, base, free0, view, free, seen)
    requires seen == VisitedPages(ring[k].areas)
    ensures view == WithFreed(ring, base, k) && free == free0 + Freed(AbsOf(ring, base), k)
  {
    assert AbsOf(ring, base).ring[k].areas == ring[k].areas;
    assert FreedOn(AbsOf(ring, base), k, seen) == Freed(AbsOf(ring, base), k);
  }

  /* ---------- the step of the machine ---------- */

  function Leave(k: nat): Op { if k == 0 then Exit else Kill(k) }

  lemma TeardownIsStep(ring: seq<Task>, view: MemView, dead: set<nat>, k: nat)
    requires IsConsistent(ring, view, dead) && k < |ring| && |ring| > 1 && SharesOnlyIdentityPages(AbsOf(ring, view), k)
    ensures IsLeaving(ring, view, dead, ring[k], k)
    ensures IsStep(ring, view, dead, DropAt(ring, k), WithFreed(ring, view, k), dead + {ring[k].cr3}, Leave(k))
  {
    var c, now, after, later := AbsOf(ring, view), DropAt(ring, k), WithFreed(ring, view, k), dead + {ring[k].cr3};
    EagerRefinement.TeardownRefines(c, k);
    forall i | 0 <= i < |now|
      ensures IsTask(now[i], after, later)
    {
      SurvivorStaysTask(ring, view, dead, k, if i < k then i else i + 1);
    }
    SurvivorsAbs(ring, view, k);
    RootsStayUsed(ring, view, after, dead, k);
  }

  lemma SurvivorStaysTask(ring: seq<Task>, view: MemView, dead: set<nat>, k: nat, i: nat)
    requires IsConsistent(ring, view, dead) && k < |ring| && i < |ring| && i != k
    ensures IsTask(ring[i], WithFreed(ring, view, k), dead + {ring[k].cr3})
  {
    TaskInView(ring, view, dead, i);
  }

  lemma SurvivorsAbs(ring: seq<Task>, view: MemView, k: nat)
    requires k < |ring| && |ring| > 1
    ensures AbsOf(DropAt(ring, k), WithFreed(ring, view, k)) == Teardown(AbsOf(ring, view), k)
  {
    var c, now, after := AbsOf(ring, view), DropAt(ring, k), WithFreed(ring, view, k);
    forall i | 0 <= i < |now|
      ensures ProcOf(now[i], after) == DropAt(c.ring, k)[i]
    {
    }
    assert AbsOf(now, after).ring == DropAt(c.ring, k);
  }

  lemma RootsStayUsed(ring: seq<Task>, view: MemView, after: MemView, dead: set<nat>, k: nat)
    requires k < |ring| && RootsAreUsed(ring, view, dead) && after.spaces == view.spaces
    ensures RootsAreUsed(DropAt(ring, k), after, dead + {ring[k].cr3})
  {
    var now := DropAt(ring, k);
    forall r | r in Roots(ring) && r != ring[k].cr3
      ensures r in Roots(now)
    {
      var i :| 0 <= i < |ring| && ring[i].cr3 == r;
      assert now[if i < k then i else i - 1].cr3 == r;
    }
  }

  // The release does not touch the ring,
  method FreeBeside(memory: Memory, queue: RunQueue, task: Task, ghost ring: seq<Task>, ghost k: nat)
    requires memory.Valid() && IsInOrder(queue) && queue.ring == ring
    requires IsLeaving(ring, memory.View(), memory.state.dead, task, k)
    modifies memory`state, memory.frames, memory.bitmap.availFrames
    ensures memory.Valid() && IsInOrder(queue) && old(memory.state.free) <= memory.state.free
    ensures memory.state.dead == old(memory.state.dead) + {task.cr3}
    ensures k < |ring| && memory.View() == WithFreed(ring, old(memory.View()), k)
  {
    FreePageEntries(memory, task, ring, k);
    assert IsInOrder(queue) by {
      QueueStays(queue);
    }
  }

  // and leaving the ring does not touch memory.
  method RemoveBeside(memory: Memory, queue: RunQueue, before: Task, ghost k: nat) returns (victim: Task)
    requires memory.Valid() && IsInOrder(queue) && k + 1 < |queue.ring|
    requires before == queue.ring[k] && queue.ring[k + 1].pid != 1
    modifies queue`deleteQueue, queue`ring, queue`dead, queue.ring`next, queue.dead`next
    ensures memory.Valid() && IsInOrder(queue) && queue.ring == DropAt(old(queue.ring), k + 1)
    ensures victim == old(queue.ring)[k + 1] && queue.dead == old(queue.dead) + [victim]
  {
    victim := queue.Remove(before, k);
    MemoryStays(memory);
  }

  // The release of a task's frames and its way to the delete queue, in kill
  method RemoveTask(memory: Memory, queue: RunQueue, before: Task, ghost ring: seq<Task>, ghost k: nat)
    returns (victim: Task)
    requires memory.Valid() && IsInOrder(queue) && queue.ring == ring && 0 < k < |ring|
    requires before == ring[k - 1] && ring[k].pid != 1 && before.next == ring[k]
    requires IsLeaving(ring, memory.View(), memory.state.dead, ring[k], k)
    modifies memory`state, memory.frames, memory.bitmap.availFrames
    modifies queue`deleteQueue, queue`ring, queue`dead, ring`next, queue.dead`next
    ensures memory.Valid() && IsInOrder(queue) && old(memory.state.free) <= memory.state.free
    ensures memory.state.dead == old(memory.state.dead) + {ring[k].cr3}
    ensures memory.View() == WithFreed(ring, old(memory.View()), k)
    ensures queue.ring == DropAt(ring, k) && victim == ring[k] && queue.dead == old(queue.dead) + [victim]
  {
    FreeBeside(memory, queue, before.next, ring, k);
    victim := RemoveBeside(memory, queue, before, k - 1);
  }

  method ExitBeside(memory: Memory, queue: RunQueue) returns (gone: Task?)
    requires memory.Valid() && IsInOrder(queue) && queue.running.pid != 1
    modifies queue`running, queue`deleteQueue, queue`ring, queue`dead, queue.ring`next, queue.running`state,
      queue.dead`next
    ensures memory.Valid() && IsInOrder(queue) && |old(queue.ring)| > 0 && queue.ring == DropAt(old(queue.ring), 0)
    ensures gone == old(queue.running) && queue.dead == old(queue.dead) + [gone] && gone.state == 0
  {
    gone := queue.Exit();
    MemoryStays(memory);
  }

  // The release of the running task's frames and its way to the delete queue, in exit
  method LeaveRing(memory: Memory, queue: RunQueue, ghost ring: seq<Task>) returns (gone: Task?)
    requires memory.Valid() && IsInOrder(queue) && queue.ring == ring && |ring| > 0 && queue.running == ring[0]
    requires ring[0].pid != 1 && IsLeaving(ring, memory.View(), memory.state.dead, ring[0], 0)
    modifies memory`state, memory.frames, memory.bitmap.availFrames
    modifies queue`running, queue`deleteQueue, queue`ring, queue`dead, ring`next, queue.running`state, queue.dead`next
    ensures memory.Valid() && IsInOrder(queue) && old(memory.state.free) <= memory.state.free
    ensures memory.state.dead == old(memory.state.dead) + {ring[0].cr3}
    ensures memory.View() == WithFreed(ring, old(memory.View()), 0)
    ensures queue.ring == DropAt(ring, 0) && gone == ring[0] && queue.dead == old(queue.dead) + [gone]
    ensures gone.state == 0
  {
    FreeBeside(memory, queue, queue.running, ring, 0);
    gone := ExitBeside(memory, queue);
  }
}
