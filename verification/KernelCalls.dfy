/**
 * What can happen to the kernel next, served by its own operations: each call is one step of the
 * copy-on-write machine, and of the machine whose fork copies every page, or is refused.
 */
module KernelCalls {
  import opened PageFormat
  import opened RingOps
  import opened Vmas
  import opened CowMachine
  import opened VirtualMemory
  import opened RunQueue
  import opened KernelViews
  import opened PageFaults
  import opened Forking
  import opened Execs
  import opened Kernel
  import EagerRefinement

  // The kernel between two of its operations
  datatype Moment = Moment(ring: seq<Task>, view: MemView, dead: set<nat>)

  ghost function AbsAt(m: Moment): Cow { AbsOf(m.ring, m.view) }

  ghost function MomentOf(k: Kernel): Moment
    reads k, k.memory, k.queue
  {
    Moment(k.queue.ring, k.memory.View(), k.memory.state.dead)
  }

  ghost predicate IsKernelStep(m: Moment, n: Moment, op: Op) {
    IsStep(m.ring, m.view, m.dead, n.ring, n.view, n.dead, op)
  }

  // What can happen next: system calls and user accesses of the running task, and the timer
  datatype Call =
    | ForkCall
    | WriteCall(address: nat, value: Byte)
      // an access for writing that is not retried before the next call
    | AccessCall(address: nat)
    | TimerCall
    | ExecCall(areas: seq<Vma>, sections: seq<Section>)
    | ExitCall
      // kill of the task so many hops behind the running one
    | KillCall(hops: nat)

  // What a call does when fork copies every page
  ghost function EagerCall(call: Call): EagerRefinement.EagerOp {
    match call
    case ForkCall => EagerRefinement.EagerFork
    case WriteCall(x, value) => EagerRefinement.EagerWrite(PageOf(x), x % PAGE_SIZE, value)
    case AccessCall(x) => EagerRefinement.EagerTouch(PageOf(x))
    case TimerCall => EagerRefinement.EagerSwitch
    case ExecCall(_, sections) => EagerRefinement.EagerExec(Loaded(sections))
    case ExitCall => EagerRefinement.EagerDrop(0)
    case KillCall(hops) => EagerRefinement.EagerDrop(hops)
  }

  // The call takes at most `cost` frames, and so does a fork of the program that it starts.
  ghost predicate IsAffordable(call: Call, cost: nat) {
    match call
    case WriteCall(x, _) => PageOf(x) < USER_PAGES
    case AccessCall(x) => PageOf(x) < USER_PAGES
    case ExecCall(areas, sections) =>
      && AreUserSections(sections) && IsProgram(areas, Loaded(sections))
      && ProgramFrames(areas, sections) <= cost && ForkFrames(areas) <= cost
    case _ => true
  }

  // exit and kill keep what the others see only if the task shares no pages but identity pages.
  ghost predicate IsSafe(c: Cow, call: Call) {
    match call
    case ExitCall => SharesOnlyIdentityPages(c, 0)
    case KillCall(hops) => SharesOnlyIdentityPages(c, hops)
    case _ => true
  }

  ghost predicate ForksAreAffordable(ring: seq<Task>, cost: nat) {
    forall t | t in ring :: ForkFrames(t.areas) <= cost
  }

  // The calls that are served.  A write that the fault handler refuses ends in exit; a task that execs
  // alone stays in the ring next to its successor; sbush does not leave.
  ghost predicate IsServed(ring: seq<Task>, view: MemView, call: Call)
    requires |ring| > 0
  {
    match call
    case WriteCall(x, _) => CanBeWritten(ring[0], view, x)
    case AccessCall(x) => CanBeWritten(ring[0], view, x)
    case ExecCall(_, _) => |ring| > 1
    case ExitCall => ring[0].pid != 1
    case KillCall(hops) => 0 < hops < |ring| && ring[hops].pid != 1
    case _ => true
  }

  // The tasks of a ring were in another one, but for one that is new.
  ghost predicate AreOldOr(now: seq<Task>, ring: seq<Task>, born: Task) {
    forall t | t in now :: t in ring || t == born
  }

  // The tasks to delete were to be deleted or in the ring.
  ghost predicate AreFrom(now: seq<Task>, dead: seq<Task>, ring: seq<Task>) {
    forall t | t in now :: t in dead || t in ring
  }

  // The step from m to n serves the call.
  ghost predicate Serves(m: Moment, n: Moment, call: Call, op: Op) {
    IsKernelStep(m, n, op) && EagerRefinement.Erase(op) == EagerCall(call)
  }

  // The call has led from m to n; a refused one has changed nothing.
  ghost predicate IsAnswer(m: Moment, n: Moment, call: Call, cost: nat, served: bool, op: Op, born: Task) {
    && m.ring != [] && (served <==> IsServed(m.ring, m.view, call))
    && (if served then Serves(m, n, call, op) else n == m)
    && AreOldOr(n.ring, m.ring, born) && ForksAreAffordable(n.ring, cost)
  }

  // What the eager machine makes of the calls, byte by byte
  lemma ForkMeans(views: seq<EagerRefinement.Memory>)
    requires |views| > 0
    ensures var now := EagerRefinement.EagerApply(views, EagerCall(ForkCall));
            |now| == |views| + 1 && now[0] == now[1] == views[0] && now[2..] == views[1..]
  {
  }

  lemma TimerMeans(views: seq<EagerRefinement.Memory>)
    requires |views| > 0
    ensures var now := EagerRefinement.EagerApply(views, EagerCall(TimerCall));
            |now| == |views| && now[|views| - 1] == views[0] && now[..|views| - 1] == views[1..]
  {
  }

  lemma EndsMean(views: seq<EagerRefinement.Memory>, hops: nat)
    requires hops < |views|
    ensures EagerRefinement.EagerApply(views, EagerCall(ExitCall)) == views[1..]
    ensures EagerRefinement.EagerApply(views, EagerCall(KillCall(hops))) == views[..hops] + views[hops + 1..]
  {
  }

  lemma ExecMeans(views: seq<EagerRefinement.Memory>, areas: seq<Vma>, sections: seq<Section>, i: nat)
    requires |views| > 1 && i < |sections|
    requires forall j | i < j < |sections| :: PageOf(sections[j].address) != PageOf(sections[i].address)
    ensures var now := EagerRefinement.EagerApply(views, EagerCall(ExecCall(areas, sections)));
            && |now| == |views| && now[1..] == views[1..]
            && PageOf(sections[i].address) in now[0] && now[0][PageOf(sections[i].address)] == sections[i].contents
  {
    LastSectionCounts(sections, i);
  }

  // An access brings a page into being if there is none; all its bytes are 0.
  lemma AccessMeans(views: seq<EagerRefinement.Memory>, x: nat)
    requires |views| > 0
    ensures var now := EagerRefinement.EagerApply(views, EagerCall(AccessCall(x)));
            && |now| == |views| && now[1..] == views[1..] && now[0].Keys == views[0].Keys + {PageOf(x)}
            && (forall v | v in views[0] :: now[0][v] == views[0][v])
            && (PageOf(x) !in views[0] ==> forall k | 0 <= k < 0x1000 :: now[0][PageOf(x)][k] == 0)
  {
    ZeroPageIsZero();
  }

  // A write stores one byte, in the page of its address, for the running task alone.
  lemma WriteMeans(views: seq<EagerRefinement.Memory>, x: nat, value: Byte)
    requires |views| > 0
    ensures var now := EagerRefinement.EagerApply(views, EagerCall(WriteCall(x, value)));
            && |now| == |views| && now[1..] == views[1..] && now[0].Keys == views[0].Keys + {PageOf(x)}
            && (forall v | v in views[0] && v != PageOf(x) :: now[0][v] == views[0][v])
            && now[0][PageOf(x)][x % 0x1000] == value
            && forall k | 0 <= k < 0x1000 && k != x % 0x1000 ::
                 now[0][PageOf(x)][k] == if PageOf(x) in views[0] then views[0][PageOf(x)][k] else 0
  {
    ZeroPageIsZero();
  }

  /* ---------- refusal ---------- */

  // Whether a write is refused does not depend on how fork is done: it is served exactly when the
  // eager machine has the page, or an area begins in it.
  lemma RefusalIsEager(m: Moment, x: nat)
    requires IsConsistent(m.ring, m.view, m.dead) && m.ring != []
    requires PageStart(x) != STACK_BORDER
    ensures CanBeWritten(m.ring[0], m.view, x) <==>
              PageOf(x) in EagerRefinement.Views(AbsAt(m))[0] || IsFirstPageAt(m.ring[0].areas, x)
  {
    PagesInViews(m, PageOf(x));
  }

  lemma PagesInViews(m: Moment, v: nat)
    requires IsConsistent(m.ring, m.view, m.dead) && m.ring != []
    ensures v in EagerRefinement.Views(AbsAt(m))[0] <==> v in SpaceIn(m.view, m.ring[0].cr3)
  {
    EagerRefinement.FramesHaveData(AbsAt(m), 0);
    assert AbsAt(m).ring[0].space == SpaceIn(m.view, m.ring[0].cr3);
  }

  // Why a call is refused, by what the eager machine shows, the areas and the pids
  ghost predicate IsRefusedEagerly(views: seq<EagerRefinement.Memory>, ring: seq<Task>, call: Call)
    requires |ring| == |views| > 0
  {
    match call
    case WriteCall(x, _) => PageOf(x) !in views[0] && !IsFirstPageAt(ring[0].areas, x)
    case AccessCall(x) => PageOf(x) !in views[0] && !IsFirstPageAt(ring[0].areas, x)
    case ExecCall(_, _) => |views| == 1
    case ExitCall => ring[0].pid == 1
    case KillCall(hops) => !(0 < hops < |views|) || ring[hops].pid == 1
    case _ => false
  }

  predicate IsAtBorder(call: Call) {
    (call.WriteCall? || call.AccessCall?) && PageStart(call.address) == STACK_BORDER
  }

  lemma RefusedExactlyWhen(m: Moment, call: Call)
    requires IsConsistent(m.ring, m.view, m.dead) && m.ring != [] && !IsAtBorder(call)
    ensures !IsServed(m.ring, m.view, call) <==> IsRefusedEagerly(EagerRefinement.Views(AbsAt(m)), m.ring, call)
  {
    match call
    case WriteCall(x, _) => RefusalIsEager(m, x);
    case AccessCall(x) => RefusalIsEager(m, x);
    case _ =>
  }

  // At the border of the stack it does: there, fork turns a store that is served into one that ends in
  // exit, though the eager machine still has the page.
  lemma ForkClosesBorder(m: Moment, n: Moment, copies: map<nat, nat>, added: map<nat, Page>, x: nat)
    requires IsKernelStep(m, n, Fork(copies, added)) && m.ring != [] && n.ring != []
    requires PageStart(x) == STACK_BORDER && PageOf(x) in SharedPages(m.ring[0].areas)
    requires CanBeWritten(m.ring[0], m.view, x)
    ensures PageOf(x) in EagerRefinement.Views(AbsAt(m))[0] && PageOf(x) in EagerRefinement.Views(AbsAt(n))[0]
    ensures !CanBeWritten(n.ring[0], n.view, x)
  {
    PagesInViews(m, PageOf(x));
    PagesInViews(n, PageOf(x));
    assert AbsAt(m).ring[0] == Proc(m.ring[0].areas, SpaceIn(m.view, m.ring[0].cr3));
    assert AbsAt(n).ring[0].space == SpaceIn(n.view, n.ring[0].cr3);
  }

  /* ---------- fork ---------- */

  lemma ForkAnswers(m: Moment, n: Moment, cost: nat, copies: map<nat, nat>, pid: int)
    requires n.dead == m.dead && IsForkWithPid(m.ring, m.view, n.ring, n.view, m.dead, copies, pid)
    requires n.ring == AddAfterRunning(m.ring, n.ring[1]) && n.ring[1].areas == m.ring[0].areas
    requires ForksAreAffordable(m.ring, cost)
    ensures IsAnswer(m, n, ForkCall, cost, true, Fork(copies, Added(m.view, n.view)), n.ring[1])
  {
    assert m.ring[0] in m.ring;
  }

  method ServeFork(k: Kernel, ghost cost: nat, ghost reserve: nat)
    returns (served: bool, ghost op: Op, ghost born: Task)
    requires k.Valid() && |k.memory.state.free| >= reserve + ForkFrames(k.queue.running.areas)
    requires ForksAreAffordable(k.queue.ring, cost)
    modifies k.memory`state, k.memory.frames, k.memory.bitmap.availFrames
    modifies k.queue`ring, k.queue`pidCount, k.queue.running`next
    ensures k.Valid() && |k.memory.state.free| >= reserve && (born in old(k.queue.ring) || fresh(born))
    ensures IsAnswer(old(MomentOf(k)), MomentOf(k), ForkCall, cost, served, op, born)
  {
    ghost var m := MomentOf(k);
    var pid;
    ghost var copies;
    pid, copies := k.Fork(reserve);
    served, op, born := true, Fork(copies, Added(m.view, k.memory.View())), k.queue.ring[1];
    ForkAnswers(m, MomentOf(k), cost, copies, pid);
  }

  /* ---------- user writes ---------- */

  lemma WriteAnswers(m: Moment, n: Moment, cost: nat, x: nat, value: Byte, spare: nat, served: bool)
    requires m.ring != [] && n.ring == m.ring && ForksAreAffordable(m.ring, cost)
    requires served <==> CanBeWritten(m.ring[0], m.view, x)
    requires if served then IsKernelStep(m, n, Write(PageOf(x), x % PAGE_SIZE, value, spare)) else n == m
    ensures IsAnswer(m, n, WriteCall(x, value), cost, served, Write(PageOf(x), x % PAGE_SIZE, value, spare), m.ring[0])
  {
  }

  method ServeWrite(k: Kernel, address: nat, value: Byte, ghost cost: nat)
    returns (served: bool, ghost op: Op, ghost born: Task)
    requires k.Valid() && |k.memory.state.free| >= 4 && PageOf(address) < USER_PAGES
    requires ForksAreAffordable(k.queue.ring, cost)
    modifies k.memory`state, k.memory.frames, k.memory.bitmap.availFrames
    ensures k.Valid() && |old(k.memory.state.free)| <= |k.memory.state.free| + 4 && born in old(k.queue.ring)
    ensures IsAnswer(old(MomentOf(k)), MomentOf(k), WriteCall(address, value), cost, served, op, born)
  {
    ghost var m := MomentOf(k);
    VerdictInView(k.memory.state, k.queue.ring, address);
    var result;
    ghost var spare;
    result, spare := k.UserWrite(address, value);
    served, op, born := result == Resumed, Write(PageOf(address), address % PAGE_SIZE, value, spare), m.ring[0];
    WriteAnswers(m, MomentOf(k), cost, address, value, spare, served);
  }

  lemma AccessAnswers(m: Moment, n: Moment, cost: nat, x: nat, spare: nat, served: bool)
    requires m.ring != [] && n.ring == m.ring && ForksAreAffordable(m.ring, cost)
    requires served <==> CanBeWritten(m.ring[0], m.view, x)
    requires if served then IsKernelStep(m, n, Fault(PageOf(x), spare)) else n == m
    ensures IsAnswer(m, n, AccessCall(x), cost, served, Fault(PageOf(x), spare), m.ring[0])
  {
  }

  method ServeAccess(k: Kernel, address: nat, ghost cost: nat)
    returns (served: bool, ghost op: Op, ghost born: Task)
    requires k.Valid() && |k.memory.state.free| >= 4 && PageOf(address) < USER_PAGES
    requires ForksAreAffordable(k.queue.ring, cost)
    modifies k.memory`state, k.memory.frames, k.memory.bitmap.availFrames
    ensures k.Valid() && |old(k.memory.state.free)| <= |k.memory.state.free| + 4 && born in old(k.queue.ring)
    ensures IsAnswer(old(MomentOf(k)), MomentOf(k), AccessCall(address), cost, served, op, born)
  {
    ghost var m := MomentOf(k);
    VerdictInView(k.memory.state, k.queue.ring, address);
    var result;
    ghost var spare;
    result, spare := k.UserAccess(address);
    served, op, born := result == Resumed, Fault(PageOf(address), spare), m.ring[0];
    AccessAnswers(m, MomentOf(k), cost, address, spare, served);
  }

  /* ---------- the timer ---------- */

  lemma TimerAnswers(m: Moment, n: Moment, cost: nat)
    requires m.ring != [] && n.ring == Advance(m.ring) && ForksAreAffordable(m.ring, cost)
    requires IsKernelStep(m, n, Switch)
    ensures IsAnswer(m, n, TimerCall, cost, true, Switch, m.ring[0])
  {
  }

  method ServeTimer(k: Kernel, ghost cost: nat) returns (served: bool, ghost op: Op, ghost born: Task)
    requires k.Valid() && ForksAreAffordable(k.queue.ring, cost)
    modifies k.queue`running, k.queue`ring, k.queue.ring`currAlarmCount, k.queue.ring`expectedAlarmCount
    ensures k.Valid() && born in old(k.queue.ring)
    ensures IsAnswer(old(MomentOf(k)), MomentOf(k), TimerCall, cost, served, op, born)
  {
    ghost var m := MomentOf(k);
    var alarm := k.SwitchTask();
    served, op, born := true, Switch, m.ring[0];
    TimerAnswers(m, MomentOf(k), cost);
  }

  /* ---------- exec ---------- */

  lemma ExecAnswers(m: Moment, n: Moment, cost: nat, areas: seq<Vma>, sections: seq<Section>)
    requires |m.ring| > 1 && ForksAreAffordable(m.ring, cost) && ForkFrames(areas) <= cost
    requires |n.ring| > 0 && n.ring == ReplaceRunning(m.ring, n.ring[0]) && n.ring[0].areas == areas
    requires IsExecOf(m.ring, m.view, m.dead, n.ring, n.view, n.dead, Loaded(sections))
    ensures var op := Exec(ProcOf(n.ring[0], n.view), Added(m.view, n.view));
            IsAnswer(m, n, ExecCall(areas, sections), cost, true, op, n.ring[0])
  {
  }

  // Is the running task alone?
  method IsAlone(queue: RunQueue) returns (alone: bool)
    requires IsInOrder(queue)
    ensures alone <==> |queue.ring| == 1
  {
    alone := queue.running.next == queue.running;
    assert queue.ring[0].next == After(queue.ring, 0);
  }

  method ServeExec(k: Kernel, areas: seq<Vma>, sections: seq<Section>, ghost cost: nat)
    returns (served: bool, ghost op: Op, ghost born: Task)
    requires k.Valid() && |k.memory.state.free| >= cost && ForksAreAffordable(k.queue.ring, cost)
    requires IsAffordable(ExecCall(areas, sections), cost)
    modifies k.memory`state, k.memory.frames, k.memory.bitmap.availFrames
    modifies k.queue`running, k.queue`ring, k.queue`pidCount, k.queue.ring`next
    ensures k.Valid() && |old(k.memory.state.free)| <= |k.memory.state.free| + cost
    ensures born in old(k.queue.ring) || fresh(born)
    ensures IsAnswer(old(MomentOf(k)), MomentOf(k), ExecCall(areas, sections), cost, served, op, born)
  {
    var alone := IsAlone(k.queue);
    if alone {
      served, op, born := false, Switch, k.queue.ring[0];
    } else {
      op, born := ReplaceProgram(k, areas, sections, cost);
      served := true;
    }
  }

  method ReplaceProgram(k: Kernel, areas: seq<Vma>, sections: seq<Section>, ghost cost: nat)
    returns (ghost op: Op, ghost born: Task)
    requires k.Valid() && |k.queue.ring| > 1 && |k.memory.state.free| >= cost
    requires ForksAreAffordable(k.queue.ring, cost) && IsAffordable(ExecCall(areas, sections), cost)
    modifies k.memory`state, k.memory.frames, k.memory.bitmap.availFrames
    modifies k.queue`running, k.queue`ring, k.queue`pidCount, k.queue.ring`next
    ensures k.Valid() && |old(k.memory.state.free)| <= |k.memory.state.free| + cost
    ensures born in old(k.queue.ring) || fresh(born)
    ensures IsAnswer(old(MomentOf(k)), MomentOf(k), ExecCall(areas, sections), cost, true, op, born)
  {
    ghost var m := MomentOf(k);
    k.ExecTask(areas, sections);
    ghost var n := MomentOf(k);
    op, born := Exec(ProcOf(n.ring[0], n.view), Added(m.view, n.view)), n.ring[0];
    assert IsAnswer(m, n, ExecCall(areas, sections), cost, true, op, born) by {
      ExecAnswers(m, n, cost, areas, sections);
    }
  }

  /* ---------- exit and kill ---------- */

  lemma SubsetIsSmaller(a: set<nat>, b: set<nat>)
    requires a <= b
    ensures |a| <= |b|
  {
    assert b == a + (b - a);
  }

  lemma ExitAnswers(m: Moment, n: Moment, cost: nat, served: bool)
    requires m.ring != [] && ForksAreAffordable(m.ring, cost) && (served <==> m.ring[0].pid != 1)
    requires if served then IsKernelStep(m, n, Exit) && n.ring == DropAt(m.ring, 0) else n == m
    ensures IsAnswer(m, n, ExitCall, cost, served, Exit, m.ring[0])
  {
  }

  method ServeExit(k: Kernel, ghost cost: nat) returns (served: bool, ghost op: Op, ghost born: Task)
    requires k.Valid() && ForksAreAffordable(k.queue.ring, cost) && IsSafe(AbsAt(MomentOf(k)), ExitCall)
    modifies k.memory`state, k.memory.frames, k.memory.bitmap.availFrames, k.queue`running, k.queue`deleteQueue
    modifies k.queue`ring, k.queue`dead, k.queue.ring`next, k.queue.running`state, k.queue.dead`next
    ensures k.Valid() && |old(k.memory.state.free)| <= |k.memory.state.free| && born in old(k.queue.ring)
    ensures AreFrom(k.queue.dead, old(k.queue.dead), old(k.queue.ring))
    ensures IsAnswer(old(MomentOf(k)), MomentOf(k), ExitCall, cost, served, op, born)
  {
    ghost var m, free := MomentOf(k), k.memory.state.free;
    var gone := k.ExitTask();
    served, op, born := gone != null, Exit, m.ring[0];
    SubsetIsSmaller(free, k.memory.state.free);
    ExitAnswers(m, MomentOf(k), cost, served);
  }

  // The task so many hops behind the running one, if the ring has that many others
  method FindTask(queue: RunQueue, hops: nat) returns (task: Task, found: bool)
    requires IsInOrder(queue)
    ensures found <==> 0 < hops < |queue.ring|
    ensures found ==> task == queue.ring[hops]
  {
    task := queue.running;
    ghost var ring := queue.ring;
    for i := 0 to hops
      invariant i < |ring| && task == ring[i]
    {
      NextHop(ring, i);
      task := task.next;
      if task == queue.running {
        return task, false;
      }
    }
    found := hops > 0;
  }

  lemma KillAnswers(m: Moment, n: Moment, cost: nat, hops: nat, served: bool)
    requires m.ring != [] && ForksAreAffordable(m.ring, cost)
    requires served <==> 0 < hops < |m.ring| && m.ring[hops].pid != 1
    requires if served then IsKernelStep(m, n, CowMachine.Kill(hops)) && n.ring == DropAt(m.ring, hops) else n == m
    ensures IsAnswer(m, n, KillCall(hops), cost, served, CowMachine.Kill(hops), m.ring[0])
  {
  }

  lemma PidsAreOwn(ring: seq<Task>, limit: int, i: nat, k: nat)
    requires HavePids(ring, limit) && i < |ring| && k < |ring| && ring[i].pid == ring[k].pid
    ensures i == k
  {
  }

  method ServeKill(k: Kernel, hops: nat, ghost cost: nat) returns (served: bool, ghost op: Op, ghost born: Task)
    requires k.Valid() && ForksAreAffordable(k.queue.ring, cost) && IsSafe(AbsAt(MomentOf(k)), KillCall(hops))
    modifies k.memory`state, k.memory.frames, k.memory.bitmap.availFrames
    modifies k.queue`deleteQueue, k.queue`ring, k.queue`dead, k.queue.ring`next, k.queue.dead`next
    ensures k.Valid() && |old(k.memory.state.free)| <= |k.memory.state.free| && born in old(k.queue.ring)
    ensures AreFrom(k.queue.dead, old(k.queue.dead), old(k.queue.ring))
    ensures IsAnswer(old(MomentOf(k)), MomentOf(k), KillCall(hops), cost, served, op, born)
  {
    ghost var m := MomentOf(k);
    var task, found := FindTask(k.queue, hops);
    served, op, born := found && task.pid != 1, CowMachine.Kill(hops), m.ring[0];
    if served {
      KillAt(k, task, hops);
    }
    KillAnswers(m, MomentOf(k), cost, hops, served);
  }

  method KillAt(k: Kernel, task: Task, ghost hops: nat)
    requires k.Valid() && 0 < hops < |k.queue.ring| && task == k.queue.ring[hops] && task.pid != 1
    requires SharesOnlyIdentityPages(AbsAt(MomentOf(k)), hops)
    modifies k.memory`state, k.memory.frames, k.memory.bitmap.availFrames
    modifies k.queue`deleteQueue, k.queue`ring, k.queue`dead, k.queue.ring`next, k.queue.dead`next
    ensures k.Valid() && |old(k.memory.state.free)| <= |k.memory.state.free|
    ensures k.queue.dead == old(k.queue.dead) + [task] && k.queue.ring == DropAt(old(k.queue.ring), hops)
    ensures IsKernelStep(old(MomentOf(k)), MomentOf(k), CowMachine.Kill(hops))
  {
    ghost var ring, limit, free := k.queue.ring, k.queue.pidCount, k.memory.state.free;
    forall i | 0 < i < |ring| && ring[i].pid == task.pid
      ensures i == hops
    {
      PidsAreOwn(ring, limit, i, hops);
    }
    var victim;
    ghost var i;
    victim, i := k.KillTask(task.pid);
    PidsAreOwn(ring, limit, i, hops);
    SubsetIsSmaller(free, k.memory.state.free);
  }

  /* ---------- a store to the kernel's slot ---------- */

  // In a ring of n tasks, `tries` faults of the same store have been resumed since `base`.
  ghost predicate IsRetrying(n: nat, base: MemView, view: MemView, v: nat, tries: nat) {
    && view.spaces == base.spaces && v in view.kernel && view.kernel[v].present
    && (forall f | f in base.data :: f in view.data && view.data[f] == base.data[f])
    && |view.data| == |base.data| + if n == 1 then 0 else tries
  }

  lemma RetryGoesOn(n: nat, base: MemView, view: MemView, after: MemView, v: nat, tries: nat, more: nat, spare: nat)
    requires IsRetrying(n, base, view, v, tries) && IsKernelFault(n, view, after, v, spare) && more == tries + 1
    ensures IsRetrying(n, base, after, v, more)
  {
    assert n != 1 ==> after.data.Keys == view.data.Keys + {spare};
    assert |after.data| == |after.data.Keys| && |view.data| == |view.data.Keys|;
  }

  lemma RetryIsResumed(k: Kernel, address: nat)
    requires k.Valid() && PageOf(address) >= USER_PAGES
    requires PageOf(address) in k.memory.View().kernel && k.memory.View().kernel[PageOf(address)].present
    ensures WriteVerdict(k.queue.running, k.memory.state, address) == Resumed
  {
    KernelSlotVerdict(k.memory.state, k.queue.ring, address);
  }

  // A user's store to a mapped page of the kernel's slot is never performed: every retry faults and is
  // resumed again.  With other tasks in the ring each takes a frame; alone, the task retries forever.
  method RetryStores(k: Kernel, address: nat, value: Byte, n: nat)
    requires k.Valid() && |k.memory.state.free| >= 4 * n && PageOf(address) >= USER_PAGES
    requires PageOf(address) in k.memory.View().kernel && k.memory.View().kernel[PageOf(address)].present
    modifies k.memory`state, k.memory.frames, k.memory.bitmap.availFrames
    ensures k.Valid() && WriteVerdict(k.queue.running, k.memory.state, address) == Resumed
    ensures IsRetrying(|k.queue.ring|, old(k.memory.View()), k.memory.View(), PageOf(address), n)
    ensures |k.memory.View().data| == |old(k.memory.View()).data| + if |k.queue.ring| == 1 then 0 else n
    ensures k.memory.View().spaces == old(k.memory.View()).spaces
  {
    ghost var base := k.memory.View();
    ghost var left := n;
    RetryIsResumed(k, address);
    for i := 0 to n
      invariant k.Valid() && WriteVerdict(k.queue.running, k.memory.state, address) == Resumed
      invariant IsRetrying(|k.queue.ring|, base, k.memory.View(), PageOf(address), i)
      invariant i + left == n && |k.memory.state.free| >= 4 * left
    {
      RetryOnce(k, address, value, base, i, i + 1);
      left := left - 1;
    }
  }

  method RetryOnce(k: Kernel, address: nat, value: Byte, ghost base: MemView, ghost tries: nat, ghost more: nat)
    requires k.Valid() && |k.memory.state.free| >= 4 && PageOf(address) >= USER_PAGES && more == tries + 1
    requires WriteVerdict(k.queue.running, k.memory.state, address) == Resumed
    requires IsRetrying(|k.queue.ring|, base, k.memory.View(), PageOf(address), tries)
    modifies k.memory`state, k.memory.frames, k.memory.bitmap.availFrames
    ensures k.Valid() && WriteVerdict(k.queue.running, k.memory.state, address) == Resumed
    ensures IsRetrying(|k.queue.ring|, base, k.memory.View(), PageOf(address), more)
    ensures |old(k.memory.state.free)| <= |k.memory.state.free| + 4
  {
    ghost var view := k.memory.View();
    var result;
    ghost var spare;
    result, spare := k.UserWrite(address, value);
    RetryGoesOn(|k.queue.ring|, base, view, k.memory.View(), PageOf(address), tries, more, spare);
    RetryIsResumed(k, address);
  }
}
