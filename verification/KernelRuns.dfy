/**
 * Runs of the kernel: whatever its operations do to page tables, frames and the ring, the tasks see
 * what they would see if fork copied every page.  Serve runs the kernel's own operations on any list of
 * calls, and BootAndServe begins with the start of the kernel.
 */
module KernelRuns {
  import opened PageFormat
  import opened PageTables
  import opened Vmas
  import opened CowMachine
  import opened VirtualMemory
  import opened RunQueue
  import opened KernelViews
  import opened Forking
  import opened Execs
  import opened Kernel
  import opened KernelCalls
  import opened Boot
  import EagerRefinement

  // Each operation of class Kernel establishes IsStep between the moment before and the one after.
  ghost predicate IsKernelRun(moments: seq<Moment>, ops: seq<Op>) {
    |moments| == |ops| + 1 && forall i | 0 <= i < |ops| :: IsKernelStep(moments[i], moments[i + 1], ops[i])
  }

  lemma {:induction false} KernelRunIsMachineRun(moments: seq<Moment>, ops: seq<Op>)
    requires IsKernelRun(moments, ops) && Inv(AbsAt(moments[0]))
    ensures EagerRefinement.IsRun(AbsAt(moments[0]), ops)
    ensures EagerRefinement.Run(AbsAt(moments[0]), ops) == AbsAt(moments[|ops|])
    decreases |ops|
  {
    if ops != [] {
      FirstStep(moments, ops);
      TailIsRun(moments, ops);
      KernelRunIsMachineRun(moments[1..], ops[1..]);
    }
  }

  lemma TailIsRun(moments: seq<Moment>, ops: seq<Op>)
    requires IsKernelRun(moments, ops) && ops != []
    ensures IsKernelRun(moments[1..], ops[1..])
  {
    var later, rest := moments[1..], ops[1..];
    forall i | 0 <= i < |rest|
      ensures IsKernelStep(later[i], later[i + 1], rest[i])
    {
      assert IsKernelStep(moments[i + 1], moments[i + 2], ops[i + 1]);
    }
  }

  lemma FirstStep(moments: seq<Moment>, ops: seq<Op>)
    requires IsKernelRun(moments, ops) && ops != []
    ensures var c := AbsAt(moments[0]);
            Inv(c) && Enabled(c, ops[0]) && AbsAt(moments[1]) == Apply(c, ops[0]) && Inv(AbsAt(moments[1]))
  {
    assert IsKernelStep(moments[0], moments[1], ops[0]);
  }

  // Copy-on-write fork in the kernel is indistinguishable from fork by copying, over every run.
  lemma KernelRunIsEagerRun(moments: seq<Moment>, ops: seq<Op>)
    requires IsKernelRun(moments, ops) && Inv(AbsAt(moments[0]))
    ensures var before, after := EagerRefinement.Views(AbsAt(moments[0])), EagerRefinement.Views(AbsAt(moments[|ops|]));
            && EagerRefinement.IsEagerRun(before, EagerRefinement.EraseAll(ops))
            && after == EagerRefinement.EagerRun(before, EagerRefinement.EraseAll(ops))
  {
    KernelRunIsMachineRun(moments, ops);
    EagerRefinement.CowForkIsEagerFork(AbsAt(moments[0]), ops);
  }

  /* ---------- any list of calls ---------- */

  ghost function EagerCalls(calls: seq<Call>): seq<EagerRefinement.EagerOp> {
    seq(|calls|, i requires 0 <= i < |calls| => EagerCall(calls[i]))
  }

  // Wherever a run of the machine on these calls comes to an exit or a kill, that call is safe.
  ghost predicate ExitsAreSafe(c: Cow, calls: seq<Call>)
    requires Inv(c)
  {
    forall ops: seq<Op>, n: nat ::
      n < |calls| && EagerRefinement.IsRun(c, ops) && EagerRefinement.EraseAll(ops) == EagerCalls(calls[..n]) ==>
        IsSafe(EagerRefinement.Run(c, ops), calls[n])
  }

  lemma RunningIsAffordable(ring: seq<Task>, cost: nat)
    requires ForksAreAffordable(ring, cost) && ring != []
    ensures ForkFrames(ring[0].areas) <= cost
  {
    assert ring[0] in ring;
  }

  method ServeOne(k: Kernel, call: Call, ghost cost: nat, ghost reserve: nat)
    returns (served: bool, ghost op: Op, ghost born: Task)
    requires k.Valid() && |k.memory.state.free| >= reserve + cost && cost >= 4
    requires IsAffordable(call, cost) && ForksAreAffordable(k.queue.ring, cost) && IsSafe(AbsAt(MomentOf(k)), call)
    modifies k.memory`state, k.memory.frames, k.memory.bitmap.availFrames, k.queue, k.queue.ring, k.queue.dead
    ensures k.Valid() && |k.memory.state.free| >= reserve && (born in old(k.queue.ring) || fresh(born))
    ensures AreFrom(k.queue.dead, old(k.queue.dead), old(k.queue.ring))
    ensures IsAnswer(old(MomentOf(k)), MomentOf(k), call, cost, served, op, born)
  {
    if call.ExitCall? || call.KillCall? {
      served, op, born := ServeEnd(k, call, cost);
    } else {
      served, op, born := ServeLiving(k, call, cost, reserve);
    }
  }

  // The calls that take no task out of the ring for good
  method ServeLiving(k: Kernel, call: Call, ghost cost: nat, ghost reserve: nat)
    returns (served: bool, ghost op: Op, ghost born: Task)
    requires k.Valid() && |k.memory.state.free| >= reserve + cost && cost >= 4 && !call.ExitCall? && !call.KillCall?
    requires IsAffordable(call, cost) && ForksAreAffordable(k.queue.ring, cost)
    modifies k.memory`state, k.memory.frames, k.memory.bitmap.availFrames
    modifies k.queue`running, k.queue`ring, k.queue`pidCount, k.queue.ring
    ensures k.Valid() && |k.memory.state.free| >= reserve && (born in old(k.queue.ring) || fresh(born))
    ensures IsAnswer(old(MomentOf(k)), MomentOf(k), call, cost, served, op, born)
  {
    if call.TimerCall? {
      served, op, born := ServeTimer(k, cost);
    } else if call.WriteCall? || call.AccessCall? {
      served, op, born := ServeStore(k, call, cost);
    } else {
      served, op, born := ServeBirth(k, call, cost, reserve);
    }
  }

  method ServeBirth(k: Kernel, call: Call, ghost cost: nat, ghost reserve: nat)
    returns (served: bool, ghost op: Op, ghost born: Task)
    requires k.Valid() && |k.memory.state.free| >= reserve + cost && (call.ForkCall? || call.ExecCall?)
    requires IsAffordable(call, cost) && ForksAreAffordable(k.queue.ring, cost)
    modifies k.memory`state, k.memory.frames, k.memory.bitmap.availFrames
    modifies k.queue`running, k.queue`ring, k.queue`pidCount, k.queue.ring`next
    ensures k.Valid() && |k.memory.state.free| >= reserve && (born in old(k.queue.ring) || fresh(born))
    ensures IsAnswer(old(MomentOf(k)), MomentOf(k), call, cost, served, op, born)
  {
    match call {
      case ForkCall =>
        RunningIsAffordable(k.queue.ring, cost);
        served, op, born := ServeFork(k, cost, reserve);
      case ExecCall(areas, sections) =>
        served, op, born := ServeExec(k, areas, sections, cost);
    }
  }

  method ServeStore(k: Kernel, call: Call, ghost cost: nat) returns (served: bool, ghost op: Op, ghost born: Task)
    requires k.Valid() && |k.memory.state.free| >= 4 && (call.WriteCall? || call.AccessCall?)
    requires IsAffordable(call, cost) && ForksAreAffordable(k.queue.ring, cost)
    modifies k.memory`state, k.memory.frames, k.memory.bitmap.availFrames
    ensures k.Valid() && |old(k.memory.state.free)| <= |k.memory.state.free| + 4 && born in old(k.queue.ring)
    ensures IsAnswer(old(MomentOf(k)), MomentOf(k), call, cost, served, op, born)
  {
    match call {
      case WriteCall(address, value) =>
        served, op, born := ServeWrite(k, address, value, cost);
      case AccessCall(address) =>
        served, op, born := ServeAccess(k, address, cost);
    }
  }

  method ServeEnd(k: Kernel, call: Call, ghost cost: nat) returns (served: bool, ghost op: Op, ghost born: Task)
    requires k.Valid() && ForksAreAffordable(k.queue.ring, cost) && IsSafe(AbsAt(MomentOf(k)), call)
    requires call.ExitCall? || call.KillCall?
    modifies k.memory`state, k.memory.frames, k.memory.bitmap.availFrames, k.queue`running, k.queue`deleteQueue
    modifies k.queue`ring, k.queue`dead, k.queue.ring`next, k.queue.running`state, k.queue.dead`next
    ensures k.Valid() && |old(k.memory.state.free)| <= |k.memory.state.free| && born in old(k.queue.ring)
    ensures AreFrom(k.queue.dead, old(k.queue.dead), old(k.queue.ring))
    ensures IsAnswer(old(MomentOf(k)), MomentOf(k), call, cost, served, op, born)
  {
    match call {
      case ExitCall =>
        served, op, born := ServeExit(k, cost);
      case KillCall(hops) =>
        served, op, born := ServeKill(k, hops, cost);
    }
  }

  // The first `done` calls have led from `start` to `now`.
  ghost predicate IsServing(moments: seq<Moment>, ops: seq<Op>, calls: seq<Call>, done: nat, start: Moment,
                            now: Moment) {
    && |ops| == done <= |calls| && |moments| == done + 1 && moments[done] == now
    && if done == 0 then now == start
       else
         && Serves(moments[done - 1], now, calls[done - 1], ops[done - 1])
         && IsServing(moments[..done], ops[..done - 1], calls, done - 1, start, moments[done - 1])
  }

  lemma {:induction false} ServingMeans(moments: seq<Moment>, ops: seq<Op>, calls: seq<Call>, done: nat, start: Moment,
                                        now: Moment)
    requires IsServing(moments, ops, calls, done, start, now)
    ensures IsKernelRun(moments, ops) && moments[0] == start
    ensures forall i | 0 <= i < done :: EagerRefinement.Erase(ops[i]) == EagerCall(calls[i])
    decreases done
  {
    if done > 0 {
      var some, fewer := moments[..done], ops[..done - 1];
      ServingMeans(some, fewer, calls, done - 1, start, moments[done - 1]);
      forall i | 0 <= i < done
        ensures IsKernelStep(moments[i], moments[i + 1], ops[i]) && EagerRefinement.Erase(ops[i]) == EagerCall(calls[i])
      {
        if i < done - 1 {
          assert IsKernelStep(some[i], some[i + 1], fewer[i]);
        }
      }
    }
  }

  lemma ServingGoesOn(moments: seq<Moment>, ops: seq<Op>, calls: seq<Call>, done: nat, start: Moment, now: Moment,
                      next: Moment, op: Op)
    requires IsServing(moments, ops, calls, done, start, now) && done < |calls| && Serves(now, next, calls[done], op)
    ensures IsServing(moments + [next], ops + [op], calls, done + 1, start, next)
  {
    assert (moments + [next])[..done + 1] == moments && (ops + [op])[..done] == ops;
  }

  // n times cost
  ghost function Budget(cost: nat, n: nat): nat { if n == 0 then 0 else cost + Budget(cost, n - 1) }

  lemma OneCallLess(cost: nat, n: nat, less: nat)
    requires n == less + 1
    ensures Budget(cost, n) == Budget(cost, less) + cost
  {
  }

  ghost predicate AreAffordable(calls: seq<Call>, cost: nat) {
    forall i | 0 <= i < |calls| :: IsAffordable(calls[i], cost)
  }

  ghost predicate IsRefused(m: Moment, call: Call) { m.ring != [] && !IsServed(m.ring, m.view, call) }

  lemma AnswerIsServing(moments: seq<Moment>, ops: seq<Op>, calls: seq<Call>, done: nat, start: Moment, now: Moment,
                        next: Moment, cost: nat, served: bool, op: Op, born: Task, later: nat)
    requires IsServing(moments, ops, calls, done, start, now) && done < |calls| && later == done + 1
    requires IsAnswer(now, next, calls[done], cost, served, op, born)
    ensures served ==> IsServing(moments + [next], ops + [op], calls, later, start, next)
    ensures !served ==> next == now && IsRefused(now, calls[done])
    ensures ForksAreAffordable(next.ring, cost) && AreOldOr(next.ring, now.ring, born)
  {
    if served {
      ServingGoesOn(moments, ops, calls, done, start, now, next, op);
    }
  }

  ghost predicate AreAmong(ring: seq<Task>, dead: seq<Task>, tasks: set<Task>) {
    (forall t | t in ring :: t in tasks) && forall t | t in dead :: t in tasks
  }

  // A run on the first calls, as a run of the machine
  lemma ServedIsRun(moments: seq<Moment>, ops: seq<Op>, calls: seq<Call>, done: nat, start: Moment, now: Moment)
    requires IsServing(moments, ops, calls, done, start, now) && Inv(AbsAt(start))
    ensures EagerRefinement.IsRun(AbsAt(start), ops) && EagerRefinement.Run(AbsAt(start), ops) == AbsAt(now)
    ensures EagerRefinement.EraseAll(ops) == EagerCalls(calls[..done])
  {
    ServingMeans(moments, ops, calls, done, start, now);
    KernelRunIsMachineRun(moments, ops);
    assert EagerRefinement.EraseAll(ops) == EagerCalls(calls[..done]);
  }

  lemma NextIsSafe(moments: seq<Moment>, ops: seq<Op>, calls: seq<Call>, done: nat, start: Moment, now: Moment)
    requires IsServing(moments, ops, calls, done, start, now) && done < |calls|
    requires Inv(AbsAt(start)) && ExitsAreSafe(AbsAt(start), calls)
    ensures IsSafe(AbsAt(now), calls[done])
  {
    ServedIsRun(moments, ops, calls, done, start, now);
    assert EagerRefinement.EraseAll(ops) == EagerCalls(calls[..done]);
  }

  lemma AmongGrows(ring: seq<Task>, dead: seq<Task>, now: seq<Task>, later: seq<Task>, born: Task,
                   mine: set<Task>, grown: set<Task>)
    requires AreAmong(ring, dead, mine) && AreOldOr(now, ring, born) && AreFrom(later, dead, ring)
    requires grown == mine + {born}
    ensures AreAmong(now, later, grown)
  {
  }

  // One call, by which at most one task joins those there were
  method ServeAmong(k: Kernel, call: Call, ghost cost: nat, ghost reserve: nat, ghost mine: set<Task>)
    returns (served: bool, ghost op: Op, ghost born: Task, ghost grown: set<Task>)
    requires k.Valid() && cost >= 4 && |k.memory.state.free| >= reserve + cost && ForksAreAffordable(k.queue.ring, cost)
    requires IsAffordable(call, cost) && IsSafe(AbsAt(MomentOf(k)), call)
    requires AreAmong(k.queue.ring, k.queue.dead, mine)
    modifies k.memory`state, k.memory.frames, k.memory.bitmap.availFrames, k.queue, k.queue.ring, k.queue.dead
    ensures k.Valid() && |k.memory.state.free| >= reserve
    ensures IsAnswer(old(MomentOf(k)), MomentOf(k), call, cost, served, op, born)
    ensures AreAmong(k.queue.ring, k.queue.dead, grown) && forall t | t in grown :: t in mine || fresh(t)
  {
    ghost var ring, dead := k.queue.ring, k.queue.dead;
    served, op, born := ServeOne(k, call, cost, reserve);
    assert born in mine || fresh(born);
    grown := mine + {born};
    assert AreAmong(k.queue.ring, k.queue.dead, grown) by {
      AmongGrows(ring, dead, k.queue.ring, k.queue.dead, born, mine, grown);
    }
  }

  // One call more, which is safe
  method ServeNext(k: Kernel, calls: seq<Call>, done: nat, ghost later: nat, ghost start: Moment,
                   ghost moments: seq<Moment>, ghost ops: seq<Op>, ghost cost: nat, ghost reserve: nat,
                   ghost mine: set<Task>)
    returns (served: bool, ghost longer: seq<Moment>, ghost more: seq<Op>, ghost grown: set<Task>)
    requires k.Valid() && cost >= 4 && |k.memory.state.free| >= reserve + cost && ForksAreAffordable(k.queue.ring, cost)
    requires done < |calls| && later == done + 1 && IsAffordable(calls[done], cost)
    requires IsServing(moments, ops, calls, done, start, MomentOf(k)) && AreAmong(k.queue.ring, k.queue.dead, mine)
    requires IsSafe(AbsAt(MomentOf(k)), calls[done])
    modifies k.memory`state, k.memory.frames, k.memory.bitmap.availFrames, k.queue, mine
    ensures k.Valid() && |k.memory.state.free| >= reserve && ForksAreAffordable(k.queue.ring, cost)
    ensures AreAmong(k.queue.ring, k.queue.dead, grown) && forall t | t in grown :: t in mine || fresh(t)
    ensures IsServing(longer, more, calls, if served then later else done, start, MomentOf(k))
    ensures !served ==> IsRefused(MomentOf(k), calls[done])
  {
    ghost var now := MomentOf(k);
    ghost var op, born;
    served, op, born, grown := ServeAmong(k, calls[done], cost, reserve, mine);
    AnswerIsServing(moments, ops, calls, done, start, now, MomentOf(k), cost, served, op, born, later);
    longer, more := if served then moments + [MomentOf(k)] else moments, if served then ops + [op] else ops;
  }

  lemma NothingServed(calls: seq<Call>, start: Moment)
    ensures IsServing([start], [], calls, 0, start, start)
  {
  }

  ghost function TasksOf(queue: RunQueue): set<Task>
    reads queue
  {
    (set t | t in queue.ring) + set t | t in queue.dead
  }

  // Serves the calls in order, up to the first that it refuses.
  method Serve(k: Kernel, calls: seq<Call>, ghost cost: nat)
    returns (done: nat, ghost moments: seq<Moment>, ghost ops: seq<Op>)
    requires k.Valid() && cost >= 4 && |k.memory.state.free| >= Budget(cost, |calls|)
    requires ForksAreAffordable(k.queue.ring, cost) && AreAffordable(calls, cost)
    requires Inv(AbsAt(MomentOf(k))) && ExitsAreSafe(AbsAt(MomentOf(k)), calls)
    modifies k.memory`state, k.memory.frames, k.memory.bitmap.availFrames, k.queue, k.queue.ring, k.queue.dead
    ensures k.Valid() && IsServing(moments, ops, calls, done, old(MomentOf(k)), MomentOf(k))
    ensures done < |calls| ==> IsRefused(MomentOf(k), calls[done])
  {
    ghost var start, mine := MomentOf(k), TasksOf(k.queue);
    NothingServed(calls, start);
    done, moments, ops := ServeRest(k, calls, 0, start, [start], [], cost, |calls|, mine);
  }

  // The same, when `done` calls have been served and `left` are left
  method ServeRest(k: Kernel, calls: seq<Call>, done: nat, ghost start: Moment, ghost moments: seq<Moment>,
                   ghost ops: seq<Op>, ghost cost: nat, ghost left: nat, ghost mine: set<Task>)
    returns (end: nat, ghost all: seq<Moment>, ghost allOps: seq<Op>)
    requires k.Valid() && cost >= 4 && |k.memory.state.free| >= Budget(cost, left) && done + left == |calls|
    requires ForksAreAffordable(k.queue.ring, cost) && AreAffordable(calls, cost)
    requires Inv(AbsAt(start)) && ExitsAreSafe(AbsAt(start), calls)
    requires IsServing(moments, ops, calls, done, start, MomentOf(k)) && AreAmong(k.queue.ring, k.queue.dead, mine)
    modifies k.memory`state, k.memory.frames, k.memory.bitmap.availFrames, k.queue, mine
    ensures k.Valid() && IsServing(all, allOps, calls, end, start, MomentOf(k))
    ensures end < |calls| ==> IsRefused(MomentOf(k), calls[end])
    decreases left
  {
    if done == |calls| {
      return done, moments, ops;
    }
    ghost var less, longer, more, grown := left - 1, [], [], mine;
    var served;
    var later := done + 1;
    OneCallLess(cost, left, less);
    NextIsSafe(moments, ops, calls, done, start, MomentOf(k));
    served, longer, more, grown :=
      ServeNext(k, calls, done, later, start, moments, ops, cost, Budget(cost, less), mine);
    if !served {
      return done, longer, more;
    }
    end, all, allOps := ServeRest(k, calls, later, start, longer, more, cost, less, grown);
  }

  /* ---------- from the start ---------- */

  // What the tasks see after these calls is what the eager machine shows after them.
  ghost predicate ShowsEagerly(start: seq<EagerRefinement.Memory>, calls: seq<Call>, now: Cow) {
    && EagerRefinement.IsEagerRun(start, EagerCalls(calls))
    && EagerRefinement.Views(now) == EagerRefinement.EagerRun(start, EagerCalls(calls))
  }

  lemma ServedIsEager(moments: seq<Moment>, ops: seq<Op>, calls: seq<Call>, done: nat, start: Moment, now: Moment)
    requires IsServing(moments, ops, calls, done, start, now) && Inv(AbsAt(start))
    ensures ShowsEagerly(EagerRefinement.Views(AbsAt(start)), calls[..done], AbsAt(now))
    ensures now.view.kernel == start.view.kernel
  {
    ServingMeans(moments, ops, calls, done, start, now);
    KernelRunIsEagerRun(moments, ops);
    KernelPagesStay(moments, ops);
    ServedIsRun(moments, ops, calls, done, start, now);
  }

  // No step of a run changes the pages of the kernel's slot.
  lemma {:induction false} KernelPagesStay(moments: seq<Moment>, ops: seq<Op>)
    requires IsKernelRun(moments, ops)
    ensures moments[|ops|].view.kernel == moments[0].view.kernel
    decreases |ops|
  {
    if ops != [] {
      assert IsKernelStep(moments[0], moments[1], ops[0]);
      TailIsRun(moments, ops);
      KernelPagesStay(moments[1..], ops[1..]);
    }
  }

  // The machine at the start: one process, with this program
  ghost predicate IsFreshCow(c: Cow, areas: seq<Vma>, image: map<nat, Page>) {
    Inv(c) && |c.ring| == 1 && c.ring[0].areas == areas && EagerRefinement.Views(c) == [image]
  }

  // Exits and kills are safe wherever these calls lead from the start.
  ghost predicate ExitsStaySafe(areas: seq<Vma>, image: map<nat, Page>, calls: seq<Call>) {
    forall c | IsFreshCow(c, areas, image) :: ExitsAreSafe(c, calls)
  }

  lemma FreshMeans(m: Moment, areas: seq<Vma>, image: map<nat, Page>, calls: seq<Call>, cost: nat)
    requires IsFresh(m.ring, m.view, m.dead, areas, image) && ForkFrames(areas) <= cost
    requires ExitsStaySafe(areas, image, calls)
    ensures ForksAreAffordable(m.ring, cost) && Inv(AbsAt(m)) && EagerRefinement.Views(AbsAt(m)) == [image]
    ensures ExitsAreSafe(AbsAt(m), calls)
  {
    assert AbsAt(m).ring[0].areas == areas;
    assert IsFreshCow(AbsAt(m), areas, image);
  }

  // What stops the serving of calls, if it stops before their end
  ghost predicate IsStopped(m: Moment, calls: seq<Call>, done: nat) {
    done < |calls| ==>
      && IsRefused(m, calls[done])
      && (IsAtBorder(calls[done]) || IsRefusedEagerly(EagerRefinement.Views(AbsAt(m)), m.ring, calls[done]))
  }

  // The address is on the border of the stack, or the memory that the eager machine shows does not have its
  // page and no area begins there.
  ghost predicate IsOutOfReach(memory: EagerRefinement.Memory, areas: seq<Vma>, x: nat) {
    || PageStart(x) == 0xFFFF_FF7E_FFFF_5000
    || (PageOf(x) !in memory && forall i | 0 <= i < |areas| :: PageStart(areas[i].start) != PageStart(x))
  }

  lemma WhyStopped(m: Moment, calls: seq<Call>, done: nat)
    requires IsConsistent(m.ring, m.view, m.dead) && IsStopped(m, calls, done)
    ensures done < |calls| ==>
              var views, ring := EagerRefinement.Views(AbsAt(m)), m.ring;
              |views| == |ring| > 0 &&
              match calls[done]
              case ForkCall => false
              case TimerCall => false
              case ExecCall(_, _) => |ring| == 1
              case ExitCall => ring[0].pid == 1
              case KillCall(hops) => hops == 0 || hops >= |ring| || ring[hops].pid == 1
              case WriteCall(x, _) => IsOutOfReach(views[0], ring[0].areas, x)
              case AccessCall(x) => IsOutOfReach(views[0], ring[0].areas, x)
  {
  }

  lemma RefusedIsStopped(m: Moment, calls: seq<Call>, done: nat)
    requires IsConsistent(m.ring, m.view, m.dead) && (done < |calls| ==> IsRefused(m, calls[done]))
    ensures IsStopped(m, calls, done)
  {
    if done < |calls| && !IsAtBorder(calls[done]) {
      RefusedExactlyWhen(m, calls[done]);
    }
  }

  // From a fresh kernel, on any calls
  method ServeFromStart(k: Kernel, ghost areas: seq<Vma>, ghost image: map<nat, Page>, calls: seq<Call>,
                        ghost cost: nat, ghost mine: set<Task>)
    returns (done: nat)
    requires k.Valid() && AreAmong(k.queue.ring, k.queue.dead, mine)
    requires IsFresh(k.queue.ring, k.memory.View(), k.memory.state.dead, areas, image)
    requires cost >= 4 && ForkFrames(areas) <= cost && AreAffordable(calls, cost)
    requires |k.memory.state.free| >= Budget(cost, |calls|) && ExitsStaySafe(areas, image, calls)
    modifies k.memory`state, k.memory.frames, k.memory.bitmap.availFrames, k.queue, mine
    ensures k.Valid() && done <= |calls|
    ensures ShowsEagerly([image], calls[..done], AbsAt(MomentOf(k)))
    ensures MomentOf(k).view.kernel == old(MomentOf(k)).view.kernel
    ensures IsStopped(MomentOf(k), calls, done)
  {
    ghost var start := MomentOf(k);
    ghost var moments, ops;
    FreshMeans(start, areas, image, calls, cost);
    done, moments, ops := Serve(k, calls, cost);
    ServedIsEager(moments, ops, calls, done, start, MomentOf(k));
    RefusedIsStopped(MomentOf(k), calls, done);
  }

  // The start, with the tasks that it makes
  method StartWithTasks(frames: array<Frame>, ranges: seq<Range>, kernelEnd: nat, kernmem: nat, kernbase: nat,
                        areas: seq<Vma>, sections: seq<Section>, ghost reserve: nat)
    returns (kernel: Kernel, ghost mine: set<Task>)
    requires CanStart(frames.Length, ranges, LayoutOf(kernmem, kernbase, PhysEnd(ranges)), areas, sections)
    requires forall f | 0 <= f < frames.Length :: frames[f].Data?
    requires |UsableFrames(ranges, kernelEnd)| >=
               reserve + StartFrames(LayoutOf(kernmem, kernbase, PhysEnd(ranges)), areas, sections)
    modifies frames
    ensures fresh(kernel) && fresh(kernel.memory) && fresh(kernel.memory.bitmap.availFrames) && fresh(kernel.queue)
    ensures kernel.Valid() && kernel.memory.frames == frames && |kernel.memory.state.free| >= reserve
    ensures AreAmong(kernel.queue.ring, kernel.queue.dead, mine) && forall t | t in mine :: fresh(t)
    ensures IsFresh(kernel.queue.ring, kernel.memory.View(), kernel.memory.state.dead, areas, Loaded(sections))
    ensures kernel.memory.View().kernel == KernelPages(LayoutOf(kernmem, kernbase, PhysEnd(ranges)))
  {
    kernel := Start(frames, ranges, kernelEnd, kernmem, kernbase, areas, sections, reserve);
    mine := TasksOf(kernel.queue);
  }

  // The kernel from its start, on any calls: every process sees what it would see if fork copied every
  // page, and the kernel's own pages stay where the start has put them.
  method BootAndServe(frames: array<Frame>, ranges: seq<Range>, kernelEnd: nat, kernmem: nat, kernbase: nat,
                      areas: seq<Vma>, sections: seq<Section>, calls: seq<Call>, ghost cost: nat)
    returns (kernel: Kernel, done: nat)
    requires CanStart(frames.Length, ranges, LayoutOf(kernmem, kernbase, PhysEnd(ranges)), areas, sections)
    requires forall f | 0 <= f < frames.Length :: frames[f].Data?
    requires |UsableFrames(ranges, kernelEnd)| >=
               Budget(cost, |calls|) + StartFrames(LayoutOf(kernmem, kernbase, PhysEnd(ranges)), areas, sections)
    requires cost >= 4 && ForkFrames(areas) <= cost && AreAffordable(calls, cost)
    requires ExitsStaySafe(areas, Loaded(sections), calls)
    modifies frames
    ensures kernel.Valid() && done <= |calls|
    ensures ShowsEagerly([Loaded(sections)], calls[..done], AbsAt(MomentOf(kernel)))
    ensures MomentOf(kernel).view.kernel == KernelPages(LayoutOf(kernmem, kernbase, PhysEnd(ranges)))
    ensures IsStopped(MomentOf(kernel), calls, done)
    ensures done < |calls| ==>
              var views, ring := EagerRefinement.Views(AbsAt(MomentOf(kernel))), kernel.queue.ring;
              |views| == |ring| > 0 &&
              match calls[done]
              case ForkCall => false
              case TimerCall => false
              case ExecCall(_, _) => |ring| == 1
              case ExitCall => ring[0].pid == 1
              case KillCall(hops) => hops == 0 || hops >= |ring| || ring[hops].pid == 1
              case WriteCall(x, _) => IsOutOfReach(views[0], ring[0].areas, x)
              case AccessCall(x) => IsOutOfReach(views[0], ring[0].areas, x)
  {
    ghost var mine;
    kernel, mine :=
      StartWithTasks(frames, ranges, kernelEnd, kernmem, kernbase, areas, sections, Budget(cost, |calls|));
    done := ServeFromStart(kernel, areas, Loaded(sections), calls, cost, mine);
    WhyStopped(MomentOf(kernel), calls, done);
  }
}
