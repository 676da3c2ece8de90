/**
 * Bounded waiting in the run ring: how the ring operations move a task towards the front, and that
 * over every run a task that stays in the ring is reached within its distance plus the forks.
 */
module RingFairness {
  import opened RingOps

  datatype RingOp<T> =
    | Add(child: T)      // fork
    | Turn               // a context switch
    | Replace(heir: T)   // exec
    | Drop(index: nat)   // exit (0) and kill

  ghost predicate IsEnabled<T(!new)>(r: seq<T>, op: RingOp<T>) {
    match op
    case Add(child) => child !in r
    case Turn => true
    case Replace(heir) => heir !in r
    case Drop(k) => k < |r| && |r| > 1
  }

  ghost function After<T(!new)>(r: seq<T>, op: RingOp<T>): seq<T>
    requires |r| > 0 && IsEnabled(r, op)
  {
    match op
    case Add(child) => AddAfterRunning(r, child)
    case Turn => Advance(r)
    case Replace(heir) => ReplaceRunning(r, heir)
    case Drop(k) => DropAt(r, k)
  }

  lemma AfterIsDistinct<T(!new)>(r: seq<T>, op: RingOp<T>)
    requires |r| > 0 && AreDistinct(r) && IsEnabled(r, op)
    ensures |After(r, op)| > 0 && AreDistinct(After(r, op))
  {
  }

  // How many hops along `next` lead from the running task to task t.
  ghost function Distance<T(!new)>(r: seq<T>, t: T): (d: nat)
    requires t in r
    ensures d < |r| && r[d] == t
    ensures forall i | 0 <= i < d :: r[i] != t
  {
    if r[0] == t then 0 else 1 + Distance(r[1..], t)
  }

  lemma DistanceIs<T(!new)>(r: seq<T>, t: T, d: nat)
    requires AreDistinct(r) && d < |r| && r[d] == t
    ensures Distance(r, t) == d
  {
  }

  predicate IsHop<T>(op: RingOp<T>) { op.Turn? || (op.Drop? && op.index == 0) }

  lemma DropMoves<T(!new)>(r: seq<T>, k: nat, d: nat)
    requires AreDistinct(r) && |r| > 1 && k < |r| && 0 < d < |r| && r[d] in DropAt(r, k)
    ensures k != d
    ensures Distance(DropAt(r, k), r[d]) == if k < d then d - 1 else d
  {
    var after, t := DropAt(r, k), r[d];
    assert k != d;
    AfterIsDistinct(r, Drop(k));
    DistanceIs(after, t, if k < d then d - 1 else d);
  }

  // A waiting task is one hop closer after a switch or an exit, one further after a fork, and never
  // further after exec or kill.
  lemma WaitingTaskMoves<T(!new)>(r: seq<T>, op: RingOp<T>, t: T)
    requires |r| > 0 && AreDistinct(r) && IsEnabled(r, op)
    requires t in r && t != r[0] && t in After(r, op)
    ensures Distance(After(r, op), t) == Moved(op, Distance(r, t))
    ensures Distance(After(r, op), t) ==
              if op.Add? then Distance(r, t) + 1
              else if op.Turn? || (op.Drop? && op.index < Distance(r, t)) then Distance(r, t) - 1
              else Distance(r, t)
  {
    var d := Distance(r, t);
    AfterIsDistinct(r, op);
    match op
    case Add(child) =>
      AddedAt(r, child, d + 1);
      DistanceIs(AddAfterRunning(r, child), t, d + 1);
    case Turn => DistanceIs(Advance(r), t, d - 1);
    case Replace(heir) => DistanceIs(ReplaceRunning(r, heir), t, d);
    case Drop(k) => DropMoves(r, k, d);
  }

  ghost function Moved<T>(op: RingOp<T>, d: nat): int {
    match op
    case Add(_) => d + 1
    case Turn => d - 1
    case Replace(_) => d
    case Drop(k) => if k < d then d - 1 else d
  }

  lemma WaitingTaskComesCloser<T(!new)>(r: seq<T>, op: RingOp<T>, t: T)
    requires |r| > 0 && AreDistinct(r) && IsEnabled(r, op)
    requires t in r && t != r[0] && t in After(r, op)
    ensures |After(r, op)| > 0 && AreDistinct(After(r, op))
    ensures Distance(After(r, op), t) + (if IsHop(op) then 1 else 0) <= Distance(r, t) + (if op.Add? then 1 else 0)
    ensures op.Add? || op.Turn? ==> Distance(After(r, op), t) + (if IsHop(op) then 1 else 0) >= Distance(r, t)
  {
    AfterIsDistinct(r, op);
    WaitingTaskMoves(r, op, t);
  }

  /* ---------- runs ---------- */

  ghost predicate IsRun<T(!new)>(r: seq<T>, ops: seq<RingOp<T>>)
    decreases |ops|
  {
    ops == [] || (|r| > 0 && IsEnabled(r, ops[0]) && IsRun(After(r, ops[0]), ops[1..]))
  }

  ghost function Run<T(!new)>(r: seq<T>, ops: seq<RingOp<T>>): seq<T>
    requires IsRun(r, ops)
    decreases |ops|
  {
    if ops == [] then r else Run(After(r, ops[0]), ops[1..])
  }

  // Task t is in the ring all the time.
  ghost predicate Survives<T(!new)>(r: seq<T>, ops: seq<RingOp<T>>, t: T)
    requires IsRun(r, ops)
    decreases |ops|
  {
    t in r && (ops == [] || Survives(After(r, ops[0]), ops[1..], t))
  }

  // Task t runs at some time.
  ghost predicate GetsToRun<T(!new)>(r: seq<T>, ops: seq<RingOp<T>>, t: T)
    requires IsRun(r, ops)
    decreases |ops|
  {
    (|r| > 0 && r[0] == t) || (ops != [] && GetsToRun(After(r, ops[0]), ops[1..], t))
  }

  lemma {:induction false} GetsToRunMeans<T(!new)>(r: seq<T>, ops: seq<RingOp<T>>, t: T)
    requires IsRun(r, ops) && GetsToRun(r, ops, t)
    ensures exists n :: 0 <= n <= |ops| && IsRun(r, ops[..n]) && |Run(r, ops[..n])| > 0 && Run(r, ops[..n])[0] == t
    decreases |ops|
  {
    if |r| > 0 && r[0] == t {
      assert ops[..0] == [];
      assert Run(r, ops[..0])[0] == t;
    } else {
      GetsToRunMeans(After(r, ops[0]), ops[1..], t);
      var n :| 0 <= n <= |ops[1..]| && IsRun(After(r, ops[0]), ops[1..][..n])
        && |Run(After(r, ops[0]), ops[1..][..n])| > 0 && Run(After(r, ops[0]), ops[1..][..n])[0] == t;
      var m := n + 1;
      assert ops[..m][0] == ops[0] && ops[..m][1..] == ops[1..][..n];
      assert Run(r, ops[..m])[0] == t;
    }
  }

  ghost function Hops<T>(ops: seq<RingOp<T>>): nat {
    if ops == [] then 0 else (if IsHop(ops[0]) then 1 else 0) + Hops(ops[1..])
  }

  ghost function Forks<T>(ops: seq<RingOp<T>>): nat {
    if ops == [] then 0 else (if ops[0].Add? then 1 else 0) + Forks(ops[1..])
  }

  // Bounded waiting: enough switches and exits to cover the distance and the forks reach the task.
  lemma {:induction false} BoundedWaiting<T(!new)>(r: seq<T>, ops: seq<RingOp<T>>, t: T)
    requires |r| > 0 && AreDistinct(r) && IsRun(r, ops) && Survives(r, ops, t)
    requires Hops(ops) >= Distance(r, t) + Forks(ops)
    ensures GetsToRun(r, ops, t)
    decreases |ops|
  {
    if r[0] != t {
      WaitingTaskComesCloser(r, ops[0], t);
      BoundedWaiting(After(r, ops[0]), ops[1..], t);
    }
  }

  // Where tasks only fork and switch, no task runs before its distance is used up.
  lemma {:induction false} NotBeforeItsTurn<T(!new)>(r: seq<T>, ops: seq<RingOp<T>>, t: T)
    requires |r| > 0 && AreDistinct(r) && IsRun(r, ops) && Survives(r, ops, t)
    requires forall i | 0 <= i < |ops| :: ops[i].Add? || ops[i].Turn?
    requires Hops(ops) < Distance(r, t)
    ensures !GetsToRun(r, ops, t)
    decreases |ops|
  {
    if ops != [] {
      WaitingTaskComesCloser(r, ops[0], t);
      NotBeforeItsTurn(After(r, ops[0]), ops[1..], t);
    }
  }
}
