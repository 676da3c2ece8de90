/**
 * Who keeps a shared frame: once all of its k sharers have written to the page, k - 1 frames were
 * allocated, and the sharer that wrote last has the original.
 */
module LastWriter {
  import opened PageFormat
  import opened RingOps
  import opened CowMachine
  import opened EagerRefinement
  import opened CowAccounting

  // Where the task at position p of a ring of n is after an operation, and after a run
  function Moved(op: Op, n: nat, p: nat): (q: nat)
    requires p < n
    ensures q < n
  {
    if op.Switch? then (if p == 0 then n - 1 else p - 1) else p
  }

  function FinalPosition(ops: seq<Op>, n: nat, p: nat): (q: nat)
    requires p < n
    ensures q < n
  {
    if ops == [] then p else FinalPosition(ops[1..], n, Moved(ops[0], n, p))
  }

  // The number of operations before the one in which the task at position p first writes to page v;
  // |ops| if it does not.
  function FirstWrite(ops: seq<Op>, n: nat, p: nat, v: nat): (k: nat)
    requires p < n
    ensures k <= |ops|
  {
    if ops == [] || (p == 0 && Touches(ops[0], v)) then 0
    else 1 + FirstWrite(ops[1..], n, Moved(ops[0], n, p), v)
  }

  // It is the first time that the task runs and writes to the page, if there is one.
  lemma {:induction false} FirstWriteIsFirst(ops: seq<Op>, n: nat, p: nat, v: nat)
    requires p < n
    ensures var k := FirstWrite(ops, n, p, v);
            && (k < |ops| ==>
                 FinalPosition(ops[..k], n, p) == 0 && (ops[k].Fault? || ops[k].Write?) && ops[k].page == v)
            && forall j | 0 <= j < k ::
                 !(FinalPosition(ops[..j], n, p) == 0 && (ops[j].Fault? || ops[j].Write?) && ops[j].page == v)
  {
    var k := FirstWrite(ops, n, p, v);
    if ops != [] && !(p == 0 && Touches(ops[0], v)) {
      var rest, q := ops[1..], Moved(ops[0], n, p);
      FirstWriteIsFirst(rest, n, q, v);
      forall j | 0 < j <= |ops|
        ensures FinalPosition(ops[..j], n, p) == FinalPosition(rest[..j - 1], n, q)
      {
        assert ops[..j][1..] == rest[..j - 1];
      }
      forall j | 0 <= j < k
        ensures !(FinalPosition(ops[..j], n, p) == 0 && (ops[j].Fault? || ops[j].Write?) && ops[j].page == v)
      {
        if j == 0 {
          assert ops[..0] == [];
        } else {
          assert ops[j] == rest[j - 1];
        }
      }
    } else {
      assert ops[..0] == [];
    }
  }

  // Only one task runs at a time.
  lemma {:induction false} WriteTimesDiffer(ops: seq<Op>, n: nat, p: nat, q: nat, v: nat)
    requires p < n && q < n && p != q && FirstWrite(ops, n, p, v) < |ops|
    ensures FirstWrite(ops, n, p, v) != FirstWrite(ops, n, q, v)
    decreases |ops|
  {
    if !(p == 0 && Touches(ops[0], v)) && !(q == 0 && Touches(ops[0], v)) {
      WriteTimesDiffer(ops[1..], n, Moved(ops[0], n, p), Moved(ops[0], n, q), v);
    }
  }

  ghost predicate CanWrite(p: Proc, v: nat, f: nat) { HasPage(p, v, f) && p.space[v].writeable }

  /* ---------- one operation ---------- */

  lemma SwitchMoves(c: Cow, p: nat)
    requires Inv(c) && p < |c.ring|
    ensures Apply(c, Switch).ring[Moved(Switch, |c.ring|, p)] == c.ring[p]
  {
  }

  // The entries of page v after a write or a fault: only the running task's may change, and only if
  // that is the page.
  lemma WriteMoves(c: Cow, op: Op, p: nat, v: nat)
    requires Inv(c) && Enabled(c, op) && (op.Write? || op.Fault?) && p < |c.ring|
    ensures |Apply(c, op).ring| == |c.ring|
    ensures p > 0 ==> Apply(c, op).ring[p] == c.ring[p]
    ensures op.page != v ==> (v in Apply(c, op).ring[0].space <==> v in c.ring[0].space)
    ensures op.page != v && v in c.ring[0].space ==> Apply(c, op).ring[0].space[v] == c.ring[0].space[v]
  {
  }

  // A sharer that does not write now stays one, and no task becomes one.
  lemma SharersStay(c: Cow, op: Op, v: nat, f: nat, p: nat)
    requires Inv(c) && Enabled(c, op) && IsWriteOrSwitch(op) && p < |c.ring| && f in c.data
    requires !(p == 0 && Touches(op, v))
    ensures |Apply(c, op).ring| == |c.ring|
    ensures HasPage(Apply(c, op).ring[Moved(op, |c.ring|, p)], v, f) <==> HasPage(c.ring[p], v, f)
    ensures CanWrite(Apply(c, op).ring[Moved(op, |c.ring|, p)], v, f) <==> CanWrite(c.ring[p], v, f)
  {
    if op.Switch? {
      SwitchMoves(c, p);
    } else {
      WriteMoves(c, op, p, v);
    }
  }

  // The running task writes to a page that it shares, and takes a copy; or that it alone maps, and
  // keeps the frame.
  lemma WriterLeavesOrKeeps(c: Cow, op: Op, v: nat, f: nat)
    requires Inv(c) && Enabled(c, op) && Touches(op, v) && HasPage(c.ring[0], v, f) && f in c.data
    ensures |Apply(c, op).ring| == |c.ring|
    ensures ShareCount(c.ring, v, f) >= 2 ==> !HasPage(Apply(c, op).ring[0], v, f)
    ensures ShareCount(c.ring, v, f) == 1 ==> CanWrite(Apply(c, op).ring[0], v, f)
  {
    if !c.ring[0].space[v].writeable {
      FaultAccounting(c, v, op.spare);
    } else if ShareCount(c.ring, v, f) >= 2 {
      var j := AnotherSharer(c.ring, v, f, 0);
      assert Maps(c, 0, v, f) && Maps(c, j, v, f);
    }
  }

  /* ---------- runs ---------- */

  ghost predicate IsWritingRun(c: Cow, ops: seq<Op>) {
    Inv(c) && EagerRefinement.IsRun(c, ops) && forall i | 0 <= i < |ops| :: IsWriteOrSwitch(ops[i])
  }

  lemma RunGoesOn(c: Cow, ops: seq<Op>)
    requires IsWritingRun(c, ops) && ops != []
    ensures Enabled(c, ops[0]) && IsWriteOrSwitch(ops[0]) && IsWritingRun(Apply(c, ops[0]), ops[1..])
    ensures Run(c, ops) == Run(Apply(c, ops[0]), ops[1..])
  {
    StepRefines(c, ops[0]);
  }

  // The only task that maps a frame keeps it, and stays able to write.
  lemma {:induction false} LoneOwnerKeeps(c: Cow, ops: seq<Op>, v: nat, f: nat, w: nat)
    requires IsWritingRun(c, ops) && f in c.data && w < |c.ring|
    requires CanWrite(c.ring[w], v, f) && ShareCount(c.ring, v, f) == 1
    ensures |Run(c, ops).ring| == |c.ring|
    ensures CanWrite(Run(c, ops).ring[FinalPosition(ops, |c.ring|, w)], v, f)
    decreases |ops|
  {
    if ops != [] {
      var d := Apply(c, ops[0]);
      RunGoesOn(c, ops);
      StepAccounting(c, ops[0], v, f);
      if w == 0 && Touches(ops[0], v) {
        WriterLeavesOrKeeps(c, ops[0], v, f);
      } else {
        SharersStay(c, ops[0], v, f, w);
      }
      LoneOwnerKeeps(d, ops[1..], v, f, Moved(ops[0], |c.ring|, w));
    }
  }

  // All other sharers write before the task at position w first does.
  ghost predicate WritesLast(c: Cow, ops: seq<Op>, v: nat, f: nat, w: nat) {
    && w < |c.ring| && HasPage(c.ring[w], v, f) && FirstWrite(ops, |c.ring|, w, v) < |ops|
    && forall i: nat | i < |c.ring| && i != w && HasPage(c.ring[i], v, f) ::
         FirstWrite(ops, |c.ring|, i, v) < FirstWrite(ops, |c.ring|, w, v)
  }

  lemma {:induction false} NobodyCountsZero(ring: seq<Proc>, v: nat, f: nat)
    requires forall i: nat | i < |ring| :: !HasPage(ring[i], v, f)
    ensures ShareCount(ring, v, f) == 0
  {
    if ring != [] {
      NobodyCountsZero(ring[..|ring| - 1], v, f);
    }
  }

  lemma LastMeansAlone(c: Cow, ops: seq<Op>, v: nat, f: nat)
    requires Inv(c) && WritesLast(c, ops, v, f, 0) && ops != [] && Touches(ops[0], v)
    ensures ShareCount(c.ring, v, f) == 1
  {
    forall i: nat | i < |c.ring| && i != 0
      ensures !HasPage(c.ring[i], v, f)
    {
    }
    FirstCounts(c.ring, v, f);
    NobodyCountsZero(c.ring[1..], v, f);
  }

  lemma LastStaysLast(c: Cow, ops: seq<Op>, v: nat, f: nat, w: nat)
    requires IsWritingRun(c, ops) && f in c.data && ops != [] && WritesLast(c, ops, v, f, w)
    requires !(w == 0 && Touches(ops[0], v))
    ensures WritesLast(Apply(c, ops[0]), ops[1..], v, f, Moved(ops[0], |c.ring|, w))
  {
    var d, n, u := Apply(c, ops[0]), |c.ring|, Moved(ops[0], |c.ring|, w);
    RunGoesOn(c, ops);
    SharersStay(c, ops[0], v, f, w);
    forall i: nat | i < n && i != u && HasPage(d.ring[i], v, f)
      ensures FirstWrite(ops[1..], n, i, v) < FirstWrite(ops[1..], n, u, v)
    {
      var b := if ops[0].Switch? then (if i == n - 1 then 0 else i + 1) else i;
      assert Moved(ops[0], n, b) == i && b != w;
      if b == 0 && Touches(ops[0], v) {
        OtherSharer(c, ops[0], v, f, w);
      } else {
        SharersStay(c, ops[0], v, f, b);
      }
    }
  }

  // The running task, writing to a page while another one shares its frame, does not have it afterwards.
  lemma OtherSharer(c: Cow, op: Op, v: nat, f: nat, w: nat)
    requires Inv(c) && Enabled(c, op) && Touches(op, v) && f in c.data && 0 < w < |c.ring| && HasPage(c.ring[w], v, f)
    ensures |Apply(c, op).ring| == |c.ring| && !HasPage(Apply(c, op).ring[0], v, f)
  {
    if HasPage(c.ring[0], v, f) {
      CountsTheSharers(c.ring, v, f, 0, w);
      WriterLeavesOrKeeps(c, op, v, f);
    }
  }

  lemma {:induction false} LastWriterKeeps(c: Cow, ops: seq<Op>, v: nat, f: nat, w: nat)
    requires IsWritingRun(c, ops) && f in c.data && WritesLast(c, ops, v, f, w)
    ensures |Run(c, ops).ring| == |c.ring| && ShareCount(Run(c, ops).ring, v, f) == 1
    ensures CanWrite(Run(c, ops).ring[FinalPosition(ops, |c.ring|, w)], v, f)
    decreases |ops|
  {
    var d := Apply(c, ops[0]);
    RunGoesOn(c, ops);
    StepAccounting(c, ops[0], v, f);
    if w == 0 && Touches(ops[0], v) {
      LastMeansAlone(c, ops, v, f);
      WriterLeavesOrKeeps(c, ops[0], v, f);
      LoneOwnerKeeps(d, ops[1..], v, f, 0);
      RunAccounting(d, ops[1..], v, f);
    } else {
      LastStaysLast(c, ops, v, f, w);
      SharersStay(c, ops[0], v, f, w);
      LastWriterKeeps(d, ops[1..], v, f, Moved(ops[0], |c.ring|, w));
    }
  }

  // Among the first m positions, the sharer that writes last
  lemma {:induction false} LatestAmong(c: Cow, ops: seq<Op>, v: nat, f: nat, m: nat) returns (w: nat)
    requires m <= |c.ring| && exists i: nat :: i < m && HasPage(c.ring[i], v, f)
    requires forall i: nat | i < |c.ring| && HasPage(c.ring[i], v, f) :: FirstWrite(ops, |c.ring|, i, v) < |ops|
    ensures w < m && HasPage(c.ring[w], v, f)
    ensures forall i: nat | i < m && i != w && HasPage(c.ring[i], v, f) ::
              FirstWrite(ops, |c.ring|, i, v) < FirstWrite(ops, |c.ring|, w, v)
  {
    var last: nat := m - 1;
    if i: nat :| i < last && HasPage(c.ring[i], v, f) {
      w := LatestAmong(c, ops, v, f, last);
      if HasPage(c.ring[last], v, f) {
        WriteTimesDiffer(ops, |c.ring|, last, w, v);
        if FirstWrite(ops, |c.ring|, w, v) < FirstWrite(ops, |c.ring|, last, v) {
          w := last;
        }
      }
    } else {
      w := last;
    }
  }

  // Once all k sharers of a frame have written to the page, exactly k - 1 copies of it were made, and
  // the sharer that was last to write has the original, and may write to it.
  lemma AllWritersButOneCopy(c: Cow, ops: seq<Op>, v: nat, f: nat) returns (w: nat)
    requires IsWritingRun(c, ops) && f in c.data && ShareCount(c.ring, v, f) > 0
    requires forall i: nat | i < |c.ring| && HasPage(c.ring[i], v, f) :: FirstWrite(ops, |c.ring|, i, v) < |ops|
    ensures CopyCount(c, ops, v, f) == ShareCount(c.ring, v, f) - 1
    ensures WritesLast(c, ops, v, f, w)
    ensures |Run(c, ops).ring| == |c.ring| && ShareCount(Run(c, ops).ring, v, f) == 1
    ensures CanWrite(Run(c, ops).ring[FinalPosition(ops, |c.ring|, w)], v, f)
  {
    var i := SomeSharer(c.ring, v, f);
    w := LatestAmong(c, ops, v, f, |c.ring|);
    LastWriterKeeps(c, ops, v, f, w);
    RunAccounting(c, ops, v, f);
  }
}
