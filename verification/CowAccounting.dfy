/**
 * How many frames copy-on-write allocates and gives back, and a place where the source's promise fails.
 */
module CowAccounting {
  import opened PageFormat
  import opened RingOps
  import opened Vmas
  import opened CowMachine
  import opened EagerRefinement

  lemma {:induction false} ShareCountAppends(a: seq<Proc>, b: seq<Proc>, v: nat, f: nat)
    ensures ShareCount(a + b, v, f) == ShareCount(a, v, f) + ShareCount(b, v, f)
  {
    if b == [] {
      assert a + b == a;
    } else {
      ShareCountAppends(a, b[..|b| - 1], v, f);
      assert (a + b)[..|a + b| - 1] == a + b[..|b| - 1];
    }
  }

  lemma FirstCounts(ring: seq<Proc>, v: nat, f: nat)
    requires |ring| > 0
    ensures ShareCount(ring, v, f) == ShareCount(ring[1..], v, f) + if HasPage(ring[0], v, f) then 1 else 0
  {
    assert ring == [ring[0]] + ring[1..];
    assert [ring[0]][..0] == [];
    ShareCountAppends([ring[0]], ring[1..], v, f);
  }

  // The count of sharers is the number of tasks that map the frame at the page.
  lemma {:induction false} ShareCountIsNumber(ring: seq<Proc>, v: nat, f: nat, sharers: set<nat>)
    requires forall i: nat :: i in sharers <==> i < |ring| && v in ring[i].space && ring[i].space[v].frame == f
    ensures ShareCount(ring, v, f) == |sharers|
  {
    if ring == [] {
      assert sharers == {};
    } else {
      var n := |ring| - 1;
      ShareCountIsNumber(ring[..n], v, f, sharers - {n});
      assert n in sharers ==> sharers == sharers - {n} + {n};
    }
  }

  // A write fault with k sharers allocates a frame exactly when k >= 2, and leaves k - 1 of them
  // on the old frame; the faulting task may then write.
  lemma FaultAccounting(c: Cow, v: nat, spare: nat)
    requires Inv(c) && spare !in c.data
    requires v in c.ring[0].space && !c.ring[0].space[v].writeable
    ensures var f := c.ring[0].space[v].frame;
            var k := ShareCount(c.ring, v, f);
            var d := Touch(c, v, spare);
            && k >= 1
            && d.data.Keys == (if k >= 2 then c.data.Keys + {spare} else c.data.Keys)
            && ShareCount(d.ring, v, f) == (if k >= 2 then k - 1 else 1)
            && d.ring[0].space[v].writeable
            && (d.ring[0].space[v].frame == f <==> k == 1)
  {
    var f := c.ring[0].space[v].frame;
    var d := Touch(c, v, spare);
    assert Maps(c, 0, v, f);
    CountsTheSharers(c.ring, v, f, 0, 0);
    FirstCounts(c.ring, v, f);
    FirstCounts(d.ring, v, f);
    assert d.ring[1..] == c.ring[1..];
  }

  predicate IsWriteOrSwitch(op: Op) { op.Fault? || op.Write? || op.Switch? }

  // A user write to page v reaches the fault handler, whether or not the store follows at once.
  predicate Touches(op: Op, v: nat) { (op.Fault? || op.Write?) && op.page == v }

  // Does the operation copy frame f away for page v?
  ghost predicate CopiesFrame(c: Cow, op: Op, v: nat, f: nat)
    requires |c.ring| > 0
  {
    && Touches(op, v) && HasPage(c.ring[0], v, f)
    && !c.ring[0].space[v].writeable && ShareCount(c.ring, v, f) >= 2
  }

  lemma StepAccounting(c: Cow, op: Op, v: nat, f: nat)
    requires Inv(c) && Enabled(c, op) && IsWriteOrSwitch(op) && f in c.data
    ensures f in Apply(c, op).data
    ensures ShareCount(Apply(c, op).ring, v, f) + (if CopiesFrame(c, op, v, f) then 1 else 0) ==
              ShareCount(c.ring, v, f)
  {
    if op.Switch? {
      FirstCounts(c.ring, v, f);
      ShareCountAppends(c.ring[1..], [c.ring[0]], v, f);
      assert [c.ring[0]][..0] == [];
    } else {
      WriteAccounting(c, op, v, f);
    }
  }

  lemma WriteAccounting(c: Cow, op: Op, v: nat, f: nat)
    requires Inv(c) && Enabled(c, op) && (op.Fault? || op.Write?) && f in c.data
    ensures f in Apply(c, op).data
    ensures ShareCount(Apply(c, op).ring, v, f) + (if CopiesFrame(c, op, v, f) then 1 else 0) ==
              ShareCount(c.ring, v, f)
  {
    var d := Apply(c, op);
    FirstCounts(c.ring, v, f);
    FirstCounts(d.ring, v, f);
    assert d.ring[1..] == c.ring[1..];
    if HasPage(c.ring[0], v, f) && Touches(op, v) && !c.ring[0].space[v].writeable {
      FaultAccounting(c, v, op.spare);
    }
  }

  // The number of copies of frame f made during a run.
  ghost function CopyCount(c: Cow, ops: seq<Op>, v: nat, f: nat): nat
    requires Inv(c) && EagerRefinement.IsRun(c, ops)
    decreases |ops|
  {
    if ops == [] then 0
    else
      StepRefines(c, ops[0]);
      (if CopiesFrame(c, ops[0], v, f) then 1 else 0) + CopyCount(Apply(c, ops[0]), ops[1..], v, f)
  }

  lemma {:induction false} RunAccounting(c: Cow, ops: seq<Op>, v: nat, f: nat)
    requires Inv(c) && EagerRefinement.IsRun(c, ops) && f in c.data
    requires forall i | 0 <= i < |ops| :: IsWriteOrSwitch(ops[i])
    ensures ShareCount(Run(c, ops).ring, v, f) + CopyCount(c, ops, v, f) == ShareCount(c.ring, v, f)
    ensures ShareCount(c.ring, v, f) > 0 ==> ShareCount(Run(c, ops).ring, v, f) > 0
    decreases |ops|
  {
    if ops != [] {
      StepRefines(c, ops[0]);
      StepAccounting(c, ops[0], v, f);
      RunAccounting(Apply(c, ops[0]), ops[1..], v, f);
    }
  }

  lemma {:induction false} SomeSharer(ring: seq<Proc>, v: nat, f: nat) returns (i: nat)
    requires ShareCount(ring, v, f) > 0
    ensures i < |ring| && HasPage(ring[i], v, f)
  {
    var n := |ring| - 1;
    if HasPage(ring[n], v, f) { i := n; } else { i := SomeSharer(ring[..n], v, f); }
  }

  lemma {:induction false} AnotherSharer(ring: seq<Proc>, v: nat, f: nat, i: nat) returns (j: nat)
    requires ShareCount(ring, v, f) >= 2 && i < |ring| && HasPage(ring[i], v, f)
    ensures j < |ring| && j != i && HasPage(ring[j], v, f)
  {
    var n := |ring| - 1;
    if i == n { j := SomeSharer(ring[..n], v, f); }
    else if HasPage(ring[n], v, f) { j := n; }
    else { j := AnotherSharer(ring[..n], v, f, i); }
  }

  /* ---------- the end of a task ---------- */

  // A parent and its child that still share a page: when the child exits, the parent's frame
  // is given back.
  lemma ExitFreesSharedFrame()
    ensures var p := Proc([Vma(0x40_0000, 0x40_1000)], map[0x400 := Entry(7, true, false, true)]);
            var c := Cow([p, p], map[7 := ZeroPage()]);
            && Inv(c)
            && Maps(Teardown(c, 0), 0, 0x400, 7)
            && 7 !in Teardown(c, 0).data
  {
    var p := Proc([Vma(0x40_0000, 0x40_1000)], map[0x400 := Entry(7, true, false, true)]);
    var c := Cow([p, p], map[7 := ZeroPage()]);
    assert StepsFrom(0x40_1000, 0x40_1000) == {};
    assert SharedPages(p.areas[..0]) == {};
    assert PageOf(0x40_0000) == 0x400;
    assert 0x400 in VisitedPages(p.areas);
    assert !HasIdentitySharer(c, 0, 7) by { assert PageOf(PageAddress(7)) == 7; }
    assert c.ring[0].space[0x400].frame == 7;
    assert 7 in Freed(c, 0);
  }

  // The end of a task that shares nothing gives back exactly the frames that it maps, and takes none
  // from a survivor.
  lemma UnsharedTeardownIsExact(c: Cow, i: nat)
    requires Inv(c) && i < |c.ring| && |c.ring| > 1
    requires forall v, j: nat, w, f :: Maps(c, i, v, f) && Maps(c, j, w, f) ==> j == i
    ensures SharesOnlyIdentityPages(c, i)
    ensures Freed(c, i) == set v | v in c.ring[i].space :: c.ring[i].space[v].frame
    ensures forall j: nat, v, f :: j != i && Maps(c, j, v, f) ==> f in Teardown(c, i).data
  {
    forall v | v in c.ring[i].space
      ensures v in VisitedPages(c.ring[i].areas) && !HasIdentitySharer(c, i, c.ring[i].space[v].frame)
    {
      assert Maps(c, i, v, c.ring[i].space[v].frame);
    }
    forall j: nat, v, f | j != i && Maps(c, j, v, f)
      ensures f in c.data && f !in Freed(c, i)
    {
      if f in Freed(c, i) {
        var w :| w in c.ring[i].space && c.ring[i].space[w].frame == f;
        assert Maps(c, i, w, f);
      }
    }
  }
}
