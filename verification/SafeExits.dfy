/**
 * Which exits and kills are safe, from the list of calls alone.  The child of a fork belongs to its
 * parent's family, and exec founds a new one.  Only members of a family share frames, so the last
 * member of a family may end.
 */
module SafeExits {
  import opened PageFormat
  import opened RingOps
  import opened Vmas
  import opened CowMachine
  import opened EagerRefinement
  import opened Execs
  import opened KernelCalls
  import opened KernelRuns

  // The families of the tasks in the order of the run ring, and a number for the next one
  datatype Families = Families(ring: seq<nat>, next: nat)

  // Tasks that share a frame are of one family.
  ghost predicate AreFamilies(c: Cow, s: Families) {
    && |s.ring| == |c.ring|
    && (forall i | 0 <= i < |s.ring| :: s.ring[i] < s.next)
    && forall i: nat, j: nat, v, f :: Maps(c, i, v, f) && Maps(c, j, v, f) ==> s.ring[i] == s.ring[j]
  }

  function FamiliesAfter(s: Families, op: EagerOp): Families {
    if s.ring == [] then s else
      match op
      case EagerFork => s.(ring := AddAfterRunning(s.ring, s.ring[0]))
      case EagerSwitch => s.(ring := Advance(s.ring))
      case EagerExec(_) => Families(ReplaceRunning(s.ring, s.next), s.next + 1)
      case EagerDrop(k) => if k < |s.ring| then s.(ring := DropAt(s.ring, k)) else s
      case _ => s
  }

  predicate IsLastOfFamily(s: Families, k: nat) {
    k < |s.ring| ==> forall j | 0 <= j < |s.ring| && j != k :: s.ring[j] != s.ring[k]
  }

  // The last of its family shares nothing.
  lemma LastOfFamilyMayEnd(c: Cow, s: Families, k: nat)
    requires AreFamilies(c, s) && IsLastOfFamily(s, k)
    ensures SharesOnlyIdentityPages(c, k)
  {
  }

  /* ---------- the families of one step ---------- */

  lemma FamiliesAfterFork(c: Cow, s: Families, copies: map<nat, nat>, added: map<nat, Page>)
    requires Inv(c) && AreFamilies(c, s) && IsForkPlan(c, c.ring[0], copies, added)
    ensures AreFamilies(ForkStep(c, copies, added), FamiliesAfter(s, EagerFork))
  {
    var d, t := ForkStep(c, copies, added), FamiliesAfter(s, EagerFork);
    forall i: nat, j: nat, v, f | Maps(d, i, v, f) && Maps(d, j, v, f)
      ensures t.ring[i] == t.ring[j]
    {
      AddedAt(s.ring, s.ring[0], i);
      AddedAt(s.ring, s.ring[0], j);
      ForkedEntry(c, copies, added, i, v, f);
      ForkedEntry(c, copies, added, j, v, f);
    }
  }

  // Every frame of d was mapped at that page by the same task, or it is a new frame of the running one.
  ghost predicate OnlyRunningTaskGrew(c: Cow, d: Cow) {
    && |d.ring| == |c.ring|
    && forall i: nat, v, f :: Maps(d, i, v, f) ==> Maps(c, i, v, f) || (i == 0 && f !in c.data)
  }

  lemma FamiliesStay(c: Cow, d: Cow, s: Families)
    requires EntriesAreUserEntries(c) && AreFamilies(c, s) && OnlyRunningTaskGrew(c, d)
    ensures AreFamilies(d, s)
  {
    forall i: nat, j: nat, v, f | Maps(d, i, v, f) && Maps(d, j, v, f)
      ensures s.ring[i] == s.ring[j]
    {
      assert Maps(c, i, v, f) ==> f in c.data;
      assert Maps(c, j, v, f) ==> f in c.data;
    }
  }

  lemma TouchOnlyGrows(c: Cow, v: nat, spare: nat)
    requires Inv(c) && spare !in c.data
    ensures OnlyRunningTaskGrew(c, Touch(c, v, spare))
  {
  }

  lemma FamiliesAfterExec(c: Cow, s: Families, p: Proc, image: map<nat, Page>)
    requires Inv(c) && AreFamilies(c, s) && ImageIsPrivate(c, p, image)
    ensures AreFamilies(Apply(c, Exec(p, image)), FamiliesAfter(s, EagerExec(View(p, image))))
  {
    var d, t := Apply(c, Exec(p, image)), FamiliesAfter(s, EagerExec(View(p, image)));
    forall i: nat, j: nat, v, f | Maps(d, i, v, f) && Maps(d, j, v, f)
      ensures t.ring[i] == t.ring[j]
    {
      SharersAfterExec(c, s, p, image, i, j, v, f);
    }
  }

  lemma SharersAfterExec(c: Cow, s: Families, p: Proc, image: map<nat, Page>, i: nat, j: nat, v: nat, f: nat)
    requires Inv(c) && AreFamilies(c, s) && ImageIsPrivate(c, p, image)
    requires Maps(Apply(c, Exec(p, image)), i, v, f) && Maps(Apply(c, Exec(p, image)), j, v, f)
    ensures var t := ReplaceRunning(s.ring, s.next); i < |t| && j < |t| && t[i] == t[j]
  {
    var was := OldOrImage(c, s, p, image, i, v, f);
    var other := OldOrImage(c, s, p, image, j, v, f);
    if i != 0 && j != 0 {
      assert s.ring[was] == s.ring[other];
    }
  }

  // Whose a frame was before exec, if it is not of the new program
  lemma OldOrImage(c: Cow, s: Families, p: Proc, image: map<nat, Page>, i: nat, v: nat, f: nat) returns (was: nat)
    requires Inv(c) && ImageIsPrivate(c, p, image) && Maps(Apply(c, Exec(p, image)), i, v, f)
    requires |s.ring| == |c.ring|
    ensures i < |ReplaceRunning(s.ring, s.next)|
    ensures if i == 0 then f !in c.data
            else f in c.data && Maps(c, was, v, f) && ReplaceRunning(s.ring, s.next)[i] == s.ring[was]
  {
    was := if |c.ring| == 1 then 0 else i;
    if i == 0 {
      assert f in image;
    } else {
      assert Maps(c, was, v, f);
    }
  }

  // The ring has lost or moved members, and families move along.
  lemma FamiliesMove(c: Cow, d: Cow, s: Families, t: Families, from: seq<nat>)
    requires AreFamilies(c, s) && |d.ring| == |t.ring| == |from| && t.next == s.next
    requires forall i | 0 <= i < |from| ::
               from[i] < |c.ring| && d.ring[i] == c.ring[from[i]] && t.ring[i] == s.ring[from[i]]
    ensures AreFamilies(d, t)
  {
    forall i: nat, j: nat, v, f | Maps(d, i, v, f) && Maps(d, j, v, f)
      ensures t.ring[i] == t.ring[j]
    {
      assert Maps(c, from[i], v, f) && Maps(c, from[j], v, f);
    }
  }

  lemma FamiliesAfterSwitch(c: Cow, s: Families)
    requires Inv(c) && AreFamilies(c, s)
    ensures AreFamilies(Apply(c, Switch), FamiliesAfter(s, EagerSwitch))
  {
    var n := |c.ring|;
    var from := seq(n, i requires 0 <= i < n => if i == n - 1 then 0 else i + 1);
    FamiliesMove(c, Apply(c, Switch), s, FamiliesAfter(s, EagerSwitch), from);
  }

  lemma FamiliesAfterDrop(c: Cow, s: Families, k: nat)
    requires AreFamilies(c, s) && k < |c.ring| && |c.ring| > 1
    ensures AreFamilies(Teardown(c, k), FamiliesAfter(s, EagerDrop(k)))
  {
    FamiliesMove(c, Teardown(c, k), s, FamiliesAfter(s, EagerDrop(k)), Survivors(c, k));
  }

  lemma FamiliesOfStep(c: Cow, s: Families, op: Op)
    requires Inv(c) && AreFamilies(c, s) && Enabled(c, op)
    ensures AreFamilies(Apply(c, op), FamiliesAfter(s, Erase(op)))
  {
    match op
    case Fork(copies, added) => FamiliesAfterFork(c, s, copies, added);
    case Fault(v, spare) =>
      TouchOnlyGrows(c, v, spare);
      FamiliesStay(c, Touch(c, v, spare), s);
    case Write(v, offset, value, spare) =>
      TouchOnlyGrows(c, v, spare);
      TouchMakesWriteable(c, v, spare);
      assert Apply(c, op).ring == Touch(c, v, spare).ring;
      FamiliesStay(c, Apply(c, op), s);
    case Switch => FamiliesAfterSwitch(c, s);
    case Exec(p, image) => FamiliesAfterExec(c, s, p, image);
    case Exit => FamiliesAfterDrop(c, s, 0);
    case Kill(k) => FamiliesAfterDrop(c, s, k);
    case Malloc(_) => FamiliesStay(c, Apply(c, op), s);
    case MapPage(_, _, _) => FamiliesStay(c, Apply(c, op), s);
  }

  /* ---------- lists of calls ---------- */

  // Whoever ends in these calls is the last of its family at that time.
  ghost predicate EndsAreLast(s: Families, calls: seq<Call>)
    decreases |calls|
  {
    calls == [] ||
    (&& (calls[0].ExitCall? ==> IsLastOfFamily(s, 0))
     && (calls[0].KillCall? ==> IsLastOfFamily(s, calls[0].hops))
     && EndsAreLast(FamiliesAfter(s, EagerCall(calls[0])), calls[1..]))
  }

  lemma {:induction false} EndIsSafe(c: Cow, s: Families, calls: seq<Call>, ops: seq<Op>, n: nat)
    requires Inv(c) && AreFamilies(c, s) && EndsAreLast(s, calls)
    requires n < |calls| && IsRun(c, ops) && EraseAll(ops) == EagerCalls(calls[..n])
    ensures Inv(Run(c, ops)) && IsSafe(Run(c, ops), calls[n])
    decreases n
  {
    CallsOfTail(ops, calls, n);
    if n == 0 {
      LastIsSafe(c, s, calls[0]);
    } else {
      StepRefines(c, ops[0]);
      FamiliesOfStep(c, s, ops[0]);
      EndIsSafe(Apply(c, ops[0]), FamiliesAfter(s, Erase(ops[0])), calls[1..], ops[1..], n - 1);
    }
  }

  lemma CallsOfTail(ops: seq<Op>, calls: seq<Call>, n: nat)
    requires n < |calls| && EraseAll(ops) == EagerCalls(calls[..n])
    ensures |ops| == n
    ensures n > 0 ==>
              && Erase(ops[0]) == EagerCall(calls[0]) && calls[1..][n - 1] == calls[n]
              && EraseAll(ops[1..]) == EagerCalls(calls[1..][..n - 1])
  {
    assert |ops| == |EraseAll(ops)| == |calls[..n]| == n;
    if n > 0 {
      assert Erase(ops[0]) == EraseAll(ops)[0] == EagerCalls(calls[..n])[0];
      forall i | 0 <= i < n - 1
        ensures EraseAll(ops[1..])[i] == EagerCalls(calls[1..][..n - 1])[i]
      {
        assert EraseAll(ops)[i + 1] == EagerCalls(calls[..n])[i + 1];
      }
    }
  }

  lemma LastIsSafe(c: Cow, s: Families, call: Call)
    requires AreFamilies(c, s)
    requires call.ExitCall? ==> IsLastOfFamily(s, 0)
    requires call.KillCall? ==> IsLastOfFamily(s, call.hops)
    ensures IsSafe(c, call)
  {
    match call
    case ExitCall => LastOfFamilyMayEnd(c, s, 0);
    case KillCall(hops) => LastOfFamilyMayEnd(c, s, hops);
    case _ =>
  }

  // From the start of the kernel on: where only last members of families end, all exits and kills are
  // safe, whatever the program and its successors are.
  lemma LastMembersEndSafely(areas: seq<Vma>, image: map<nat, Page>, calls: seq<Call>)
    requires EndsAreLast(Families([0], 1), calls)
    ensures ExitsStaySafe(areas, image, calls)
  {
    forall c, ops, n: nat |
      && IsFreshCow(c, areas, image) && n < |calls| && IsRun(c, ops)
      && EraseAll(ops) == EagerCalls(calls[..n])
      ensures IsSafe(Run(c, ops), calls[n])
    {
      EndIsSafe(c, Families([0], 1), calls, ops, n);
    }
  }

  datatype Program = Program(areas: seq<Vma>, sections: seq<Section>)

  function ProgramCalls(program: Program): seq<Call> {
    [ForkCall, TimerCall, ExecCall(program.areas, program.sections), ExitCall]
  }

  // A shell that starts one program after the other: fork, the child's turn, exec, and exit
  function ShellCalls(programs: seq<Program>): seq<Call> {
    if programs == [] then []
    else ProgramCalls(programs[0]) + ShellCalls(programs[1..])
  }

  lemma {:induction false} ShellEndsLastMembers(programs: seq<Program>, next: nat)
    requires next > 0
    ensures EndsAreLast(Families([0], next), ShellCalls(programs))
  {
    if programs != [] {
      ShellEndsLastMembers(programs[1..], next + 1);
      OneProgramMore(programs[0], ShellCalls(programs[1..]), next);
    }
  }

  lemma OneProgramMore(program: Program, calls: seq<Call>, next: nat)
    requires next > 0 && EndsAreLast(Families([0], next + 1), calls)
    ensures EndsAreLast(Families([0], next), ProgramCalls(program) + calls)
  {
    var exec := ExecCall(program.areas, program.sections);
    RoundOfFamilies(next, exec);
    OneCallMore(Families([next, 0], next + 1), ExitCall, calls);
    var ending := [ExitCall] + calls;
    OneCallMore(Families([0, 0], next), exec, ending);
    var running := [exec] + ending;
    OneCallMore(Families([0, 0], next), TimerCall, running);
    OneCallMore(Families([0], next), ForkCall, [TimerCall] + running);
    assert ProgramCalls(program) + calls == [ForkCall] + ([TimerCall] + running);
  }

  lemma RoundOfFamilies(next: nat, exec: Call)
    requires exec.ExecCall?
    ensures FamiliesAfter(Families([0], next), EagerFork) == Families([0, 0], next)
    ensures FamiliesAfter(Families([0, 0], next), EagerSwitch) == Families([0, 0], next)
    ensures FamiliesAfter(Families([0, 0], next), EagerCall(exec)) == Families([next, 0], next + 1)
    ensures FamiliesAfter(Families([next, 0], next + 1), EagerDrop(0)) == Families([0], next + 1)
  {
    assert AddAfterRunning([0], 0) == [0, 0];
    assert Advance([0, 0]) == [0, 0];
    assert ReplaceRunning([0, 0], next) == [next, 0];
    assert DropAt([next, 0], 0) == [0];
  }

  lemma OneCallMore(s: Families, call: Call, calls: seq<Call>)
    requires call.ExitCall? ==> IsLastOfFamily(s, 0)
    requires call.KillCall? ==> IsLastOfFamily(s, call.hops)
    requires EndsAreLast(FamiliesAfter(s, EagerCall(call)), calls)
    ensures EndsAreLast(s, [call] + calls)
  {
    assert ([call] + calls)[1..] == calls;
  }

  lemma ShellMayStartPrograms(areas: seq<Vma>, image: map<nat, Page>, programs: seq<Program>)
    ensures ExitsStaySafe(areas, image, ShellCalls(programs))
  {
    ShellEndsLastMembers(programs, 1);
    LastMembersEndSafely(areas, image, ShellCalls(programs));
  }

  // Right after a fork neither parent nor child is the last, and if they share a page that has not its
  // frame's number, neither may end.
  lemma ForkedTasksMayNotEnd(c: Cow, copies: map<nat, nat>, added: map<nat, Page>, v: nat)
    requires Inv(c) && IsForkPlan(c, c.ring[0], copies, added)
    requires v in c.ring[0].space && v in SharedPages(c.ring[0].areas) && v !in copies
    requires v != PageOf(PageAddress(c.ring[0].space[v].frame))
    ensures var d := ForkStep(c, copies, added);
            !SharesOnlyIdentityPages(d, 0) && !SharesOnlyIdentityPages(d, 1)
  {
    var d, f := ForkStep(c, copies, added), c.ring[0].space[v].frame;
    assert Maps(d, 0, v, f) && Maps(d, 1, v, f);
  }
}
