/**
 * The areas of a task cover its mapped pages.  Demand faults keep that exactly when the empty areas
 * are covered by others, and fork is a copy exactly when it holds.
 */
module AreaCover {
  import opened PageFormat
  import opened RingOps
  import opened Vmas
  import opened CowMachine
  import opened EagerRefinement

  // Whatever page the handler accepts, the task's pages stay covered: exactly when its empty areas are.
  lemma DemandFaultsKeepCoverExactlyWhen(c: Cow, spare: nat)
    requires |c.ring| > 0 && c.ring[0].space.Keys <= VisitedPages(c.ring[0].areas)
    ensures (forall v | IsFirstPage(c.ring[0].areas, v) ::
               DemandFault(c, v, spare).ring[0].space.Keys <= VisitedPages(c.ring[0].areas)) <==>
            EmptyAreasAreCovered(c.ring[0].areas)
  {
    var p := c.ring[0];
    AcceptedPagesAreVisited(p.areas);
    forall v
      ensures DemandFault(c, v, spare).ring[0].space.Keys == p.space.Keys + {v}
    {
    }
    if EmptyAreasAreCovered(p.areas) {
    } else {
      var v :| IsFirstPage(p.areas, v) && v !in VisitedPages(p.areas);
      assert v in DemandFault(c, v, spare).ring[0].space.Keys;
    }
  }

  // Parent and child see the same after a fork exactly when the parent's pages were covered.
  lemma ForkIsACopyExactlyWhen(c: Cow, copies: map<nat, nat>, added: map<nat, Page>)
    requires |c.ring| > 0 && EntriesAreUserEntries(c) && IsForkPlan(c, c.ring[0], copies, added)
    ensures var d := ForkStep(c, copies, added);
            View(d.ring[1], d.data) == View(d.ring[0], d.data) <==>
            c.ring[0].space.Keys <= VisitedPages(c.ring[0].areas)
  {
    var p, d := c.ring[0], ForkStep(c, copies, added);
    FramesHaveData(c, 0);
    ParentView(c, copies, added);
    if p.space.Keys <= VisitedPages(p.areas) {
      ChildView(c, p, copies, added);
    } else {
      var v :| v in p.space && v !in VisitedPages(p.areas);
      assert v in View(p, c.data) && v !in View(d.ring[1], d.data);
    }
  }

  lemma ParentView(c: Cow, copies: map<nat, nat>, added: map<nat, Page>)
    requires |c.ring| > 0 && EntriesAreUserEntries(c) && IsForkPlan(c, c.ring[0], copies, added)
    ensures var d := ForkStep(c, copies, added);
            View(d.ring[0], d.data) == View(c.ring[0], c.data)
  {
    FramesHaveData(c, 0);
  }

  /* ---------- an area that loses its page ---------- */

  const ARGUMENTS: nat := 0x300
  const STACK: nat := PageOf(STACK_TOP - 0x1000)

  // The areas of a program of one page after exec: arguments, stack and program
  ghost function AreasAfterExec(): seq<Vma> {
    [Vma(0x30_0000, 0x32_1000), Vma(STACK_TOP - 0x1000, STACK_TOP), Vma(0x40_0000, 0x40_1000)]
  }

  ghost function AreasAfterMalloc(): seq<Vma> { AreasAfterExec() + [NewArea(AreasAfterExec(), 0)] }

  // malloc(0) puts an area of no length behind the program.
  lemma NewAreaIsEmpty()
    ensures NewArea(AreasAfterExec(), 0) == Vma(0x40_1000, 0x40_1000)
  {
    var b, c := AreasAfterExec()[1], AreasAfterExec()[2];
    assert AreasAfterExec()[1..] == [b, c] && [b, c][..1] == [b] && [b][..0] == [];
    assert LargestEnd([b]) == 0;
  }

  // exec has mapped two pages of arguments, the end of the environment, the stack and the program.
  ghost function SpaceAfterExec(): map<nat, Entry> {
    map[ARGUMENTS := UserEntry(3), ARGUMENTS + 1 := UserEntry(4), ARGUMENTS + 2 := UserEntry(5), STACK := UserEntry(6),
        0x400 := UserEntry(7)]
  }

  ghost function AfterMalloc(): Cow {
    Cow([Proc(AreasAfterMalloc(), SpaceAfterExec())],
        map[3 := ZeroPage(), 4 := ZeroPage(), 5 := ZeroPage(), 6 := ZeroPage(), 7 := ZeroPage()])
  }

  lemma {:induction false} AlignedSteps(v: nat, n: nat, w: nat)
    requires v + n < USER_PAGES
    ensures w in StepsFrom(v * PAGE_SIZE, (v + n) * PAGE_SIZE) <==> v <= w < v + n
    decreases n
  {
    if n > 0 {
      assert PageOf(v * PAGE_SIZE) == v;
      AlignedSteps(v + 1, n - 1, w);
      assert (v + 1) * PAGE_SIZE == v * PAGE_SIZE + PAGE_SIZE;
    }
  }

  lemma StackStep()
    ensures StepsFrom(STACK_TOP - 0x1000, STACK_TOP) == {STACK}
  {
    assert StepsFrom(STACK_TOP, STACK_TOP) == {};
  }

  // The stepping visits the pages of the arguments, the stack and the program, and no other.
  lemma VisitsAfterMalloc(w: nat)
    ensures w in SharedPages(AreasAfterMalloc()) <==> ARGUMENTS <= w < 0x321 || w == 0x400
    ensures StackPages(AreasAfterMalloc()) == {STACK} && IsFirstPage(AreasAfterMalloc(), 0x401)
  {
    NewAreaIsEmpty();
    var a, b, c, d := AreasAfterMalloc()[0], AreasAfterMalloc()[1], AreasAfterMalloc()[2], AreasAfterMalloc()[3];
    assert AreasAfterMalloc() == [] + [a] + [b] + [c] + [d];
    OneAreaMore([], a);
    OneAreaMore([] + [a], b);
    OneAreaMore([] + [a] + [b], c);
    OneAreaMore([] + [a] + [b] + [c], d);
    AlignedSteps(ARGUMENTS, 0x21, w);
    AlignedSteps(0x400, 1, w);
    StackStep();
    assert PageOf(d.start) == 0x401;
  }

  // The program's first write to what malloc(0) has returned maps a page, and the child of a later
  // fork does not have that page.
  lemma EmptyAreaLosesItsPage(spare: nat, copy: nat)
    requires spare !in AfterMalloc().data && copy !in AfterMalloc().data && copy != spare
    ensures AfterMalloc().ring[0].space.Keys <= VisitedPages(AreasAfterMalloc())
    ensures var c := DemandFault(AfterMalloc(), 0x401, spare);
            var copies, added := map[STACK := copy], map[copy := ZeroPage()];
            var d := ForkStep(c, copies, added);
            && IsFirstPage(AreasAfterMalloc(), 0x401)
            && IsForkPlan(c, c.ring[0], copies, added)
            && View(d.ring[1], d.data) != View(d.ring[0], d.data)
  {
    var c := DemandFault(AfterMalloc(), 0x401, spare);
    var copies, added := map[STACK := copy], map[copy := ZeroPage()];
    PagesAreVisited();
    FaultedState(spare);
    VisitsAfterMalloc(0x401);
    StackIsCopied(c, copy);
    assert 0x401 in c.ring[0].space.Keys && 0x401 !in VisitedPages(AreasAfterMalloc());
    ForkIsACopyExactlyWhen(c, copies, added);
  }

  lemma PagesAreVisited()
    ensures SpaceAfterExec().Keys <= VisitedPages(AreasAfterMalloc())
  {
    forall v | v in SpaceAfterExec()
      ensures v in VisitedPages(AreasAfterMalloc())
    {
      VisitsAfterMalloc(v);
    }
  }

  lemma FaultedState(spare: nat)
    requires spare !in AfterMalloc().data
    ensures var c := DemandFault(AfterMalloc(), 0x401, spare);
            && c.ring[0] == Proc(AreasAfterMalloc(), SpaceAfterExec()[0x401 := UserEntry(spare)])
            && EntriesAreUserEntries(c) && 6 in c.data && c.data[6] == ZeroPage()
            && c.data.Keys == AfterMalloc().data.Keys + {spare}
  {
  }

  lemma StackIsCopied(c: Cow, copy: nat)
    requires |c.ring| > 0 && c.ring[0].areas == AreasAfterMalloc() && STACK in c.ring[0].space
    requires c.ring[0].space[STACK].frame == 6 && 6 in c.data && c.data[6] == ZeroPage() && copy !in c.data
    ensures IsForkPlan(c, c.ring[0], map[STACK := copy], map[copy := ZeroPage()])
  {
    VisitsAfterMalloc(0);
  }

  /* ---------- a variable that loses its page ---------- */

  // setenv keeps the mapped pages covered exactly when it maps a visited page.
  lemma SetenvKeepsCoverExactlyWhen(c: Cow, v: nat, contents: Page, spare: nat)
    requires |c.ring| > 0 && c.ring[0].space.Keys <= VisitedPages(c.ring[0].areas)
    ensures var d := Remap(c, 0, v, UserEntry(spare)).(data := c.data[spare := contents]);
            d.ring[0].space.Keys <= VisitedPages(d.ring[0].areas) <==> v in VisitedPages(c.ring[0].areas)
  {
    var d := Remap(c, 0, v, UserEntry(spare)).(data := c.data[spare := contents]);
    assert d.ring[0].space.Keys == c.ring[0].space.Keys + {v};
  }

  // The page that ends the environment after n variables, below the program.  The area of the arguments
  // has room for 30.
  function EndOfEnvironment(n: nat): nat { 0x302 + n }

  lemma EnvironmentOutgrowsItsArea(n: nat)
    requires EndOfEnvironment(n) < 0x400
    ensures EndOfEnvironment(n) in VisitedPages(AreasAfterExec()) <==> n <= 30
  {
    var a, b, c := AreasAfterExec()[0], AreasAfterExec()[1], AreasAfterExec()[2];
    assert AreasAfterExec() == [] + [a] + [b] + [c];
    OneAreaMore([], a);
    OneAreaMore([] + [a], b);
    OneAreaMore([] + [a] + [b], c);
    AlignedSteps(ARGUMENTS, 0x21, EndOfEnvironment(n));
    AlignedSteps(0x400, 1, EndOfEnvironment(n));
    StackStep();
  }
}
