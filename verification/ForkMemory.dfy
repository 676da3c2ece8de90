/**
 * What fork does to memory: copyParentCr3Entries and makeParentCr3asReadOnly of sys/task.c, as
 * loops over the areas of the parent that change the page tables in place.
 */
module ForkMemory {
  import opened PageFormat
  import opened PageTables
  import opened VirtualMemory
  import opened Vmas
  import opened CowMachine

  lemma PageStartIsInThePage(x: nat)
    ensures PageOf(PageStart(x)) == PageOf(x)
  {
  }

  // How often the stepping loop runs from address start on, and over a list of areas.
  ghost function StepCount(start: nat, end: nat): nat
    decreases end - start
  {
    if start < end then 1 + StepCount(start + PAGE_SIZE, end) else 0
  }

  ghost function AreaSteps(areas: seq<Vma>): nat {
    if areas == [] then 0 else StepCount(areas[0].start, areas[0].end) + AreaSteps(areas[1..])
  }

  ghost predicate AreUserVmas(areas: seq<Vma>) {
    forall i | 0 <= i < |areas| :: IsUserVma(areas[i])
  }

  /* ---------- the child's address space while it is being filled ---------- */

  ghost function PartialChild(space: map<nat, Entry>, seen: set<nat>, copies: map<nat, nat>): map<nat, Entry> {
    map v | v in space.Keys * seen :: if v in copies then UserEntry(copies[v]) else space[v].(writeable := false)
  }

  lemma ShareStep(space: map<nat, Entry>, seen: set<nat>, copies: map<nat, nat>, v: nat)
    requires v in space && space[v].present && space[v].user
    ensures PartialChild(space, seen + {v}, copies - {v}) ==
              PartialChild(space, seen, copies)[v := UserEntry(space[v].frame).(writeable := false)]
  {
  }

  lemma SkipStep(space: map<nat, Entry>, seen: set<nat>, copies: map<nat, nat>, v: nat)
    requires v !in space
    ensures PartialChild(space, seen + {v}, copies) == PartialChild(space, seen, copies)
  {
    assert space.Keys * (seen + {v}) == space.Keys * seen;
  }

  lemma CopyStep(space: map<nat, Entry>, seen: set<nat>, copies: map<nat, nat>, v: nat, f: nat)
    requires v in space
    ensures PartialChild(space, seen + {v}, copies[v := f]) == PartialChild(space, seen, copies)[v := UserEntry(f)]
  {
  }

  // Progress of the copying: the pages visited in ordinary areas and in stacks so far, the frames
  // that took copies, and the page that each of these frames was made for.
  datatype Progress = Progress(shared: set<nat>, stack: set<nat>, copies: map<nat, nat>, home: map<nat, nat>)

  ghost predicate IsProgress(base: MemView, view: MemView, parent: nat, child: nat, g: Progress) {
    match g
    case Progress(shared, stack, copies, _) =>
      && parent in base.spaces && child !in base.spaces && view.kernel == base.kernel
      && view.spaces == base.spaces[child := PartialChild(base.spaces[parent], shared + stack, copies)]
      && CopiesAreGood(base, view.data, base.spaces[parent], g)
  }

  ghost predicate CopiesAreGood(base: MemView, data: map<nat, Page>, space: map<nat, Entry>, g: Progress) {
    match g
    case Progress(shared, stack, copies, home) =>
      && (forall f | f in base.data :: f in data && data[f] == base.data[f])
      && copies.Keys <= space.Keys * stack
      && space.Keys * stack - shared <= copies.Keys
      && (forall v | v in copies ::
            && copies[v] in data && copies[v] !in base.data
            && space[v].frame in base.data && data[copies[v]] == base.data[space[v].frame])
      && (forall v | v in copies :: copies[v] in home && home[copies[v]] == v)
  }

  lemma ShareKeepsCopies(base: MemView, data: map<nat, Page>, space: map<nat, Entry>, g: Progress, v: nat)
    requires CopiesAreGood(base, data, space, g)
    ensures CopiesAreGood(base, data, space, g.(shared := g.shared + {v}, copies := g.copies - {v}))
  {
  }

  lemma SkipKeepsCopies(base: MemView, data: map<nat, Page>, space: map<nat, Entry>, g: Progress, v: nat)
    requires CopiesAreGood(base, data, space, g) && v !in space
    ensures CopiesAreGood(base, data, space, g.(shared := g.shared + {v}))
  {
  }

  lemma CopyKeepsCopies(base: MemView, data: map<nat, Page>, space: map<nat, Entry>, g: Progress, v: nat, f: nat,
                        page: Page)
    requires CopiesAreGood(base, data, space, g)
    requires v in space && space[v].frame in base.data && page == base.data[space[v].frame]
    requires f !in data
    ensures CopiesAreGood(base, data[f := page], space,
              g.(stack := g.stack + {v}, copies := g.copies[v := f], home := g.home[f := v]))
  {
  }

  ghost predicate AreUserEntries(base: MemView, space: map<nat, Entry>) {
    forall v | v in space :: space[v].present && space[v].user && space[v].frame in base.data
  }

  // The view after a page has been shared, and after it has been copied to frame f
  ghost function WithShared(view: MemView, child: nat, v: nat, e: Entry): MemView
    requires child in view.spaces
  {
    SetPage(view, child, v, e.(writeable := false))
  }

  ghost function WithCopy(view: MemView, child: nat, v: nat, f: nat, page: Page): MemView
    requires child in view.spaces
  {
    SetPage(view.(data := view.data[f := page]), child, v, UserEntry(f))
  }

  ghost function OnlyIf(b: bool, s: set<nat>): set<nat> { if b then s else {} }

  ghost predicate IsAreaProgress(g: Progress, h: Progress, isStack: bool, seen: set<nat>) {
    match g
    case Progress(shared, stack, _, _) =>
      h.shared == shared + OnlyIf(!isStack, seen) && h.stack == stack + OnlyIf(isStack, seen)
  }

  lemma ShareMakesProgress(base: MemView, view: MemView, parent: nat, child: nat, g: Progress, v: nat)
    requires IsProgress(base, view, parent, child, g) && AreUserEntries(base, base.spaces[parent])
    requires v in base.spaces[parent]
    ensures IsProgress(base, WithShared(view, child, v, base.spaces[parent][v]), parent, child,
                       g.(shared := g.shared + {v}, copies := g.copies - {v}))
    ensures IsAreaProgress(g, g.(shared := g.shared + {v}, copies := g.copies - {v}), false, {v})
  {
    var space, h := base.spaces[parent], g.(shared := g.shared + {v}, copies := g.copies - {v});
    ShareStep(space, g.shared + g.stack, g.copies, v);
    ShareKeepsCopies(base, view.data, space, g, v);
    assert h.shared + h.stack == g.shared + g.stack + {v};
  }

  lemma SkipMakesProgress(base: MemView, view: MemView, parent: nat, child: nat, g: Progress, v: nat)
    requires IsProgress(base, view, parent, child, g) && v !in base.spaces[parent]
    ensures IsProgress(base, view, parent, child, g.(shared := g.shared + {v}))
    ensures IsAreaProgress(g, g.(shared := g.shared + {v}), false, {v})
  {
    var space, h := base.spaces[parent], g.(shared := g.shared + {v});
    SkipStep(space, g.shared + g.stack, g.copies, v);
    SkipKeepsCopies(base, view.data, space, g, v);
    assert h.shared + h.stack == g.shared + g.stack + {v};
  }

  lemma CopyMakesProgress(base: MemView, view: MemView, parent: nat, child: nat, g: Progress, v: nat, f: nat,
                          page: Page)
    requires IsProgress(base, view, parent, child, g) && AreUserEntries(base, base.spaces[parent])
    requires v in base.spaces[parent] && f !in view.data && page == base.data[base.spaces[parent][v].frame]
    ensures IsProgress(base, WithCopy(view, child, v, f, page), parent, child,
                       g.(stack := g.stack + {v}, copies := g.copies[v := f], home := g.home[f := v]))
    ensures IsAreaProgress(g, g.(stack := g.stack + {v}, copies := g.copies[v := f], home := g.home[f := v]), true, {v})
  {
    var space, h := base.spaces[parent], g.(stack := g.stack + {v}, copies := g.copies[v := f], home := g.home[f := v]);
    CopyStep(space, g.shared + g.stack, g.copies, v, f);
    CopyKeepsCopies(base, view.data, space, g, v, f, page);
    assert h.shared + h.stack == g.shared + g.stack + {v};
  }

  // Mapping a page and then marking it read-only, in the view
  lemma MapThenMark(view: MemView, child: nat, v: nat, e: Entry)
    requires child in view.spaces && e.present && e.user && v < USER_PAGES
    ensures Marked(SetPage(view, child, v, UserEntry(e.frame)), child, v, true) == WithShared(view, child, v, e)
  {
    var space, ro := view.spaces[child], e.(writeable := false);
    assert ro == UserEntry(e.frame).(writeable := false);
    assert Put(Put(space, v, UserEntry(e.frame)), v, ro) == Put(space, v, ro);
    assert view.spaces[child := Put(space, v, UserEntry(e.frame))][child := Put(space, v, ro)]
        == view.spaces[child := Put(space, v, ro)];
  }

  // Allocating a frame, mapping it and then filling it, in the view
  lemma MapThenFill(view: MemView, root: nat, v: nat, f: nat, junk: Page, page: Page)
    requires root in view.spaces
    ensures var mapped := SetPage(view.(data := view.data[f := junk]), root, v, UserEntry(f));
            mapped.(data := mapped.data[f := page]) == WithCopy(view, root, v, f, page)
  {
    assert view.data[f := junk][f := page] == view.data[f := page];
  }

  // A page of an ordinary area: the child gets the parent's frame, read-only.
  method SharePage(memory: Memory, x: nat, parent: nat, child: nat, ghost base: MemView, ghost g: Progress)
    returns (ghost h: Progress)
    requires memory.Valid() && |memory.state.free| >= 3 && PageOf(x) < USER_PAGES
    requires IsProgress(base, memory.View(), parent, child, g)
    requires AreUserEntries(base, base.spaces[parent])
    modifies memory`state, memory.frames, memory.bitmap.availFrames
    ensures memory.Valid() && IsProgress(base, memory.View(), parent, child, h)
    ensures IsAreaProgress(g, h, false, {PageOf(x)})
    ensures |old(memory.state.free)| <= |memory.state.free| + 3 && memory.state.dead == old(memory.state.dead)
  {
    ghost var v, view := PageOf(x), memory.View();
    PageStartIsInThePage(x);
    var entry := memory.GetPhysicalPageAddr(x, parent);
    if entry.Some? && entry.value != ZERO_ENTRY {
      memory.MapPageForUser(PageStart(x), entry.value.frame, child);
      var result := memory.MarkPageAsRW(PageStart(x), child, true);
      h := g.(shared := g.shared + {v}, copies := g.copies - {v});
      MapThenMark(view, child, v, base.spaces[parent][v]);
      ShareMakesProgress(base, view, parent, child, g, v);
    } else {
      h := g.(shared := g.shared + {v});
      SkipMakesProgress(base, view, parent, child, g, v);
    }
  }

  ghost function WithZeroPage(view: MemView, root: nat, v: nat, f: nat): MemView
    requires root in view.spaces
  {
    PutPage(view.(data := view.data[f := ZeroPage()]), root, v, UserEntry(f))
  }

  // A zeroed frame, mapped at the page of address x
  method MapZeroPage(memory: Memory, x: nat, root: nat) returns (f: nat)
    requires memory.Valid() && |memory.state.free| >= 4 && root in memory.View().spaces
    modifies memory`state, memory.frames, memory.bitmap.availFrames
    ensures memory.Valid() && memory.state.dead == old(memory.state.dead)
    ensures f !in old(memory.View()).data && root in old(memory.View()).spaces
    ensures memory.View() == WithZeroPage(old(memory.View()), root, PageOf(x), f)
    ensures |old(memory.state.free)| <= |memory.state.free| + 4
  {
    PageStartIsInThePage(x);
    f := memory.Kmalloc();
    memory.MapPageForUser(PageStart(x), f, root);
  }

  // The contents of the page of address x, through the tables at root
  method ReadThrough(memory: Memory, x: nat, root: nat) returns (page: Page)
    requires memory.Valid() && PageOf(x) < USER_PAGES && root in memory.View().spaces
    requires PageOf(x) in memory.View().spaces[root]
    requires memory.View().spaces[root][PageOf(x)].frame in memory.View().data
    ensures page == memory.View().data[memory.View().spaces[root][PageOf(x)].frame]
  {
    var entry := memory.GetPhysicalPageAddr(x, root);
    page := memory.ReadPage(entry.value.frame);
  }

  // A zeroed frame, mapped in the child and then filled through the parent's tables.
  method MapStackCopy(memory: Memory, x: nat, parent: nat, child: nat) returns (copy: nat)
    requires memory.Valid() && |memory.state.free| >= 4 && PageOf(x) < USER_PAGES
    requires parent in memory.View().spaces && child in memory.View().spaces && parent != child
    requires PageOf(x) in memory.View().spaces[parent]
    requires memory.View().spaces[parent][PageOf(x)].frame in memory.View().data
    modifies memory`state, memory.frames, memory.bitmap.availFrames
    ensures memory.Valid() && memory.state.dead == old(memory.state.dead) && copy !in old(memory.View()).data
    ensures memory.View() == old(WithStackCopy(memory.View(), parent, child, PageOf(x), copy))
    ensures |old(memory.state.free)| <= |memory.state.free| + 4
  {
    ghost var view := memory.View();
    copy := MapZeroPage(memory, x, child);
    var page := ReadThrough(memory, x, parent);
    memory.FillPage(copy, page);
    MapThenFill(view, child, PageOf(x), copy, ZeroPage(), page);
  }

  ghost function WithStackCopy(view: MemView, parent: nat, child: nat, v: nat, f: nat): MemView
    requires parent in view.spaces && child in view.spaces
    requires v in view.spaces[parent] && view.spaces[parent][v].frame in view.data
  {
    WithCopy(view, child, v, f, view.data[view.spaces[parent][v].frame])
  }

  // A page of a stack: the child gets a copy of its own.  The copying reads the page through the
  // running task's tables, so it must be mapped there.
  method CopyStackPage(memory: Memory, x: nat, parent: nat, child: nat, ghost base: MemView, ghost g: Progress)
    returns (ghost h: Progress)
    requires memory.Valid() && |memory.state.free| >= 4 && PageOf(x) < USER_PAGES
    requires IsProgress(base, memory.View(), parent, child, g)
    requires AreUserEntries(base, base.spaces[parent]) && PageOf(x) in base.spaces[parent]
    modifies memory`state, memory.frames, memory.bitmap.availFrames
    ensures memory.Valid() && IsProgress(base, memory.View(), parent, child, h)
    ensures IsAreaProgress(g, h, true, {PageOf(x)})
    ensures |old(memory.state.free)| <= |memory.state.free| + 4 && memory.state.dead == old(memory.state.dead)
  {
    ghost var v, view := PageOf(x), memory.View();
    var copy := MapStackCopy(memory, x, parent, child);
    h := g.(stack := g.stack + {v}, copies := g.copies[v := copy], home := g.home[copy := v]);
    CopyMakesProgress(base, view, parent, child, g, v, copy, view.data[view.spaces[parent][v].frame]);
  }

  lemma ProgressAdds(g: Progress, h: Progress, k: Progress, isStack: bool, seen: set<nat>, v: nat)
    requires IsAreaProgress(g, h, isStack, seen) && IsAreaProgress(h, k, isStack, {v})
    ensures IsAreaProgress(g, k, isStack, seen + {v})
  {
  }

  // One step of the loop, in an ordinary area or in a stack.  `reserve` frames stay free.
  method VisitPage(memory: Memory, x: nat, isStack: bool, parent: nat, child: nat,
                   ghost base: MemView, ghost g: Progress, ghost reserve: nat)
    returns (ghost h: Progress)
    requires memory.Valid() && |memory.state.free| >= reserve + 4 && PageOf(x) < USER_PAGES
    requires IsProgress(base, memory.View(), parent, child, g)
    requires AreUserEntries(base, base.spaces[parent])
    requires isStack ==> PageOf(x) in base.spaces[parent]
    modifies memory`state, memory.frames, memory.bitmap.availFrames
    ensures memory.Valid() && IsProgress(base, memory.View(), parent, child, h)
    ensures IsAreaProgress(g, h, isStack, {PageOf(x)})
    ensures |memory.state.free| >= reserve && memory.state.dead == old(memory.state.dead)
  {
    if !isStack {
      h := SharePage(memory, x, parent, child, base, g);
    } else {
      h := CopyStackPage(memory, x, parent, child, base, g);
    }
  }

  // `seen` are the pages of area a that the stepping has visited before address x.
  ghost predicate IsHalfway(a: Vma, x: nat, seen: set<nat>) {
    match a
    case Vma(start, end) => seen + StepsFrom(x, end) == StepsFrom(start, end)
  }

  lemma StepOn(a: Vma, x: nat, y: nat, seen: set<nat>, now: set<nat>)
    requires IsHalfway(a, x, seen) && x < a.end && y == x + PAGE_SIZE && now == seen + {PageOf(x)}
    ensures IsHalfway(a, y, now)
    ensures PageOf(x) in StepsFrom(a.start, a.end)
    ensures StepCount(x, a.end) == 1 + StepCount(y, a.end)
  {
  }

  lemma StepsEnd(a: Vma, x: nat, seen: set<nat>)
    requires IsHalfway(a, x, seen) && x >= a.end
    ensures seen == StepsFrom(a.start, a.end)
  {
  }

  // One step of the loop over area a
  method VisitOn(memory: Memory, a: Vma, x: nat, parent: nat, child: nat, ghost base: MemView, ghost g: Progress,
                 ghost h: Progress, ghost reserve: nat, ghost seen: set<nat>, ghost next: nat, ghost now: set<nat>)
    returns (ghost after: Progress)
    requires memory.Valid() && IsUserVma(a) && |memory.state.free| >= reserve + 4 * StepCount(x, a.end)
    requires IsProgress(base, memory.View(), parent, child, h) && AreUserEntries(base, base.spaces[parent])
    requires IsStack(a) ==> StepsFrom(a.start, a.end) <= base.spaces[parent].Keys
    requires IsHalfway(a, x, seen) && IsAreaProgress(g, h, IsStack(a), seen)
    requires x < a.end && next == x + PAGE_SIZE && now == seen + {PageOf(x)}
    modifies memory`state, memory.frames, memory.bitmap.availFrames
    ensures memory.Valid() && IsProgress(base, memory.View(), parent, child, after)
    ensures IsHalfway(a, next, now) && IsAreaProgress(g, after, IsStack(a), now)
    ensures |memory.state.free| >= reserve + 4 * StepCount(next, a.end) && memory.state.dead == old(memory.state.dead)
  {
    StepOn(a, x, next, seen, now);
    after := VisitPage(memory, x, IsStack(a), parent, child, base, h, reserve + 4 * StepCount(next, a.end));
    ProgressAdds(g, h, after, IsStack(a), seen, PageOf(x));
  }

  // One area of copyParentCr3Entries
  method CopyArea(memory: Memory, a: Vma, parent: nat, child: nat, ghost base: MemView, ghost g: Progress,
                  ghost reserve: nat)
    returns (ghost h: Progress)
    requires memory.Valid() && IsUserVma(a) && |memory.state.free| >= reserve + 4 * StepCount(a.start, a.end)
    requires IsProgress(base, memory.View(), parent, child, g)
    requires AreUserEntries(base, base.spaces[parent])
    requires IsStack(a) ==> StepsFrom(a.start, a.end) <= base.spaces[parent].Keys
    modifies memory`state, memory.frames, memory.bitmap.availFrames
    ensures memory.Valid() && IsProgress(base, memory.View(), parent, child, h)
    ensures IsAreaProgress(g, h, IsStack(a), StepsFrom(a.start, a.end))
    ensures |memory.state.free| >= reserve && memory.state.dead == old(memory.state.dead)
  {
    h := g;
    var start := a.start;
    ghost var seen: set<nat> := {};
    while start < a.end
      invariant memory.Valid() && IsProgress(base, memory.View(), parent, child, h)
      invariant IsHalfway(a, start, seen) && IsAreaProgress(g, h, IsStack(a), seen)
      invariant |memory.state.free| >= reserve + 4 * StepCount(start, a.end)
      invariant memory.state.dead == old(memory.state.dead)
      decreases a.end - start
    {
      var next := start + PAGE_SIZE;
      ghost var now := seen + {PageOf(start)};
      h := VisitOn(memory, a, start, parent, child, base, g, h, reserve, seen, next, now);
      start, seen := next, now;
    }
    assert seen == StepsFrom(a.start, a.end) by {
      StepsEnd(a, start, seen);
    }
  }

  // The areas before the i-th are done.
  ghost predicate IsListProgress(areas: seq<Vma>, i: nat, g: Progress)
    requires i <= |areas|
  {
    match g
    case Progress(shared, stack, _, _) => shared == SharedPages(areas[..i]) && stack == StackPages(areas[..i])
  }

  lemma AreaDone(areas: seq<Vma>, i: nat, g: Progress, h: Progress)
    requires i < |areas| && IsListProgress(areas, i, g)
    requires IsAreaProgress(g, h, IsStack(areas[i]), StepsFrom(areas[i].start, areas[i].end))
    ensures IsListProgress(areas, i + 1, h)
  {
    assert areas[..i + 1][..i] == areas[..i];
  }

  lemma AreaAhead(areas: seq<Vma>, i: nat)
    requires i < |areas|
    ensures AreaSteps(areas[i..]) == StepCount(areas[i].start, areas[i].end) + AreaSteps(areas[i + 1..])
    ensures IsStack(areas[i]) ==> StepsFrom(areas[i].start, areas[i].end) <= StackPages(areas)
  {
    assert areas[i..][1..] == areas[i + 1..];
    assert areas[..i + 1][..i] == areas[..i];
    StackPagesGrow(areas, i + 1);
  }

  // All of copyParentCr3Entries, from a base without the child's address space
  method CopyAreas(memory: Memory, areas: seq<Vma>, parent: nat, child: nat, ghost base: MemView, ghost reserve: nat)
    returns (ghost g: Progress)
    requires memory.Valid() && AreUserVmas(areas) && |memory.state.free| >= reserve + 4 * AreaSteps(areas)
    requires IsProgress(base, memory.View(), parent, child, Progress({}, {}, map[], map[]))
    requires AreUserEntries(base, base.spaces[parent])
    requires StackPages(areas) <= base.spaces[parent].Keys
    modifies memory`state, memory.frames, memory.bitmap.availFrames
    ensures memory.Valid() && IsProgress(base, memory.View(), parent, child, g)
    ensures IsListProgress(areas, |areas|, g)
    ensures |memory.state.free| >= reserve && memory.state.dead == old(memory.state.dead)
  {
    g := Progress({}, {}, map[], map[]);
    assert areas[0..] == areas;
    for i := 0 to |areas|
      invariant memory.Valid() && IsProgress(base, memory.View(), parent, child, g)
      invariant IsListProgress(areas, i, g)
      invariant |memory.state.free| >= reserve + 4 * AreaSteps(areas[i..])
      invariant memory.state.dead == old(memory.state.dead)
    {
      AreaAhead(areas, i);
      ghost var before := g;
      g := CopyArea(memory, areas[i], parent, child, base, g, reserve + 4 * AreaSteps(areas[i + 1..]));
      AreaDone(areas, i, before, g);
    }
  }

  // copyParentCr3Entries: the child's address space, empty so far, becomes ChildSpace of the parent's.
  method CopyParentCr3Entries(memory: Memory, areas: seq<Vma>, parent: nat, child: nat, ghost reserve: nat)
    returns (ghost g: Progress)
    requires memory.Valid() && AreUserVmas(areas) && |memory.state.free| >= reserve + 4 * AreaSteps(areas)
    requires parent in memory.View().spaces && child in memory.View().spaces && parent != child
    requires memory.View().spaces[child] == map[]
    requires AreUserEntries(memory.View(), memory.View().spaces[parent])
    requires StackPages(areas) <= memory.View().spaces[parent].Keys
    modifies memory`state, memory.frames, memory.bitmap.availFrames
    ensures memory.Valid() && IsForked(old(memory.View()), memory.View(), areas, parent, child, g)
    ensures |memory.state.free| >= reserve && memory.state.dead == old(memory.state.dead)
  {
    ghost var base := memory.View();
    ghost var under := base.(spaces := base.spaces - {child});
    EmptyProgress(base, under, parent, child);
    g := CopyAreas(memory, areas, parent, child, under, reserve);
    FullProgress(base, under, memory.View(), areas, parent, child, g);
  }

  // The child's address space has been filled from the parent's.
  ghost predicate IsForked(base: MemView, view: MemView, areas: seq<Vma>, parent: nat, child: nat, g: Progress) {
    match base
    case MemView(spaces, _, kernel) =>
      && parent in spaces && view.kernel == kernel
      && view.spaces == spaces[child := ChildSpace(Proc(areas, spaces[parent]), g.copies)]
      && IsListProgress(areas, |areas|, g) && CopiesAreGood(base, view.data, spaces[parent], g)
  }

  lemma EmptyProgress(base: MemView, under: MemView, parent: nat, child: nat)
    requires under == base.(spaces := base.spaces - {child})
    requires parent in base.spaces && child in base.spaces && parent != child && base.spaces[child] == map[]
    ensures IsProgress(under, base, parent, child, Progress({}, {}, map[], map[]))
  {
    assert base.spaces == under.spaces[child := map[]];
    assert PartialChild(under.spaces[parent], {}, map[]) == map[];
  }

  lemma FullProgress(base: MemView, under: MemView, view: MemView, areas: seq<Vma>, parent: nat, child: nat,
                     g: Progress)
    requires under == base.(spaces := base.spaces - {child}) && child in base.spaces && parent in base.spaces
    requires parent != child
    requires IsProgress(under, view, parent, child, g) && IsListProgress(areas, |areas|, g)
    ensures IsForked(base, view, areas, parent, child, g)
  {
    assert areas[..|areas|] == areas;
    var space := base.spaces[parent];
    assert PartialChild(space, g.shared + g.stack, g.copies) == ChildSpace(Proc(areas, space), g.copies);
    assert under.spaces[child := PartialChild(space, g.shared + g.stack, g.copies)]
        == base.spaces[child := PartialChild(space, g.shared + g.stack, g.copies)];
  }

  lemma {:induction false} StackPagesGrow(areas: seq<Vma>, n: nat)
    requires n <= |areas|
    ensures StackPages(areas[..n]) <= StackPages(areas)
    ensures SharedPages(areas[..n]) <= SharedPages(areas)
    decreases |areas| - n
  {
    if n < |areas| {
      StackPagesGrow(areas, n + 1);
      assert areas[..n + 1][..n] == areas[..n];
    } else {
      assert areas[..n] == areas;
    }
  }

  /* ---------- the parent's address space while it is being marked ---------- */

  ghost function PartialParent(space: map<nat, Entry>, seen: set<nat>): map<nat, Entry> {
    map v | v in space :: if v in seen then space[v].(writeable := false) else space[v]
  }

  ghost predicate IsMarked(base: MemView, view: MemView, parent: nat, seen: set<nat>) {
    match base
    case MemView(spaces, data, kernel) =>
      parent in spaces && view == MemView(spaces[parent := PartialParent(spaces[parent], seen)], data, kernel)
  }

  lemma MarkMakesProgress(base: MemView, view: MemView, parent: nat, seen: set<nat>, v: nat)
    requires IsMarked(base, view, parent, seen) && AreUserEntries(base, base.spaces[parent]) && v < USER_PAGES
    ensures IsMarked(base, Marked(view, parent, v, true), parent, seen + {v})
  {
    var space := base.spaces[parent];
    if v in space {
      assert PartialParent(space, seen + {v}) == PartialParent(space, seen)[v := space[v].(writeable := false)];
    } else {
      assert PartialParent(space, seen + {v}) == PartialParent(space, seen);
    }
  }

  // makeParentCr3asReadOnly
  method MakeParentCr3asReadOnly(memory: Memory, areas: seq<Vma>, parent: nat)
    requires memory.Valid() && AreUserVmas(areas)
    requires parent in memory.View().spaces
    requires AreUserEntries(memory.View(), memory.View().spaces[parent])
    modifies memory`state, memory.frames
    ensures memory.Valid() && memory.state.free == old(memory.state.free) && memory.state.dead == old(memory.state.dead)
    ensures memory.View() == WithParentMarked(old(memory.View()), areas, parent)
  {
    ghost var base, seen := memory.View(), {};
    NothingMarked(base, parent);
    for i := 0 to |areas|
      invariant memory.Valid() && memory.state.free == old(memory.state.free)
      invariant memory.state.dead == old(memory.state.dead)
      invariant IsMarked(base, memory.View(), parent, seen)
      invariant seen == SharedPages(areas[..i])
    {
      assert areas[..i + 1][..i] == areas[..i];
      seen := MarkArea(memory, areas[i], parent, base, seen);
    }
    assert areas[..|areas|] == areas;
    AllMarked(base, memory.View(), areas, parent);
  }

  ghost function WithParentMarked(base: MemView, areas: seq<Vma>, parent: nat): MemView
    requires parent in base.spaces
  {
    base.(spaces := base.spaces[parent := ParentSpace(Proc(areas, base.spaces[parent]))])
  }

  lemma NothingMarked(base: MemView, parent: nat)
    requires parent in base.spaces
    ensures IsMarked(base, base, parent, {})
  {
    assert PartialParent(base.spaces[parent], {}) == base.spaces[parent];
    assert base.spaces[parent := base.spaces[parent]] == base.spaces;
  }

  lemma AllMarked(base: MemView, view: MemView, areas: seq<Vma>, parent: nat)
    requires IsMarked(base, view, parent, SharedPages(areas))
    ensures view == WithParentMarked(base, areas, parent)
  {
    assert PartialParent(base.spaces[parent], SharedPages(areas)) == ParentSpace(Proc(areas, base.spaces[parent]));
  }

  // One area of makeParentCr3asReadOnly; stacks are left writeable.
  method MarkArea(memory: Memory, a: Vma, parent: nat, ghost base: MemView, ghost seen: set<nat>)
    returns (ghost now: set<nat>)
    requires memory.Valid() && IsUserVma(a)
    requires IsMarked(base, memory.View(), parent, seen) && AreUserEntries(base, base.spaces[parent])
    modifies memory`state, memory.frames
    ensures memory.Valid() && memory.state.free == old(memory.state.free) && memory.state.dead == old(memory.state.dead)
    ensures IsMarked(base, memory.View(), parent, now)
    ensures now == seen + if IsStack(a) then {} else StepsFrom(a.start, a.end)
  {
    ghost var visited: set<nat> := {};
    now := seen;
    var start := a.start;
    while start < a.end
      invariant memory.Valid() && memory.state.free == old(memory.state.free)
      invariant memory.state.dead == old(memory.state.dead)
      invariant IsMarked(base, memory.View(), parent, now)
      invariant IsHalfway(a, start, visited)
      invariant now == seen + OnlyIf(!IsStack(a), visited)
      decreases a.end - start
    {
      var next := start + PAGE_SIZE;
      StepOn(a, start, next, visited, visited + {PageOf(start)});
      if !IsStack(a) {
        MarkPage(memory, start, parent, base, now);
        now := now + {PageOf(start)};
      }
      visited := visited + {PageOf(start)};
      start := next;
    }
    StepsEnd(a, start, visited);
  }

  method MarkPage(memory: Memory, x: nat, parent: nat, ghost base: MemView, ghost seen: set<nat>)
    requires memory.Valid() && PageOf(x) < USER_PAGES
    requires IsMarked(base, memory.View(), parent, seen) && AreUserEntries(base, base.spaces[parent])
    modifies memory`state, memory.frames
    ensures memory.Valid() && memory.state.free == old(memory.state.free) && memory.state.dead == old(memory.state.dead)
    ensures IsMarked(base, memory.View(), parent, seen + {PageOf(x)})
  {
    PageStartIsInThePage(x);
    MarkMakesProgress(base, memory.View(), parent, seen, PageOf(x));
    var result := memory.MarkPageAsRW(PageStart(x), parent, true);
  }
}
