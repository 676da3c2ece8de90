/**
 * The eager machine, in which fork copies every page and all memory is private, and the proof that
 * the copy-on-write machine of CowMachine is indistinguishable from it over every run.
 */
module EagerRefinement {
  import opened PageFormat
  import opened RingOps
  import opened Vmas
  import opened CowMachine

  // What one task can read: the contents of its mapped pages.
  type Memory = map<nat, Page>

  datatype EagerOp =
    | EagerFork
    | EagerTouch(page: nat)
    | EagerWrite(page: nat, offset: nat, value: Byte)
    | EagerSwitch
    | EagerExec(memory: Memory)
    | EagerDrop(index: nat)
      // malloc maps nothing.
    | EagerStay
    | EagerPut(page: nat, contents: Page)

  // A page comes into being zero-filled when it is first written.
  ghost function Touched(m: Memory, v: nat): Memory {
    if v in m then m else m[v := ZeroPage()]
  }

  ghost function Written(m: Memory, v: nat, offset: nat, value: Byte): Memory
    requires v in m && offset < PAGE_SIZE
  {
    m[v := m[v][offset := value]]
  }

  ghost function EagerApply(ring: seq<Memory>, op: EagerOp): seq<Memory>
    requires |ring| > 0
    requires op.EagerWrite? ==> op.offset < PAGE_SIZE
    requires op.EagerDrop? ==> op.index < |ring|
  {
    match op
    case EagerFork => AddAfterRunning(ring, ring[0])
    case EagerTouch(v) => ring[0 := Touched(ring[0], v)]
    case EagerWrite(v, offset, value) =>
      var m := Touched(ring[0], v);
      ring[0 := Written(m, v, offset, value)]
    case EagerSwitch => Advance(ring)
    case EagerExec(memory) => ReplaceRunning(ring, memory)
    case EagerDrop(i) => DropAt(ring, i)
    case EagerStay => ring
    case EagerPut(v, contents) => ring[0 := Put(ring[0], v, contents)]
  }

  ghost function View(p: Proc, data: map<nat, Page>): Memory {
    map v | v in p.space && p.space[v].frame in data :: data[p.space[v].frame]
  }

  ghost function Views(c: Cow): seq<Memory> {
    seq(|c.ring|, i requires 0 <= i < |c.ring| => View(c.ring[i], c.data))
  }

  ghost function Erase(op: Op): EagerOp {
    match op
    case Fork(_, _) => EagerFork
    case Fault(v, _) => EagerTouch(v)
    case Write(v, offset, value, _) => EagerWrite(v, offset, value)
    case Switch => EagerSwitch
    case Exec(p, image) => EagerExec(View(p, image))
    case Exit => EagerDrop(0)
    case Kill(i) => EagerDrop(i)
    case Malloc(_) => EagerStay
    case MapPage(v, contents, _) => EagerPut(v, contents)
  }

  /* ---------- fork ---------- */

  lemma ForkKeepsEntries(c: Cow, copies: map<nat, nat>, added: map<nat, Page>)
    requires Inv(c) && IsForkPlan(c, c.ring[0], copies, added)
    ensures EntriesAreUserEntries(ForkStep(c, copies, added))
    ensures PagesAreCovered(ForkStep(c, copies, added))
  {
    var d := ForkStep(c, copies, added);
    forall i: nat, v, f | Maps(d, i, v, f)
      ensures f in d.data && d.ring[i].space[v].present && d.ring[i].space[v].user
    {
      var k := if i < 2 then 0 else i - 1;
      assert Maps(c, k, v, c.ring[k].space[v].frame);
    }
  }

  // Where an entry of the forked state comes from.
  ghost predicate IsCopy(copies: map<nat, nat>, i: nat, v: nat, f: nat) { i == 1 && v in copies && copies[v] == f }

  lemma ForkedEntry(c: Cow, copies: map<nat, nat>, added: map<nat, Page>, i: nat, v: nat, f: nat)
    requires Inv(c) && IsForkPlan(c, c.ring[0], copies, added)
    requires Maps(ForkStep(c, copies, added), i, v, f)
    ensures var k := if i < 2 then 0 else i - 1;
            if IsCopy(copies, i, v, f) then f !in c.data
            else Maps(c, k, v, f) && f in c.data
                 && (IsReadOnly(c, k, v) ==> IsReadOnly(ForkStep(c, copies, added), i, v))
                 && (i == 1 ==> v in SharedPages(c.ring[0].areas) && IsReadOnly(ForkStep(c, copies, added), 1, v)
                                && IsReadOnly(ForkStep(c, copies, added), 0, v))
  {
    var k := if i < 2 then 0 else i - 1;
    assert Maps(c, k, v, c.ring[k].space[v].frame);
  }

  lemma ForkKeepsSharing(c: Cow, copies: map<nat, nat>, added: map<nat, Page>)
    requires Inv(c) && IsForkPlan(c, c.ring[0], copies, added)
    ensures SharingIsReadOnly(ForkStep(c, copies, added))
  {
    var d := ForkStep(c, copies, added);
    forall i: nat, v, j: nat, w, f | Maps(d, i, v, f) && Maps(d, j, w, f) && (i != j || v != w)
      ensures i != j && v == w && IsReadOnly(d, i, v) && IsReadOnly(d, j, w)
    {
      SharedAfterFork(c, copies, added, i, v, j, w, f);
    }
  }

  lemma SharedAfterFork(c: Cow, copies: map<nat, nat>, added: map<nat, Page>, i: nat, v: nat, j: nat, w: nat, f: nat)
    requires Inv(c) && IsForkPlan(c, c.ring[0], copies, added) && (i != j || v != w)
    requires Maps(ForkStep(c, copies, added), i, v, f) && Maps(ForkStep(c, copies, added), j, w, f)
    ensures i != j && v == w
    ensures IsReadOnly(ForkStep(c, copies, added), i, v) && IsReadOnly(ForkStep(c, copies, added), j, w)
  {
    ForkedEntry(c, copies, added, i, v, f);
    ForkedEntry(c, copies, added, j, w, f);
  }

  // What becomes of a page that only ordinary areas visit: both share its frame, and neither may write.
  lemma OrdinaryPageIsShared(c: Cow, copies: map<nat, nat>, added: map<nat, Page>, i: nat, v: nat)
    requires Inv(c) && IsForkPlan(c, c.ring[0], copies, added) && v in c.ring[0].space
    requires var areas := c.ring[0].areas;
             && i < |areas| && areas[i].end != 0xFFFF_FF7F_0000_0000 && v in StepsFrom(areas[i].start, areas[i].end)
             && forall j | 0 <= j < |areas| && areas[j].end == 0xFFFF_FF7F_0000_0000 ::
                  v !in StepsFrom(areas[j].start, areas[j].end)
    ensures var d, e := ForkStep(c, copies, added), c.ring[0].space[v];
            && |d.ring| > 1 && v in d.ring[0].space && v in d.ring[1].space
            && d.ring[0].space[v].frame == e.frame == d.ring[1].space[v].frame
            && !d.ring[0].space[v].writeable && !d.ring[1].space[v].writeable
  {
    PagesByArea(c.ring[0].areas, v);
  }

  // What becomes of a page that only stacks visit: the parent's stays as it is, and the child has a copy in
  // a frame of its own, which it may write to.
  lemma StackPageIsCopied(c: Cow, copies: map<nat, nat>, added: map<nat, Page>, i: nat, v: nat)
    requires Inv(c) && IsForkPlan(c, c.ring[0], copies, added) && v in c.ring[0].space
    requires var areas := c.ring[0].areas;
             && i < |areas| && areas[i].end == 0xFFFF_FF7F_0000_0000 && v in StepsFrom(areas[i].start, areas[i].end)
             && forall j | 0 <= j < |areas| && areas[j].end != 0xFFFF_FF7F_0000_0000 ::
                  v !in StepsFrom(areas[j].start, areas[j].end)
    ensures var d, e := ForkStep(c, copies, added), c.ring[0].space[v];
            && |d.ring| > 1 && v in d.ring[0].space && d.ring[0].space[v] == e && v in d.ring[1].space
            && d.ring[1].space[v].writeable && d.ring[1].space[v].frame !in c.data
            && e.frame in c.data && d.ring[1].space[v].frame in d.data
            && d.data[d.ring[1].space[v].frame] == c.data[e.frame]
  {
    PagesByArea(c.ring[0].areas, v);
  }

  lemma ForkKeepsInv(c: Cow, copies: map<nat, nat>, added: map<nat, Page>)
    requires Inv(c) && IsForkPlan(c, c.ring[0], copies, added)
    ensures Inv(ForkStep(c, copies, added))
  {
    ForkKeepsEntries(c, copies, added);
    ForkKeepsSharing(c, copies, added);
  }

  lemma ForkRefines(c: Cow, copies: map<nat, nat>, added: map<nat, Page>)
    requires Inv(c) && IsForkPlan(c, c.ring[0], copies, added)
    ensures Views(ForkStep(c, copies, added)) == AddAfterRunning(Views(c), Views(c)[0])
  {
    var d := ForkStep(c, copies, added);
    forall i: nat | i <= |c.ring|
      ensures View(d.ring[i], d.data) == View(c.ring[if i < 2 then 0 else i - 1], c.data)
    {
      ForkedView(c, copies, added, i);
    }
    ViewsAfterFork(c, d);
  }

  lemma ViewsAfterFork(c: Cow, d: Cow)
    requires |c.ring| > 0 && |d.ring| == |c.ring| + 1
    requires forall i: nat | i <= |c.ring| ::
               View(d.ring[i], d.data) == View(c.ring[if i < 2 then 0 else i - 1], c.data)
    ensures Views(d) == AddAfterRunning(Views(c), Views(c)[0])
  {
    var left, right := Views(d), AddAfterRunning(Views(c), Views(c)[0]);
    forall i: nat | i < |left|
      ensures left[i] == right[i]
    {
      AddedAt(Views(c), Views(c)[0], i);
    }
  }

  lemma ForkedView(c: Cow, copies: map<nat, nat>, added: map<nat, Page>, i: nat)
    requires Inv(c) && IsForkPlan(c, c.ring[0], copies, added) && i <= |c.ring|
    ensures var d := ForkStep(c, copies, added);
            View(d.ring[i], d.data) == View(c.ring[if i < 2 then 0 else i - 1], c.data)
  {
    if i == 1 {
      FramesHaveData(c, 0);
      ChildView(c, c.ring[0], copies, added);
    } else {
      OldView(c, copies, added, i, if i == 0 then 0 else i - 1);
    }
  }

  lemma OldView(c: Cow, copies: map<nat, nat>, added: map<nat, Page>, i: nat, k: nat)
    requires Inv(c) && IsForkPlan(c, c.ring[0], copies, added) && i <= |c.ring| && i != 1
    requires k == if i == 0 then 0 else i - 1
    ensures var d := ForkStep(c, copies, added);
            View(d.ring[i], d.data) == View(c.ring[k], c.data)
  {
    FramesHaveData(c, k);
  }

  lemma FramesHaveData(c: Cow, k: nat)
    requires EntriesAreUserEntries(c) && k < |c.ring|
    ensures forall v | v in c.ring[k].space :: c.ring[k].space[v].frame in c.data
  {
    forall v | v in c.ring[k].space
      ensures c.ring[k].space[v].frame in c.data
    {
      assert Maps(c, k, v, c.ring[k].space[v].frame);
    }
  }

  lemma ChildView(c: Cow, p: Proc, copies: map<nat, nat>, added: map<nat, Page>)
    requires IsForkPlan(c, p, copies, added) && p.space.Keys <= VisitedPages(p.areas)
    requires forall v | v in p.space :: p.space[v].frame in c.data
    ensures View(Proc(p.areas, ChildSpace(p, copies)), c.data + added) == View(p, c.data)
  {
  }

  /* ---------- user writes ---------- */

  // The running task gets a frame nobody maps for page v.
  lemma FreshPageKeepsInv(c: Cow, v: nat, spare: nat, contents: Page)
    requires Inv(c) && spare !in c.data && v in VisitedPages(c.ring[0].areas)
    ensures Inv(Remap(c, 0, v, UserEntry(spare)).(data := c.data[spare := contents]))
  {
    var d := Remap(c, 0, v, UserEntry(spare)).(data := c.data[spare := contents]);
    forall i: nat, w, f | Maps(d, i, w, f)
      ensures OldOrFresh(c, d, i, w, f, v, spare)
    {
    }
    FreshPageKeepsSharing(c, d, v, spare);
    assert EntriesAreUserEntries(d);
    assert PagesAreCovered(d);
  }

  ghost predicate OldOrFresh(c: Cow, d: Cow, i: nat, w: nat, f: nat, v: nat, spare: nat) {
    || (i == 0 && w == v && f == spare)
    || (Maps(c, i, w, f) && f in c.data && i < |d.ring| && w in d.ring[i].space
      && d.ring[i].space[w] == c.ring[i].space[w])
  }

  lemma FreshPageKeepsSharing(c: Cow, d: Cow, v: nat, spare: nat)
    requires SharingIsReadOnly(c) && spare !in c.data
    requires forall i: nat, w, f :: Maps(d, i, w, f) ==> OldOrFresh(c, d, i, w, f, v, spare)
    ensures SharingIsReadOnly(d)
  {
  }

  lemma FreshPageView(c: Cow, v: nat, spare: nat, contents: Page)
    requires Inv(c) && spare !in c.data
    ensures Views(Remap(c, 0, v, UserEntry(spare)).(data := c.data[spare := contents])) ==
              Views(c)[0 := Put(Views(c)[0], v, contents)]
  {
    var d := Remap(c, 0, v, UserEntry(spare)).(data := c.data[spare := contents]);
    forall i: nat | i < |c.ring|
      ensures Views(d)[i] == Views(c)[0 := Put(Views(c)[0], v, contents)][i]
    {
      forall w | w in c.ring[i].space
        ensures c.ring[i].space[w].frame in c.data
      {
        assert Maps(c, i, w, c.ring[i].space[w].frame);
      }
    }
  }

  ghost function Put(m: Memory, v: nat, contents: Page): Memory { m[v := contents] }

  lemma {:induction false} CountsTheSharers(ring: seq<Proc>, v: nat, f: nat, i: nat, j: nat)
    requires i < |ring| && j < |ring| && HasPage(ring[i], v, f) && HasPage(ring[j], v, f)
    ensures ShareCount(ring, v, f) >= if i == j then 1 else 2
  {
    var n := |ring| - 1;
    if i < n && j < n {
      CountsTheSharers(ring[..n], v, f, i, j);
    } else if i < n {
      CountsTheSharers(ring[..n], v, f, i, i);
    } else if j < n {
      CountsTheSharers(ring[..n], v, f, j, j);
    }
  }

  lemma AloneMeansUnshared(c: Cow, v: nat, j: nat, w: nat)
    requires Inv(c) && v in c.ring[0].space && ShareCount(c.ring, v, c.ring[0].space[v].frame) == 1
    requires Maps(c, j, w, c.ring[0].space[v].frame)
    ensures j == 0 && w == v
  {
    var f := c.ring[0].space[v].frame;
    assert Maps(c, 0, v, f);
    if j != 0 {
      CountsTheSharers(c.ring, v, f, 0, j);
    }
  }

  lemma TouchRefines(c: Cow, v: nat, spare: nat)
    requires Inv(c) && spare !in c.data
    requires v in c.ring[0].space || IsFirstPage(c.ring[0].areas, v)
    ensures Inv(Touch(c, v, spare))
    ensures Views(Touch(c, v, spare)) == Views(c)[0 := Touched(Views(c)[0], v)]
    ensures v in Views(Touch(c, v, spare))[0]
    ensures v !in Views(c)[0] ==> forall k | 0 <= k < 0x1000 :: Views(Touch(c, v, spare))[0][v][k] == 0
  {
    ZeroPageIsZero();
    if v !in c.ring[0].space {
      AcceptedPagesAreVisited(c.ring[0].areas);
      FreshPageKeepsInv(c, v, spare, ZeroPage());
      FreshPageView(c, v, spare, ZeroPage());
    } else {
      var e := c.ring[0].space[v];
      assert Maps(c, 0, v, e.frame);
      if !e.writeable {
        if ShareCount(c.ring, v, e.frame) == 1 {
          UnshareKeepsInv(c, v);
        } else {
          FreshPageKeepsInv(c, v, spare, c.data[e.frame]);
          FreshPageView(c, v, spare, c.data[e.frame]);
          assert Put(Views(c)[0], v, c.data[e.frame]) == Views(c)[0];
        }
      }
    }
  }

  // The last sharer keeps the frame and may write to it again.
  lemma UnshareKeepsInv(c: Cow, v: nat)
    requires Inv(c) && v in c.ring[0].space && ShareCount(c.ring, v, c.ring[0].space[v].frame) == 1
    ensures var d := Remap(c, 0, v, c.ring[0].space[v].(writeable := true));
            Inv(d) && Views(d) == Views(c)
  {
    var d := Remap(c, 0, v, c.ring[0].space[v].(writeable := true));
    var g := c.ring[0].space[v].frame;
    forall j: nat, w | Maps(c, j, w, g)
      ensures j == 0 && w == v
    {
      AloneMeansUnshared(c, v, j, w);
    }
    UnsharedEntries(c, d, v, g);
    UnshareKeepsSharing(c, d, v, g);
    assert forall i: nat | i < |c.ring| :: View(d.ring[i], d.data) == View(c.ring[i], c.data);
  }

  lemma UnsharedEntries(c: Cow, d: Cow, v: nat, g: nat)
    requires |c.ring| > 0 && EntriesAreUserEntries(c) && PagesAreCovered(c)
    requires v in c.ring[0].space && c.ring[0].space[v].frame == g
    requires d == Remap(c, 0, v, c.ring[0].space[v].(writeable := true))
    ensures forall i: nat, w, f :: Maps(d, i, w, f) ==> SameButForWriteability(c, d, i, w, f, g)
    ensures EntriesAreUserEntries(d) && PagesAreCovered(d)
  {
  }

  ghost predicate SameButForWriteability(c: Cow, d: Cow, i: nat, w: nat, f: nat, g: nat) {
    && Maps(c, i, w, f)
    && i < |d.ring| && w in d.ring[i].space
    && d.ring[i].space[w].present == c.ring[i].space[w].present
    && d.ring[i].space[w].user == c.ring[i].space[w].user
    && (f != g && IsReadOnly(c, i, w) ==> IsReadOnly(d, i, w))
  }

  lemma UnshareKeepsSharing(c: Cow, d: Cow, v: nat, g: nat)
    requires SharingIsReadOnly(c)
    requires forall j: nat, w :: Maps(c, j, w, g) ==> j == 0 && w == v
    requires forall i: nat, w, f :: Maps(d, i, w, f) ==> SameButForWriteability(c, d, i, w, f, g)
    ensures SharingIsReadOnly(d)
  {
  }

  lemma StoreRefines(c: Cow, v: nat, offset: nat, value: Byte)
    requires Inv(c) && offset < PAGE_SIZE
    requires v in c.ring[0].space && c.ring[0].space[v].writeable && c.ring[0].space[v].frame in c.data
    ensures v in Views(c)[0]
    ensures var d := Store(c, v, offset, value);
            Inv(d) && Views(d) == Views(c)[0 := Written(Views(c)[0], v, offset, value)]
  {
    var d := Store(c, v, offset, value);
    SameSpacesKeepInv(c, d);
    forall i: nat | i < |c.ring|
      ensures View(d.ring[i], d.data) ==
                if i == 0 then Written(Views(c)[0], v, offset, value) else View(c.ring[i], c.data)
    {
      StoredView(c, v, offset, value, i);
    }
    assert Views(d) == Views(c)[0 := Written(Views(c)[0], v, offset, value)];
  }

  // The invariant looks at the entries, and asks for contents behind them.
  lemma SameSpacesKeepInv(c: Cow, d: Cow)
    requires Inv(c) && |d.ring| == |c.ring| && c.data.Keys <= d.data.Keys && PagesAreCovered(d)
    requires forall i: nat | i < |c.ring| :: d.ring[i].space == c.ring[i].space
    ensures Inv(d)
  {
    assert forall i: nat, v, f :: Maps(d, i, v, f) <==> Maps(c, i, v, f);
    SameEntries(c, d);
    SameSharing(c, d);
  }

  lemma SameEntries(c: Cow, d: Cow)
    requires EntriesAreUserEntries(c) && |d.ring| == |c.ring| && c.data.Keys <= d.data.Keys
    requires forall i: nat | i < |c.ring| :: d.ring[i].space == c.ring[i].space
    requires forall i: nat, v, f :: Maps(d, i, v, f) <==> Maps(c, i, v, f)
    ensures EntriesAreUserEntries(d)
  {
  }

  lemma SameSharing(c: Cow, d: Cow)
    requires SharingIsReadOnly(c) && |d.ring| == |c.ring|
    requires forall i: nat | i < |c.ring| :: d.ring[i].space == c.ring[i].space
    requires forall i: nat, v, f :: Maps(d, i, v, f) <==> Maps(c, i, v, f)
    ensures SharingIsReadOnly(d)
  {
    assert forall i: nat, v :: IsReadOnly(d, i, v) <==> IsReadOnly(c, i, v);
  }

  // No other page has the frame of a writeable one.
  lemma StoredView(c: Cow, v: nat, offset: nat, value: Byte, i: nat)
    requires Inv(c) && offset < PAGE_SIZE && i < |c.ring|
    requires v in c.ring[0].space && c.ring[0].space[v].writeable && c.ring[0].space[v].frame in c.data
    ensures v in View(c.ring[0], c.data)
    ensures View(c.ring[i], Store(c, v, offset, value).data) ==
              if i == 0 then Written(View(c.ring[0], c.data), v, offset, value) else View(c.ring[i], c.data)
  {
    var g := c.ring[0].space[v].frame;
    assert Maps(c, 0, v, g);
    forall w | w in c.ring[i].space
      ensures c.ring[i].space[w].frame in c.data
      ensures c.ring[i].space[w].frame == g ==> i == 0 && w == v
    {
      assert Maps(c, i, w, c.ring[i].space[w].frame);
    }
  }

  lemma WriteRefines(c: Cow, op: Op)
    requires Inv(c) && op.Write? && Enabled(c, op)
    ensures Inv(Apply(c, op))
    ensures Views(Apply(c, op)) == EagerApply(Views(c), Erase(op))
  {
    TouchMakesWriteable(c, op.page, op.spare);
    TouchRefines(c, op.page, op.spare);
    StoreRefines(Touch(c, op.page, op.spare), op.page, op.offset, op.value);
  }

  /* ---------- switch, exit and kill: the ring of d is a selection from the ring of c ---------- */

  ghost predicate Selects(c: Cow, d: Cow, from: seq<nat>) {
    && |from| == |d.ring| > 0
    && (forall i: nat | i < |from| :: from[i] < |c.ring| && d.ring[i] == c.ring[from[i]])
    && (forall i: nat, j: nat | i < j < |from| :: from[i] != from[j])
  }

  ghost predicate KeepsFrames(c: Cow, d: Cow) {
    forall i: nat, v, f :: Maps(d, i, v, f) && f in c.data ==> f in d.data && d.data[f] == c.data[f]
  }

  lemma SelectionKeepsInv(c: Cow, d: Cow, from: seq<nat>)
    requires Inv(c) && Selects(c, d, from) && KeepsFrames(c, d)
    ensures Inv(d)
    ensures forall i: nat | i < |from| :: Views(d)[i] == Views(c)[from[i]]
  {
    forall i: nat, v, f | Maps(d, i, v, f)
      ensures Maps(c, from[i], v, f) && f in c.data
    {
    }
    SelectionKeepsSharing(c, d, from);
    forall i: nat | i < |from|
      ensures Views(d)[i] == Views(c)[from[i]]
    {
      SelectedView(c, d, from, i);
    }
  }

  lemma SelectedView(c: Cow, d: Cow, from: seq<nat>, i: nat)
    requires Inv(c) && Selects(c, d, from) && KeepsFrames(c, d) && i < |from|
    ensures View(d.ring[i], d.data) == View(c.ring[from[i]], c.data)
  {
    forall v | v in d.ring[i].space
      ensures var f := d.ring[i].space[v].frame; f in c.data && f in d.data && d.data[f] == c.data[f]
    {
      assert Maps(c, from[i], v, d.ring[i].space[v].frame);
      assert Maps(d, i, v, d.ring[i].space[v].frame);
    }
  }

  lemma SelectionKeepsSharing(c: Cow, d: Cow, from: seq<nat>)
    requires SharingIsReadOnly(c) && Selects(c, d, from)
    ensures SharingIsReadOnly(d)
  {
    forall i: nat, v, j: nat, w, f | Maps(d, i, v, f) && Maps(d, j, w, f) && (i != j || v != w)
      ensures i != j && v == w && IsReadOnly(d, i, v) && IsReadOnly(d, j, w)
    {
      assert Maps(c, from[i], v, f) && Maps(c, from[j], w, f);
      assert i != j ==> from[i] != from[j];
    }
  }

  lemma SwitchRefines(c: Cow)
    requires Inv(c)
    ensures var d := c.(ring := Advance(c.ring));
            Inv(d) && Views(d) == Advance(Views(c))
  {
    var d := c.(ring := Advance(c.ring));
    var n := |c.ring|;
    var from: seq<nat> := seq(n, i requires 0 <= i < n => if i < n - 1 then i + 1 else 0);
    SwitchKeepsFrames(c, d);
    SelectionKeepsInv(c, d, from);
  }

  lemma SwitchKeepsFrames(c: Cow, d: Cow)
    requires d.data == c.data
    ensures KeepsFrames(c, d)
  {
  }

  lemma TeardownRefines(c: Cow, i: nat)
    requires Inv(c) && i < |c.ring| && |c.ring| > 1 && SharesOnlyIdentityPages(c, i)
    ensures Inv(Teardown(c, i)) && Views(Teardown(c, i)) == DropAt(Views(c), i)
  {
    var d, from := Teardown(c, i), Survivors(c, i);
    SurvivorsKeepFrames(c, i);
    SelectionKeepsInv(c, d, from);
    assert Views(d) == DropAt(Views(c), i);
  }

  // The places that the survivors had
  ghost function Survivors(c: Cow, i: nat): seq<nat>
    requires i < |c.ring|
  {
    seq(|c.ring| - 1, k requires 0 <= k < |c.ring| - 1 => if k < i then k else k + 1)
  }

  lemma SurvivorsKeepFrames(c: Cow, i: nat)
    requires Inv(c) && i < |c.ring| && |c.ring| > 1 && SharesOnlyIdentityPages(c, i)
    ensures Selects(c, Teardown(c, i), Survivors(c, i)) && KeepsFrames(c, Teardown(c, i))
  {
    var d := Teardown(c, i);
    SurvivorsAreSelected(c, i);
    forall k: nat, v, f | Maps(d, k, v, f)
      ensures f in d.data && d.data[f] == c.data[f]
    {
      SurvivorFrameIsKept(c, i, Survivors(c, i)[k], v, f);
    }
  }

  lemma SurvivorsAreSelected(c: Cow, i: nat)
    requires i < |c.ring| && |c.ring| > 1
    ensures Selects(c, Teardown(c, i), Survivors(c, i))
  {
  }

  lemma SurvivorFrameIsKept(c: Cow, i: nat, j: nat, v: nat, f: nat)
    requires Inv(c) && i < |c.ring| && SharesOnlyIdentityPages(c, i)
    requires j != i && Maps(c, j, v, f)
    ensures f !in Freed(c, i)
  {
    if f in Freed(c, i) {
      var w :| w in c.ring[i].space && !HasIdentitySharer(c, i, f) && c.ring[i].space[w].frame == f;
      assert Maps(c, i, w, f);
    }
  }

  // exit and kill leave the survivors' memory alone exactly when every page the dying task
  // shares happens to carry the number of its own frame.
  lemma TeardownIsSafeExactlyWhen(c: Cow, i: nat)
    requires Inv(c) && i < |c.ring| && |c.ring| > 1
    ensures Inv(Teardown(c, i)) <==> SharesOnlyIdentityPages(c, i)
  {
    if SharesOnlyIdentityPages(c, i) {
      TeardownRefines(c, i);
    } else {
      var v, j: nat, f :| Maps(c, i, v, f) && Maps(c, j, v, f) && j != i && v != PageOf(PageAddress(f));
      SharedFrameIsLost(c, i, v, j, f);
    }
  }

  // A survivor maps a frame that has been given back.
  lemma SharedFrameIsLost(c: Cow, i: nat, v: nat, j: nat, f: nat)
    requires Inv(c) && i < |c.ring| && |c.ring| > 1
    requires Maps(c, i, v, f) && Maps(c, j, v, f) && j != i && v != PageOf(PageAddress(f))
    ensures !EntriesAreUserEntries(Teardown(c, i))
  {
    assert !HasIdentitySharer(c, i, f);
    assert f in Freed(c, i);
    assert Maps(Teardown(c, i), if j < i then j else j - 1, v, f);
  }

  /* ---------- exec ---------- */

  lemma ExecRefines(c: Cow, p: Proc, image: map<nat, Page>)
    requires Inv(c) && ImageIsPrivate(c, p, image)
    ensures var d := Cow(ReplaceRunning(c.ring, p), c.data + image);
            Inv(d) && Views(d) == ReplaceRunning(Views(c), View(p, image))
  {
    var d := Cow(ReplaceRunning(c.ring, p), c.data + image);
    ExecKeepsInv(c, d, p, image);
    var left, right := Views(d), ReplaceRunning(Views(c), View(p, image));
    assert View(d.ring[0], d.data) == View(p, image);
    forall i: nat | 0 < i < |d.ring|
      ensures left[i] == right[i]
    {
      UnchangedView(c, d, if |c.ring| == 1 then 0 else i, i);
    }
  }

  lemma UnchangedView(c: Cow, d: Cow, k: nat, i: nat)
    requires Inv(c) && k < |c.ring| && i < |d.ring| && d.ring[i] == c.ring[k]
    requires forall f | f in c.data :: f in d.data && d.data[f] == c.data[f]
    ensures View(d.ring[i], d.data) == View(c.ring[k], c.data)
  {
    forall v | v in c.ring[k].space
      ensures c.ring[k].space[v].frame in c.data
    {
      assert Maps(c, k, v, c.ring[k].space[v].frame);
    }
  }

  ghost predicate IsNewImage(c: Cow, p: Proc, f: nat, v: nat, i: nat) {
    i == 0 && f !in c.data && v in p.space && p.space[v].frame == f
  }

  ghost predicate IsKept(c: Cow, d: Cow, f: nat, v: nat, i: nat) {
    && i > 0 && i < |d.ring| && v in d.ring[i].space && f in c.data
    && Maps(c, if |c.ring| == 1 then 0 else i, v, f)
    && d.ring[i].space[v] == c.ring[if |c.ring| == 1 then 0 else i].space[v]
  }

  lemma ExecKeepsInv(c: Cow, d: Cow, p: Proc, image: map<nat, Page>)
    requires Inv(c) && ImageIsPrivate(c, p, image)
    requires d == Cow(ReplaceRunning(c.ring, p), c.data + image)
    ensures Inv(d)
  {
    forall i: nat, v, f | Maps(d, i, v, f)
      ensures IsNewImage(c, p, f, v, i) || IsKept(c, d, f, v, i)
    {
    }
    ExecKeepsSharing(c, d, p);
    assert EntriesAreUserEntries(d);
    assert PagesAreCovered(d);
  }

  lemma ExecKeepsSharing(c: Cow, d: Cow, p: Proc)
    requires SharingIsReadOnly(c)
    requires |c.ring| == 1 ==> |d.ring| == 2
    requires forall i: nat, v, f :: Maps(d, i, v, f) ==> IsNewImage(c, p, f, v, i) || IsKept(c, d, f, v, i)
    requires forall v, w | v in p.space && w in p.space && v != w :: p.space[v].frame != p.space[w].frame
    ensures SharingIsReadOnly(d)
  {
  }

  /* ---------- the theorem ---------- */

  /* ---------- malloc ---------- */

  // An area more uncovers no page, and changes no view.
  lemma MallocKeepsInv(c: Cow, a: Vma)
    requires Inv(c) && EmptyAreasAreCovered(c.ring[0].areas + [a])
    ensures Inv(WithArea(c, a))
  {
    var d := WithArea(c, a);
    OneAreaMore(c.ring[0].areas, a);
    SameSpacesKeepInv(c, d);
  }

  lemma MallocKeepsViews(c: Cow, a: Vma)
    requires |c.ring| > 0
    ensures Views(WithArea(c, a)) == Views(c)
  {
    var d := WithArea(c, a);
    forall i | 0 <= i < |c.ring|
      ensures View(d.ring[i], d.data) == View(c.ring[i], c.data)
    {
      assert d.ring[i].space == c.ring[i].space;
    }
  }

  // One step keeps the invariant and does to every task's memory what the eager machine does.
  lemma StepRefines(c: Cow, op: Op)
    requires Inv(c) && Enabled(c, op)
    ensures Inv(Apply(c, op))
    ensures Views(Apply(c, op)) == EagerApply(Views(c), Erase(op))
  {
    match op
    case Fork(copies, added) =>
      ForkKeepsInv(c, copies, added);
      ForkRefines(c, copies, added);
    case Fault(v, spare) =>
      TouchRefines(c, v, spare);
    case Write(_, _, _, _) =>
      WriteRefines(c, op);
    case Switch =>
      SwitchRefines(c);
    case Exec(p, image) =>
      ExecRefines(c, p, image);
    case Exit =>
      TeardownRefines(c, 0);
    case Kill(i) =>
      TeardownRefines(c, i);
    case Malloc(size) =>
      MallocKeepsInv(c, NewArea(c.ring[0].areas, size));
      MallocKeepsViews(c, NewArea(c.ring[0].areas, size));
    case MapPage(v, contents, spare) =>
      FreshPageKeepsInv(c, v, spare, contents);
      FreshPageView(c, v, spare, contents);
  }

  // A run: the operations are enabled one after the other.
  ghost predicate IsRun(c: Cow, ops: seq<Op>)
    requires Inv(c)
    decreases |ops|
  {
    ops == [] || (Enabled(c, ops[0]) && (StepRefines(c, ops[0]); IsRun(Apply(c, ops[0]), ops[1..])))
  }

  ghost function Run(c: Cow, ops: seq<Op>): Cow
    requires Inv(c) && IsRun(c, ops)
    decreases |ops|
  {
    if ops == [] then c else StepRefines(c, ops[0]); Run(Apply(c, ops[0]), ops[1..])
  }

  ghost predicate IsEagerRun(ring: seq<Memory>, ops: seq<EagerOp>)
    decreases |ops|
  {
    ops == [] ||
    (&& |ring| > 0
     && (ops[0].EagerWrite? ==> ops[0].offset < PAGE_SIZE)
     && (ops[0].EagerDrop? ==> ops[0].index < |ring|)
     && IsEagerRun(EagerApply(ring, ops[0]), ops[1..]))
  }

  ghost function EagerRun(ring: seq<Memory>, ops: seq<EagerOp>): seq<Memory>
    requires IsEagerRun(ring, ops)
    decreases |ops|
  {
    if ops == [] then ring else EagerRun(EagerApply(ring, ops[0]), ops[1..])
  }

  ghost function EraseAll(ops: seq<Op>): seq<EagerOp> {
    seq(|ops|, i requires 0 <= i < |ops| => Erase(ops[i]))
  }

  // Copy-on-write fork is indistinguishable from fork by copying, over every run.
  lemma {:induction false} CowForkIsEagerFork(c: Cow, ops: seq<Op>)
    requires Inv(c) && IsRun(c, ops)
    ensures Inv(Run(c, ops))
    ensures IsEagerRun(Views(c), EraseAll(ops))
    ensures Views(Run(c, ops)) == EagerRun(Views(c), EraseAll(ops))
    decreases |ops|
  {
    if ops != [] {
      StepRefines(c, ops[0]);
      CowForkIsEagerFork(Apply(c, ops[0]), ops[1..]);
      assert EraseAll(ops)[1..] == EraseAll(ops[1..]);
    }
  }
}
