/**
 * The page-fault handler of sys/idt.c: a zeroed page on demand, the copy-on-write branch with its
 * count of sharers, and what they do at pages of the kernel's slot.
 */
module PageFaults {
  import opened PageFormat
  import opened PageTables
  import opened Vmas
  import opened RingOps
  import opened VirtualMemory
  import opened CowMachine
  import opened RunQueue
  import opened ForkMemory
  import opened KernelViews
  import EagerRefinement

  // A frame from the allocator, mapped and then filled
  method MapFreshPage(memory: Memory, x: nat, root: nat, page: Page) returns (ptr: nat)
    requires memory.Valid() && |memory.state.free| >= 4 && PageOf(x) < USER_PAGES && root in memory.View().spaces
    modifies memory`state, memory.frames, memory.bitmap.availFrames
    ensures memory.Valid() && memory.state.dead == old(memory.state.dead)
    ensures ptr !in old(memory.View()).data && root in old(memory.View()).spaces
    ensures memory.View() == WithCopy(old(memory.View()), root, PageOf(x), ptr, page)
    ensures |old(memory.state.free)| <= |memory.state.free| + 4
  {
    ghost var view := memory.View();
    PageStartIsInThePage(x);
    ptr := memory.AllocatePage();
    ghost var junk := memory.View().data[ptr];
    memory.MapPageForUser(PageStart(x), ptr, root);
    memory.FillPage(ptr, page);
    MapThenFill(view, root, PageOf(x), ptr, junk, page);
  }

  // What a frame holds.  Behind a page of the kernel's slot it may be a table or be free; what is
  // read there is left open.
  method ReadFrame(memory: Memory, frame: nat) returns (page: Page)
    requires memory.Valid()
    ensures frame in memory.View().data ==> page == memory.View().data[frame]
  {
    if frame < memory.frames.Length && memory.frames[frame].Data? {
      page := memory.frames[frame].page;
    } else {
      page := *;
    }
  }

  ghost function WithCopyAt(view: MemView, root: nat, v: nat, f: nat, page: Page): MemView
    requires root in view.spaces
  {
    PutPage(view.(data := view.data[f := page]), root, v, UserEntry(f))
  }

  // A fresh frame f stands at page v, with what frame g held.
  ghost predicate IsCopied(view: MemView, after: MemView, root: nat, v: nat, f: nat, g: nat, page: Page) {
    match view
    case MemView(spaces, data, _) =>
      && root in spaces && f !in data && (g in data ==> page == data[g])
      && after == WithCopyAt(view, root, v, f, page)
  }

  lemma MappedThenFilled(view: MemView, mid: MemView, root: nat, v: nat, f: nat, g: nat, page: Page)
    requires root in view.spaces && f !in view.data && mid == WithZeroPage(view, root, v, f)
    requires g in mid.data ==> page == mid.data[g]
    ensures IsCopied(view, mid.(data := mid.data[f := page]), root, v, f, g, page)
  {
    assert view.data[f := ZeroPage()][f := page] == view.data[f := page];
  }

  // A zeroed frame, mapped and then filled with the contents of another one
  method MapCopy(memory: Memory, x: nat, root: nat, frame: nat) returns (newPage: nat, ghost page: Page)
    requires memory.Valid() && |memory.state.free| >= 4 && root in memory.View().spaces
    modifies memory`state, memory.frames, memory.bitmap.availFrames
    ensures memory.Valid() && memory.state.dead == old(memory.state.dead)
    ensures |old(memory.state.free)| <= |memory.state.free| + 4
    ensures IsCopied(old(memory.View()), memory.View(), root, PageOf(x), newPage, frame, page)
  {
    ghost var view := memory.View();
    newPage := MapZeroPage(memory, x, root);
    ghost var mid := memory.View();
    page := FillFrom(memory, newPage, frame);
    MappedThenFilled(view, mid, root, PageOf(x), newPage, frame, page);
  }

  method FillFrom(memory: Memory, f: nat, frame: nat) returns (ghost contents: Page)
    requires memory.Valid() && f in memory.View().data
    modifies memory`state, memory.frames
    ensures memory.Valid() && memory.state.dead == old(memory.state.dead) && memory.state.free == old(memory.state.free)
    ensures frame in old(memory.View()).data ==> contents == old(memory.View()).data[frame]
    ensures memory.View() == old(memory.View()).(data := old(memory.View()).data[f := contents])
  {
    var page := ReadFrame(memory, frame);
    memory.FillPage(f, page);
    contents := page;
  }

  // The demand-zero branch
  method DemandPage(memory: Memory, x: nat, root: nat, ghost ring: seq<Task>) returns (ghost spare: nat)
    requires memory.Valid() && |memory.state.free| >= 4 && PageOf(x) < USER_PAGES
    requires IsConsistent(ring, memory.View(), memory.state.dead) && |ring| > 0 && root == ring[0].cr3
    requires IsFirstPage(ring[0].areas, PageOf(x)) && PageOf(x) !in SpaceIn(memory.View(), root)
    modifies memory`state, memory.frames, memory.bitmap.availFrames
    ensures memory.Valid() && memory.state.dead == old(memory.state.dead)
    ensures |old(memory.state.free)| <= |memory.state.free| + 4
    ensures IsTouch(ring, old(memory.View()), memory.View(), memory.state.dead, PageOf(x), spare)
  {
    ghost var view, dead := memory.View(), memory.state.dead;
    TaskInView(ring, view, dead, 0);
    spare := MapFreshPage(memory, x, root, ZeroPage());
    DemandIsTouch(ring, view, dead, PageOf(x), spare);
  }

  // Does the walk of address x in this task end at this frame?
  method IsSharer(memory: Memory, task: Task, x: nat, frame: nat) returns (shares: bool)
    requires memory.Valid() && task.cr3 in memory.View().spaces
    ensures shares == Reaches(task, memory.View(), PageOf(x), frame)
  {
    var entry := memory.GetPhysicalPageAddr(x, task.cr3);
    shares := entry.Some? && entry.value != ZERO_ENTRY && entry.value.frame == frame;
  }

  // The loop around the ring from a task of it, in the fault handler and in FreePageEntries: one more
  // than the number of other tasks whose walk of address x ends at this frame
  method CountSharers(memory: Memory, x: nat, task: Task, frame: nat, ghost ring: seq<Task>) returns (pageCount: nat)
    requires memory.Valid() && IsRing(ring) && task == ring[0]
    requires HaveSpaces(ring, memory.View())
    ensures pageCount ==
              1 + TaskCount(ring, memory.View(), |ring|, PageOf(x), frame)
              - TaskCount(ring, memory.View(), 1, PageOf(x), frame)
  {
    ghost var view, v := memory.View(), PageOf(x);
    ghost var self := TaskCount(ring, view, 1, v, frame);
    pageCount := 1;
    var temp := task.next;
    ghost var k := 1;
    NextHop(ring, 0);
    while temp != task
      invariant 1 <= k <= |ring| && temp == Hop(ring, k) && (temp == task <==> k == |ring|)
      invariant pageCount == 1 + TaskCount(ring, view, k, v, frame) - self
      decreases |ring| - k
    {
      SpaceAt(ring, view, k);
      NextHop(ring, k);
      var shares := IsSharer(memory, temp, x, frame);
      if shares {
        pageCount := pageCount + 1;
      }
      temp := temp.next;
      k := k + 1;
    }
  }

  // The walk of page v from the running task ends in entry e.
  ghost predicate EndsIn(ring: seq<Task>, view: MemView, v: nat, e: Entry) {
    match view
    case MemView(spaces, _, _) =>
      && |ring| > 0 && ring[0].cr3 in spaces
      && v in PagesAt(view, ring[0].cr3, v) && PagesAt(view, ring[0].cr3, v)[v] == e
  }

  // A user's write to a present page faults because the page is read-only or in the kernel's slot,
  // whose upper tables are not for users.
  ghost predicate IsProtected(ring: seq<Task>, view: MemView, v: nat, e: Entry) {
    EndsIn(ring, view, v, e) && (v < USER_PAGES ==> !e.writeable)
  }

  // The handler's count of sharers
  ghost function Sharers(ring: seq<Task>, view: MemView, v: nat, e: Entry): nat {
    if v < USER_PAGES then ShareCount(AbsOf(ring, view).ring, v, e.frame) else |ring|
  }

  // The copy-on-write branch at a page of the kernel's slot, in a ring of n tasks: a task that is
  // alone gets the page writeable; else a new frame takes its place, in all address spaces.
  ghost predicate IsKernelFault(n: nat, view: MemView, after: MemView, v: nat, spare: nat) {
    && v in view.kernel
    && if n == 1 then after == view.(kernel := view.kernel[v := view.kernel[v].(writeable := true)])
       else
         && spare !in view.data && spare in after.data
         && (view.kernel[v].frame in view.data ==> after.data[spare] == view.data[view.kernel[v].frame])
         && after == view.(kernel := view.kernel[v := UserEntry(spare)], data := view.data[spare := after.data[spare]])
  }

  // What the handler leaves behind when it resumes the task
  ghost predicate IsResumption(ring: seq<Task>, view: MemView, after: MemView, dead: set<nat>, v: nat, spare: nat) {
    if v < USER_PAGES then IsTouch(ring, view, after, dead, v, spare)
    else IsConsistent(ring, after, dead) && IsKernelFault(|ring|, view, after, v, spare)
  }

  lemma KernelChangeIsConsistent(ring: seq<Task>, view: MemView, after: MemView, dead: set<nat>)
    requires IsConsistent(ring, view, dead) && after.spaces == view.spaces
    requires forall f | f in view.data :: f in after.data
    ensures IsConsistent(ring, after, dead)
  {
    assert forall i | 0 <= i < |ring| :: ProcOf(ring[i], after) == ProcOf(ring[i], view);
    assert AbsOf(ring, after) == AbsOf(ring, view).(data := after.data);
    EagerRefinement.SameSpacesKeepInv(AbsOf(ring, view), AbsOf(ring, after));
    TasksStay(ring, view, after, dead);
  }

  lemma ResolvedInPlace(ring: seq<Task>, view: MemView, dead: set<nat>, v: nat, f: nat, e: Entry)
    requires IsConsistent(ring, view, dead) && f !in view.data && IsProtected(ring, view, v, e)
    requires Sharers(ring, view, v, e) == 1
    ensures IsResumption(ring, view, Marked(view, ring[0].cr3, v, false), dead, v, f)
  {
    if v < USER_PAGES {
      EntriesInView(ring, view, dead, 0);
      UnshareIsTouch(ring, view, dead, v, f, e);
    } else {
      KernelChangeIsConsistent(ring, view, Marked(view, ring[0].cr3, v, false), dead);
    }
  }

  lemma ResolvedByCopy(ring: seq<Task>, view: MemView, after: MemView, dead: set<nat>, v: nat, f: nat, e: Entry,
                       page: Page)
    requires IsConsistent(ring, view, dead) && IsProtected(ring, view, v, e) && Sharers(ring, view, v, e) != 1
    requires IsCopied(view, after, ring[0].cr3, v, f, e.frame, page)
    ensures IsResumption(ring, view, after, dead, v, f)
  {
    if v < USER_PAGES {
      EntriesInView(ring, view, dead, 0);
      CopyIsTouch(ring, view, dead, v, f, e);
    } else {
      KernelChangeIsConsistent(ring, view, after, dead);
    }
  }

  // What follows the count of sharers
  method Resolve(memory: Memory, x: nat, root: nat, frame: nat, pageCount: nat, ghost ring: seq<Task>, ghost e: Entry)
    returns (ghost spare: nat)
    requires memory.Valid() && |memory.state.free| >= 4
    requires IsConsistent(ring, memory.View(), memory.state.dead)
    requires IsProtected(ring, memory.View(), PageOf(x), e) && root == ring[0].cr3 && e.frame == frame
    requires pageCount == Sharers(ring, memory.View(), PageOf(x), e)
    modifies memory`state, memory.frames, memory.bitmap.availFrames
    ensures memory.Valid() && memory.state.dead == old(memory.state.dead)
    ensures |old(memory.state.free)| <= |memory.state.free| + 4
    ensures IsResumption(ring, old(memory.View()), memory.View(), memory.state.dead, PageOf(x), spare)
  {
    ghost var view, dead := memory.View(), memory.state.dead;
    if pageCount == 1 {
      spare := memory.AFreeFrame();
      PageStartIsInThePage(x);
      var result := memory.MarkPageAsRW(PageStart(x), root, false);
      ResolvedInPlace(ring, view, dead, PageOf(x), spare, e);
    } else {
      ghost var page;
      spare, page := MapCopy(memory, x, root, frame);
      ResolvedByCopy(ring, view, memory.View(), dead, PageOf(x), spare, e, page);
    }
  }

  lemma CountIsSharers(ring: seq<Task>, view: MemView, v: nat, e: Entry)
    requires EndsIn(ring, view, v, e)
    ensures 1 + TaskCount(ring, view, |ring|, v, e.frame) - TaskCount(ring, view, 1, v, e.frame) ==
              Sharers(ring, view, v, e)
  {
    assert TaskCount(ring, view, 0, v, e.frame) == 0;
    if v < USER_PAGES {
      CountAll(ring, view, v, e.frame);
    } else {
      AllReachKernelPages(ring, view, |ring|, v);
      AllReachKernelPages(ring, view, 1, v);
    }
  }

  // The entry for the page, and the count of those that share its frame
  method FindSharers(memory: Memory, x: nat, running: Task, ghost ring: seq<Task>, ghost e: Entry)
    returns (frame: nat, pageCount: nat)
    requires memory.Valid() && IsRing(ring) && running == ring[0] && HaveSpaces(ring, memory.View())
    requires EndsIn(ring, memory.View(), PageOf(x), e)
    ensures frame == e.frame && pageCount == Sharers(ring, memory.View(), PageOf(x), e)
  {
    PageStartIsInThePage(x);
    var entry := memory.GetPhysicalPageAddr(PageStart(x), running.cr3);
    frame := entry.value.frame;
    pageCount := CountSharers(memory, PageStart(x), running, frame, ring);
    CountIsSharers(ring, memory.View(), PageOf(x), e);
  }

  // The copy-on-write branch
  method CopyOnWrite(memory: Memory, x: nat, running: Task, ghost ring: seq<Task>, ghost e: Entry)
    returns (ghost spare: nat)
    requires memory.Valid() && |memory.state.free| >= 4
    requires IsConsistent(ring, memory.View(), memory.state.dead) && IsRing(ring) && running == ring[0]
    requires IsProtected(ring, memory.View(), PageOf(x), e)
    modifies memory`state, memory.frames, memory.bitmap.availFrames
    ensures memory.Valid() && memory.state.dead == old(memory.state.dead)
    ensures |old(memory.state.free)| <= |memory.state.free| + 4
    ensures IsResumption(ring, old(memory.View()), memory.View(), memory.state.dead, PageOf(x), spare)
  {
    TasksHaveSpaces(ring, memory.View(), memory.state.dead);
    var frame, pageCount := FindSharers(memory, x, running, ring, e);
    spare := Resolve(memory, x, running.cr3, frame, pageCount, ring, e);
  }

  // The processor lets a user write at address x: all four entries of the walk allow it.
  ghost predicate UserMayWrite(s: State, root: nat, x: nat) {
    var e := Effective(s.mem, root, PathOf(x));
    e.present && e.writeable && e.user
  }

  // The store of a user program, through the walk of the processor
  method StoreByte(memory: Memory, x: nat, root: nat, value: Byte, ghost e: Entry)
    requires memory.Valid() && IsUserRoot(memory.state, root) && UserMayWrite(memory.state, root, x)
    requires e == Effective(memory.state.mem, root, PathOf(x)) && e.frame in memory.View().data
    modifies memory`state, memory.frames
    ensures memory.Valid() && memory.state.dead == old(memory.state.dead)
    ensures memory.View() == old(Stored(memory.View(), e.frame, x % PAGE_SIZE, value))
  {
    var entry := memory.Translate(x, root);
    var page := memory.ReadPage(entry.frame);
    memory.FillPage(entry.frame, page[x % PAGE_SIZE := value]);
  }

  // What the page-fault handler does in the end: resume the task, call exit, or loop forever.
  datatype FaultResult = Resumed | Exits | Hangs

  const STACK_BORDER: nat := 0xFFFF_FF7E_FFFF_5000

  predicate IsFirstPageAt(areas: seq<Vma>, address: nat) {
    exists i | 0 <= i < |areas| :: PageStart(areas[i].start) == PageStart(address)
  }

  // What the handler does, by the faulting address and the error bits
  function Verdict(areas: seq<Vma>, address: nat, errorCode: nat): FaultResult {
    var p, rw, us := errorCode % 2, errorCode / 2 % 2, errorCode / 4 % 2;
    if PageStart(address) == STACK_BORDER || errorCode >= 8 then Exits
    else if rw == 1 && (if p == 0 then IsFirstPageAt(areas, address) else us == 1) then Resumed
    else if us == 0 && p == 0 then Hangs
    else Exits
  }

  lemma SamePageStart(areas: seq<Vma>, address: nat)
    requires IsFirstPageAt(areas, address)
    ensures IsFirstPage(areas, PageOf(address))
  {
    var i :| 0 <= i < |areas| && PageStart(areas[i].start) == PageStart(address);
    PageStartIsInThePage(areas[i].start);
    PageStartIsInThePage(address);
    assert PageOf(areas[i].start) == PageOf(address);
  }

  // The pages that the walk of page v from this task goes through
  ghost function PagesOf(t: Task, view: MemView, v: nat): map<nat, Entry> {
    if v < USER_PAGES then SpaceIn(view, t.cr3) else view.kernel
  }

  // The error bits are those that the processor reports: a page is absent when an entry of its walk
  // is, and a user's write to a present page faults because some entry forbids writing or users.
  ghost predicate IsReported(s: State, root: nat, x: nat, errorCode: nat) {
    && (errorCode % 2 == 0 ==> !Effective(s.mem, root, PathOf(x)).present)
    && (errorCode % 8 == 7 ==> Effective(s.mem, root, PathOf(x)).present && !UserMayWrite(s, root, x))
  }

  ghost function EntryAt(t: Task, view: MemView, v: nat): Entry {
    if v in PagesOf(t, view, v) then PagesOf(t, view, v)[v] else ZERO_ENTRY
  }

  // What the processor finds for the running task, in the view
  lemma RunningEntry(s: State, ring: seq<Task>, x: nat)
    requires WellFormed(s) && IsConsistent(ring, ViewOf(s), s.dead) && |ring| > 0
    ensures IsUserRoot(s, ring[0].cr3)
    ensures var e, v := EntryAt(ring[0], ViewOf(s), PageOf(x)), PageOf(x);
            && Effective(s.mem, ring[0].cr3, PathOf(x)) == (if v < USER_PAGES then e else e.(user := false))
            && (v < USER_PAGES && v in SpaceIn(ViewOf(s), ring[0].cr3) ==>
              e.present && e.user && e.frame in ViewOf(s).data)
  {
    TaskInView(ring, ViewOf(s), s.dead, 0);
    LiveRootsAreUsers(s, ring[0].cr3);
    EffectiveInView(s, ring[0].cr3, x);
    EntriesInView(ring, ViewOf(s), s.dead, 0);
  }

  lemma ReportedAbsent(s: State, ring: seq<Task>, x: nat, errorCode: nat)
    requires WellFormed(s) && IsConsistent(ring, ViewOf(s), s.dead) && |ring| > 0
    requires IsReported(s, ring[0].cr3, x, errorCode) && errorCode % 2 == 0
    ensures PageOf(x) < USER_PAGES ==> PageOf(x) !in SpaceIn(ViewOf(s), ring[0].cr3)
  {
    RunningEntry(s, ring, x);
  }

  lemma ReportedProtected(s: State, ring: seq<Task>, x: nat, errorCode: nat)
    requires WellFormed(s) && IsConsistent(ring, ViewOf(s), s.dead) && |ring| > 0
    requires IsReported(s, ring[0].cr3, x, errorCode)
    requires errorCode % 2 == 1 && errorCode / 2 % 2 == 1 && errorCode / 4 % 2 == 1
    ensures IsProtected(ring, ViewOf(s), PageOf(x), EntryAt(ring[0], ViewOf(s), PageOf(x)))
  {
    ProtectionBits(errorCode);
    ProtectedEntry(s, ring, x);
  }

  lemma ProtectionBits(errorCode: nat)
    requires errorCode % 2 == 1 && errorCode / 2 % 2 == 1 && errorCode / 4 % 2 == 1
    ensures errorCode % 8 == 7
  {
  }

  lemma ProtectedEntry(s: State, ring: seq<Task>, x: nat)
    requires WellFormed(s) && IsConsistent(ring, ViewOf(s), s.dead) && |ring| > 0
    requires Effective(s.mem, ring[0].cr3, PathOf(x)).present && !UserMayWrite(s, ring[0].cr3, x)
    ensures IsProtected(ring, ViewOf(s), PageOf(x), EntryAt(ring[0], ViewOf(s), PageOf(x)))
  {
    RunningEntry(s, ring, x);
    TaskInView(ring, ViewOf(s), s.dead, 0);
  }

  // What the handler leaves behind: outside the kernel's slot, a step of the machine after which the
  // write that has faulted is allowed.
  ghost predicate IsOutcome(result: FaultResult, ring: seq<Task>, view: MemView, s: State, x: nat, spare: nat) {
    match result
    case Resumed =>
      if PageOf(x) < USER_PAGES
      then
        && |ring| > 0 && UserMayWrite(s, ring[0].cr3, x)
        && IsStep(ring, view, s.dead, ring, ViewOf(s), s.dead, Fault(PageOf(x), spare))
      else IsConsistent(ring, ViewOf(s), s.dead) && IsKernelFault(|ring|, view, ViewOf(s), PageOf(x), spare)
    case _ => ViewOf(s) == view
  }

  lemma ResumptionIsOutcome(ring: seq<Task>, view: MemView, s: State, x: nat, spare: nat)
    requires WellFormed(s) && |ring| > 0 && IsResumption(ring, view, ViewOf(s), s.dead, PageOf(x), spare)
    ensures IsOutcome(Resumed, ring, view, s, x, spare)
  {
    if PageOf(x) < USER_PAGES {
      RetryCannotFault(s, ring, view, x, spare);
    }
  }

  // A user's write that is resumed leaves the kernel's pages alone exactly outside the kernel's slot
  // (or where the task is alone and the page writeable already).
  lemma KernelPagesStayExactlyWhen(ring: seq<Task>, view: MemView, s: State, x: nat, spare: nat)
    requires IsOutcome(Resumed, ring, view, s, x, spare)
    requires var v := PageOf(x); v in view.kernel && view.kernel[v].user ==> view.kernel[v].frame in view.data
    ensures var v := PageOf(x);
            ViewOf(s).kernel == view.kernel <==> v < USER_PAGES || (|ring| == 1 && view.kernel[v].writeable)
  {
    var v, after := PageOf(x), ViewOf(s);
    if v >= USER_PAGES {
      assert after.kernel[v] == view.kernel[v] ==> after.kernel == view.kernel;
    }
  }

  const SCREEN_ADDRESS: nat := 0xFFFF_FFFF_800B_8000

  // One of two tasks stores to screen memory, which boot maps for the kernel, not for users.  The task is
  // resumed, and the page now leads to a fresh frame, for the kernel as well.
  lemma UserStoreUnmapsScreen(s: State, ring: seq<Task>, after: State, spare: nat)
    requires WellFormed(s) && IsConsistent(ring, ViewOf(s), s.dead) && |ring| == 2
    requires PageOf(SCREEN_ADDRESS) in ViewOf(s).kernel
    requires ViewOf(s).kernel[PageOf(SCREEN_ADDRESS)] == Entry(0xB8, true, true, false)
    requires IsOutcome(WriteVerdict(ring[0], s, SCREEN_ADDRESS), ring, ViewOf(s), after, SCREEN_ADDRESS, spare)
    ensures IsReported(s, ring[0].cr3, SCREEN_ADDRESS, 7) && WriteVerdict(ring[0], s, SCREEN_ADDRESS) == Resumed
    ensures ViewOf(after).kernel == ViewOf(s).kernel[PageOf(SCREEN_ADDRESS) := UserEntry(spare)]
    ensures ViewOf(after).kernel != ViewOf(s).kernel
  {
    RunningEntry(s, ring, SCREEN_ADDRESS);
    KernelSlotVerdict(s, ring, SCREEN_ADDRESS);
    assert ViewOf(after).kernel[PageOf(SCREEN_ADDRESS)] != ViewOf(s).kernel[PageOf(SCREEN_ADDRESS)];
  }

  // isPartofCurrentVma
  method IsPartOfCurrentVma(areas: seq<Vma>, address: nat) returns (found: bool)
    ensures found <==> exists i :: 0 <= i < |areas| && PageStart(areas[i].start) == address
  {
    for i := 0 to |areas|
      invariant forall k | 0 <= k < i :: PageStart(areas[k].start) != address
    {
      if PageStart(areas[i].start) == address {
        return true;
      }
    }
    return false;
  }

  // No area begins in the kernel's slot.
  lemma AreasBeginBelow(areas: seq<Vma>, address: nat)
    requires AreUserVmas(areas) && IsFirstPageAt(areas, address)
    ensures IsFirstPage(areas, PageOf(address)) && PageOf(address) < USER_PAGES
  {
    SamePageStart(areas, address);
  }

  // The branch for a write to an absent page
  method HandleAbsentPage(memory: Memory, address: nat, us: nat, running: Task, ghost ring: seq<Task>)
    returns (result: FaultResult, ghost spare: nat)
    requires memory.Valid() && |memory.state.free| >= 4
    requires IsConsistent(ring, memory.View(), memory.state.dead) && IsRing(ring) && running == ring[0]
    requires PageOf(address) < USER_PAGES ==> PageOf(address) !in SpaceIn(memory.View(), running.cr3)
    modifies memory`state, memory.frames, memory.bitmap.availFrames
    ensures memory.Valid() && memory.state.dead == old(memory.state.dead)
    ensures |old(memory.state.free)| <= |memory.state.free| + 4
    ensures result == if IsFirstPageAt(running.areas, address) then Resumed else if us == 1 then Exits else Hangs
    ensures IsOutcome(result, ring, old(memory.View()), memory.state, address, spare)
  {
    spare := 0;
    var found := IsPartOfCurrentVma(running.areas, PageStart(address));
    if found {
      TaskInView(ring, memory.View(), memory.state.dead, 0);
      AreasBeginBelow(running.areas, address);
      ghost var view := memory.View();
      spare := DemandPage(memory, address, running.cr3, ring);
      ResumptionIsOutcome(ring, view, memory.state, address, spare);
      result := Resumed;
    } else if us == 1 {
      result := Exits;
    } else {
      result := Hangs;
    }
  }

  // The branch for a user's write to a page that is present
  method HandleProtectedPage(memory: Memory, address: nat, running: Task, ghost ring: seq<Task>)
    returns (ghost spare: nat)
    requires memory.Valid() && |memory.state.free| >= 4
    requires IsConsistent(ring, memory.View(), memory.state.dead) && IsRing(ring) && running == ring[0]
    requires IsProtected(ring, memory.View(), PageOf(address), EntryAt(running, memory.View(), PageOf(address)))
    modifies memory`state, memory.frames, memory.bitmap.availFrames
    ensures memory.Valid() && memory.state.dead == old(memory.state.dead)
    ensures |old(memory.state.free)| <= |memory.state.free| + 4
    ensures IsOutcome(Resumed, ring, old(memory.View()), memory.state, address, spare)
  {
    ghost var view := memory.View();
    spare := CopyOnWrite(memory, address, running, ring, EntryAt(running, view, PageOf(address)));
    ResumptionIsOutcome(ring, view, memory.state, address, spare);
  }

  // By the error code: 2 and 6 are writes of the kernel and of users to a page that is absent, 0 and 4
  // reads, and 7 a user's write to a page that is there.
  lemma VerdictByCode(areas: seq<Vma>, address: nat, errorCode: nat)
    ensures Verdict(areas, address, errorCode) == Resumed <==>
              && PageStart(address) != 0xFFFF_FF7E_FFFF_5000
              && (errorCode == 7
                  || (errorCode in {2, 6}
                      && exists i | 0 <= i < |areas| :: PageStart(areas[i].start) == PageStart(address)))
    ensures Verdict(areas, address, errorCode) == Hangs <==>
              && PageStart(address) != 0xFFFF_FF7E_FFFF_5000
              && errorCode < 8 && errorCode % 2 == 0 && errorCode / 4 % 2 == 0
              && (errorCode / 2 % 2 == 0
                  || forall i | 0 <= i < |areas| :: PageStart(areas[i].start) != PageStart(address))
  {
    CodeBits(errorCode);
  }

  // No fault of a user program hangs the kernel.
  lemma UsersNeverHang(t: Task, s: State, x: nat)
    ensures WriteVerdict(t, s, x) != Hangs
  {
    VerdictByCode(t.areas, x, 6);
    VerdictByCode(t.areas, x, 7);
  }

  lemma CodeBits(errorCode: nat)
    ensures errorCode < 8 ==> errorCode == 4 * (errorCode / 4 % 2) + 2 * (errorCode / 2 % 2) + errorCode % 2
  {
  }

  // The branches of the handler.  The error bits are those of section 8.4.2 of the AMD64 Architecture
  // Programmer's Manual, Volume 2.
  method Respond(memory: Memory, address: nat, errorCode: nat, running: Task, ghost ring: seq<Task>)
    returns (result: FaultResult, ghost spare: nat)
    requires memory.Valid() && |memory.state.free| >= 4
    requires IsConsistent(ring, memory.View(), memory.state.dead) && IsRing(ring) && running == ring[0]
    requires IsReported(memory.state, running.cr3, address, errorCode)
    modifies memory`state, memory.frames, memory.bitmap.availFrames
    ensures memory.Valid() && memory.state.dead == old(memory.state.dead)
    ensures |old(memory.state.free)| <= |memory.state.free| + 4
    ensures result == Verdict(running.areas, address, errorCode)
    ensures IsOutcome(result, ring, old(memory.View()), memory.state, address, spare)
  {
    spare := 0;
    if PageStart(address) == 0xFFFF_FF7E_FFFF_5000 {
      return Exits, 0;
    }
    var p, rw, us, rest := errorCode % 2, errorCode / 2 % 2, errorCode / 4 % 2, errorCode / 8;
    if rest != 0 {
      return Exits, 0;
    }
    if rw == 1 && p == 0 {
      ReportedAbsent(memory.state, ring, address, errorCode);
      result, spare := HandleAbsentPage(memory, address, us, running, ring);
    } else if us == 1 && rw == 1 && p == 1 {
      ReportedProtected(memory.state, ring, address, errorCode);
      spare := HandleProtectedPage(memory, address, running, ring);
      result := Resumed;
    } else if us == 1 && rw == 0 && p == 0 {
      result := Exits;
    } else if us == 0 && rw == 0 && p == 0 {
      result := Hangs;
    } else {
      result := Exits;
    }
  }

  // A page below the kernel's slot that a fault brings into being reads as zeros.
  lemma NewPageIsZero(ring: seq<Task>, view: MemView, s: State, x: nat, spare: nat)
    requires WellFormed(s) && IsOutcome(Resumed, ring, view, s, x, spare)
    requires PageOf(x) < USER_PAGES && PageOf(x) !in SpaceIn(view, ring[0].cr3)
    ensures var f := Effective(s.mem, ring[0].cr3, PathOf(x)).frame;
            f in ViewOf(s).data && forall k | 0 <= k < 0x1000 :: ViewOf(s).data[f][k] == 0
  {
    RetryCannotFault(s, ring, view, x, spare);
    assert AbsOf(ring, view).ring[0].space == SpaceIn(view, ring[0].cr3);
    assert AbsOf(ring, ViewOf(s)).ring[0].space == SpaceIn(ViewOf(s), ring[0].cr3);
    RunningEntry(s, ring, x);
    ZeroPageIsZero();
  }

  // _hndlr_isr14: what the handler does by the address and the error code, and what a new page holds
  method HandleFault(memory: Memory, address: nat, errorCode: nat, running: Task, ghost ring: seq<Task>)
    returns (result: FaultResult, ghost spare: nat)
    requires memory.Valid() && |memory.state.free| >= 4
    requires IsConsistent(ring, memory.View(), memory.state.dead) && IsRing(ring) && running == ring[0]
    requires IsReported(memory.state, running.cr3, address, errorCode)
    modifies memory`state, memory.frames, memory.bitmap.availFrames
    ensures memory.Valid() && IsConsistent(ring, memory.View(), memory.state.dead)
    ensures memory.state.dead == old(memory.state.dead)
    ensures |old(memory.state.free)| <= |memory.state.free| + 4
    ensures result == Verdict(running.areas, address, errorCode)
    ensures result == Resumed <==>
              && PageStart(address) != 0xFFFF_FF7E_FFFF_5000
              && (errorCode == 7
                  || (errorCode in {2, 6}
                      && exists i | 0 <= i < |running.areas| ::
                           PageStart(running.areas[i].start) == PageStart(address)))
    ensures result == Hangs <==>
              && PageStart(address) != 0xFFFF_FF7E_FFFF_5000
              && errorCode < 8 && errorCode % 2 == 0 && errorCode / 4 % 2 == 0
              && (errorCode / 2 % 2 == 0
                  || forall i | 0 <= i < |running.areas| :: PageStart(running.areas[i].start) != PageStart(address))
    ensures IsOutcome(result, ring, old(memory.View()), memory.state, address, spare)
    ensures result == Resumed && PageOf(address) < USER_PAGES &&
            PageOf(address) !in old(SpaceIn(memory.View(), running.cr3)) ==>
              var f := Effective(memory.state.mem, running.cr3, PathOf(address)).frame;
              f in memory.View().data && forall k | 0 <= k < 0x1000 :: memory.View().data[f][k] == 0
  {
    VerdictByCode(running.areas, address, errorCode);
    result, spare := Respond(memory, address, errorCode, running, ring);
    OutcomeIsConsistent(result, ring, old(memory.View()), memory.state, address, spare);
    if result == Resumed && PageOf(address) < USER_PAGES {
      if PageOf(address) !in SpaceIn(old(memory.View()), running.cr3) {
        NewPageIsZero(ring, old(memory.View()), memory.state, address, spare);
      }
    }
  }

  // What becomes of a user write, by what the processor makes of the walk: it reports 6 on an absent
  // page and 7 on one that is not for writing or not for users.
  ghost function WriteVerdict(t: Task, s: State, address: nat): FaultResult {
    if !Effective(s.mem, t.cr3, PathOf(address)).present then Verdict(t.areas, address, 6)
    else if !UserMayWrite(s, t.cr3, address) then Verdict(t.areas, address, 7)
    else Resumed
  }

  // The same verdict, in the view: at the border of the stack every fault ends in exit.
  ghost predicate CanBeWritten(t: Task, view: MemView, x: nat) {
    var space, v := SpaceIn(view, t.cr3), PageOf(x);
    if PageStart(x) == STACK_BORDER then v in space && space[v].writeable
    else v in space || IsFirstPageAt(t.areas, x)
  }

  lemma VerdictInView(s: State, ring: seq<Task>, x: nat)
    requires WellFormed(s) && IsConsistent(ring, ViewOf(s), s.dead) && |ring| > 0 && PageOf(x) < USER_PAGES
    ensures WriteVerdict(ring[0], s, x) == Resumed <==> CanBeWritten(ring[0], ViewOf(s), x)
  {
    WriteVerdicts(ring[0].areas, x);
    RunningEntry(s, ring, x);
  }

  lemma WriteVerdicts(areas: seq<Vma>, x: nat)
    ensures Verdict(areas, x, 6) == Resumed <==> PageStart(x) != STACK_BORDER && IsFirstPageAt(areas, x)
    ensures Verdict(areas, x, 7) == Resumed <==> PageStart(x) != STACK_BORDER
  {
  }

  lemma WriteIsReported(s: State, root: nat, x: nat)
    ensures !Effective(s.mem, root, PathOf(x)).present ==> IsReported(s, root, x, 6)
    ensures Effective(s.mem, root, PathOf(x)).present && !UserMayWrite(s, root, x) ==> IsReported(s, root, x, 7)
  {
  }

  // The access of a user program to a page
  method TouchPage(memory: Memory, address: nat, running: Task, ghost ring: seq<Task>)
    returns (result: FaultResult, ghost spare: nat)
    requires memory.Valid() && |memory.state.free| >= 4
    requires IsConsistent(ring, memory.View(), memory.state.dead) && IsRing(ring) && running == ring[0]
    modifies memory`state, memory.frames, memory.bitmap.availFrames
    ensures memory.Valid() && IsConsistent(ring, memory.View(), memory.state.dead)
    ensures memory.state.dead == old(memory.state.dead)
    ensures |old(memory.state.free)| <= |memory.state.free| + 4
    ensures result == WriteVerdict(running, old(memory.state), address) && result != Hangs
    ensures IsOutcome(result, ring, old(memory.View()), memory.state, address, spare)
  {
    UsersNeverHang(running, memory.state, address);
    TaskInView(ring, memory.View(), memory.state.dead, 0);
    LiveRootsAreUsers(memory.state, running.cr3);
    var entry := memory.Translate(address, running.cr3);
    WriteIsReported(memory.state, running.cr3, address);
    if !entry.present {
      result, spare := HandleFault(memory, address, 6, running, ring);
    } else if !(entry.writeable && entry.user) {
      result, spare := HandleFault(memory, address, 7, running, ring);
    } else {
      spare := memory.AFreeFrame();
      AllowedIsTouch(memory.state, ring, address, spare);
      result := Resumed;
    }
  }

  // A write that the processor allows is to a user's page and needs no change.
  lemma AllowedIsTouch(s: State, ring: seq<Task>, x: nat, spare: nat)
    requires WellFormed(s) && IsConsistent(ring, ViewOf(s), s.dead) && |ring| > 0 && spare !in ViewOf(s).data
    requires UserMayWrite(s, ring[0].cr3, x)
    ensures IsOutcome(Resumed, ring, ViewOf(s), s, x, spare)
  {
    RunningEntry(s, ring, x);
    TaskInView(ring, ViewOf(s), s.dead, 0);
    WriteableIsTouch(ring, ViewOf(s), s.dead, PageOf(x), spare, Effective(s.mem, ring[0].cr3, PathOf(x)));
  }

  // After a fault that has been resumed, outside the kernel's slot, the write cannot fault again: all
  // four entries of the walk allow it.
  lemma RetryCannotFault(s: State, ring: seq<Task>, view: MemView, x: nat, spare: nat)
    requires WellFormed(s) && IsTouch(ring, view, ViewOf(s), s.dead, PageOf(x), spare) && |ring| > 0
    ensures IsUserRoot(s, ring[0].cr3) && UserMayWrite(s, ring[0].cr3, x)
    ensures HasEntry(ring, ViewOf(s), PageOf(x), Effective(s.mem, ring[0].cr3, PathOf(x)))
  {
    TouchGivesEntry(ring, view, ViewOf(s), s.dead, PageOf(x), spare);
    PagesAreUserPages(ring, ViewOf(s), s.dead, PageOf(x));
    RunningEntry(s, ring, x);
  }

  // Mapped pages lie outside the kernel's slot.
  lemma PagesAreUserPages(ring: seq<Task>, view: MemView, dead: set<nat>, v: nat)
    requires IsConsistent(ring, view, dead) && |ring| > 0 && v in SpaceIn(view, ring[0].cr3)
    ensures v < USER_PAGES
  {
    TaskInView(ring, view, dead, 0);
    assert AbsOf(ring, view).ring[0].space.Keys <= VisitedPages(ring[0].areas);
    VisitsAreUserPages(ring[0].areas, v);
  }

  lemma {:induction false} VisitsAreUserPages(areas: seq<Vma>, v: nat)
    requires AreUserVmas(areas) && v in VisitedPages(areas)
    ensures v < USER_PAGES
  {
    if v in StepsFrom(areas[|areas| - 1].start, areas[|areas| - 1].end) {
      assert IsUserVma(areas[|areas| - 1]);
    } else {
      VisitsAreUserPages(areas[..|areas| - 1], v);
    }
  }

  // In the kernel's slot no write of a user succeeds, and one to a mapped page is resumed, again and
  // again.
  lemma KernelSlotVerdict(s: State, ring: seq<Task>, x: nat)
    requires WellFormed(s) && IsConsistent(ring, ViewOf(s), s.dead) && |ring| > 0 && PageOf(x) >= USER_PAGES
    ensures !UserMayWrite(s, ring[0].cr3, x)
    ensures PageOf(x) in ViewOf(s).kernel && ViewOf(s).kernel[PageOf(x)].present ==>
              WriteVerdict(ring[0], s, x) == Resumed
  {
    ProtectionVerdict(ring[0].areas, x);
    RunningEntry(s, ring, x);
  }

  lemma ProtectionVerdict(areas: seq<Vma>, x: nat)
    requires PageOf(x) >= USER_PAGES
    ensures Verdict(areas, x, 7) == Resumed
  {
    PageStartIsInThePage(x);
    assert PageOf(STACK_BORDER) < USER_PAGES;
  }

  // The retried store, after the fault
  method RetryStore(memory: Memory, address: nat, value: Byte, running: Task, ghost ring: seq<Task>,
                    ghost view: MemView, ghost spare: nat)
    requires memory.Valid() && |ring| > 0 && running == ring[0]
    requires IsTouch(ring, view, memory.View(), memory.state.dead, PageOf(address), spare)
    modifies memory`state, memory.frames
    ensures memory.Valid() && memory.state.dead == old(memory.state.dead) && memory.state.free == old(memory.state.free)
    ensures IsStep(ring, view, memory.state.dead, ring, memory.View(), memory.state.dead,
                   Write(PageOf(address), address % PAGE_SIZE, value, spare))
  {
    ghost var mid, dead, v := memory.View(), memory.state.dead, PageOf(address);
    RetryCannotFault(memory.state, ring, view, address, spare);
    ghost var e := Effective(memory.state.mem, running.cr3, PathOf(address));
    StoreByte(memory, address, running.cr3, value, e);
    TouchAndStore(ring, view, mid, dead, v, spare, e, address % PAGE_SIZE, value);
  }

  // A store of one byte by a user program, retried once the handler resumes the task.  In the
  // kernel's slot the retry faults again, and the byte is not stored.
  method WriteByte(memory: Memory, address: nat, value: Byte, running: Task, ghost ring: seq<Task>)
    returns (result: FaultResult, ghost spare: nat)
    requires memory.Valid() && |memory.state.free| >= 4
    requires IsConsistent(ring, memory.View(), memory.state.dead) && IsRing(ring) && running == ring[0]
    modifies memory`state, memory.frames, memory.bitmap.availFrames
    ensures memory.Valid() && memory.state.dead == old(memory.state.dead)
    ensures |old(memory.state.free)| <= |memory.state.free| + 4
    ensures result == WriteVerdict(running, old(memory.state), address)
    ensures IsWriteOutcome(result, ring, old(memory.View()), memory.state, address, value, spare)
  {
    ghost var view := memory.View();
    result, spare := TouchPage(memory, address, running, ring);
    if result == Resumed && PageOf(address) < USER_PAGES {
      RetryStore(memory, address, value, running, ring, view, spare);
      WrittenPageStaysOpen(memory.state, ring, view, address, value, spare);
    }
  }

  // What a user write leaves behind
  ghost predicate IsWriteOutcome(result: FaultResult, ring: seq<Task>, view: MemView, s: State, x: nat, value: Byte,
                                 spare: nat) {
    match result
    case Resumed =>
      if PageOf(x) < USER_PAGES
      then
        && |ring| > 0 && UserMayWrite(s, ring[0].cr3, x)
        && IsStep(ring, view, s.dead, ring, ViewOf(s), s.dead, Write(PageOf(x), x % PAGE_SIZE, value, spare))
      else IsConsistent(ring, ViewOf(s), s.dead) && IsKernelFault(|ring|, view, ViewOf(s), PageOf(x), spare)
    case _ => ViewOf(s) == view
  }

  // The page of a write that has taken place may be written again.
  lemma WrittenPageStaysOpen(s: State, ring: seq<Task>, view: MemView, x: nat, value: Byte, spare: nat)
    requires WellFormed(s) && |ring| > 0
    requires IsStep(ring, view, s.dead, ring, ViewOf(s), s.dead, Write(PageOf(x), x % PAGE_SIZE, value, spare))
    ensures UserMayWrite(s, ring[0].cr3, x)
  {
    TouchMakesWriteable(AbsOf(ring, view), PageOf(x), spare);
    assert AbsOf(ring, ViewOf(s)).ring[0].space == SpaceIn(ViewOf(s), ring[0].cr3);
    PagesAreUserPages(ring, ViewOf(s), s.dead, PageOf(x));
    RunningEntry(s, ring, x);
  }

  // After a user's store the byte is there, and the rest of the page is what it was, or zeros if the page
  // is new.
  ghost predicate IsSeen(root: nat, view: MemView, s: State, x: nat, value: Byte) {
    var f, was := Effective(s.mem, root, PathOf(x)).frame, SpaceIn(view, root);
    && f in ViewOf(s).data && ViewOf(s).data[f][x % 0x1000] == value
    && (PageOf(x) in was ==> was[PageOf(x)].frame in view.data)
    && forall k | 0 <= k < 0x1000 && k != x % 0x1000 ::
         ViewOf(s).data[f][k] == if PageOf(x) in was then view.data[was[PageOf(x)].frame][k] else 0
  }

  lemma WrittenBytes(ring: seq<Task>, view: MemView, s: State, x: nat, value: Byte, spare: nat)
    requires WellFormed(s) && IsWriteOutcome(Resumed, ring, view, s, x, value, spare) && PageOf(x) < USER_PAGES
    ensures IsUserRoot(s, ring[0].cr3) && IsSeen(ring[0].cr3, view, s, x, value)
  {
    WrittenFrame(ring, view, s, x, value, spare);
    ZeroPageIsZero();
  }

  lemma WrittenFrame(ring: seq<Task>, view: MemView, s: State, x: nat, value: Byte, spare: nat)
    requires WellFormed(s) && IsWriteOutcome(Resumed, ring, view, s, x, value, spare) && PageOf(x) < USER_PAGES
    ensures IsUserRoot(s, ring[0].cr3)
    ensures var f, was := Effective(s.mem, ring[0].cr3, PathOf(x)).frame, SpaceIn(view, ring[0].cr3);
            && f in ViewOf(s).data && (PageOf(x) in was ==> was[PageOf(x)].frame in view.data)
            && ViewOf(s).data[f] ==
                 (if PageOf(x) in was then view.data[was[PageOf(x)].frame] else ZeroPage())[x % PAGE_SIZE := value]
  {
    RunningEntry(s, ring, x);
    MachineWrites(AbsOf(ring, view), PageOf(x), x % PAGE_SIZE, value, spare);
    FirstProc(ring, view);
    FirstProc(ring, ViewOf(s));
  }

  lemma FirstProc(ring: seq<Task>, view: MemView)
    requires |ring| > 0
    ensures AbsOf(ring, view).ring[0] == Proc(ring[0].areas, SpaceIn(view, ring[0].cr3))
    ensures |AbsOf(ring, view).ring| == |ring| && AbsOf(ring, view).data == view.data
  {
  }

  lemma MachineWrites(c: Cow, v: nat, offset: nat, value: Byte, spare: nat)
    requires Inv(c) && Enabled(c, Write(v, offset, value, spare))
    ensures var d := Apply(c, Write(v, offset, value, spare));
            && |d.ring| == |c.ring| && v in d.ring[0].space && d.ring[0].space[v].frame in d.data
            && (v in c.ring[0].space ==> c.ring[0].space[v].frame in c.data)
            && var page := d.data[d.ring[0].space[v].frame];
               page == (if v in c.ring[0].space then c.data[c.ring[0].space[v].frame] else ZeroPage())[offset := value]
  {
    if v in c.ring[0].space {
      assert Maps(c, 0, v, c.ring[0].space[v].frame);
    }
    TouchMakesWriteable(c, v, spare);
  }

  lemma OutcomeIsConsistent(result: FaultResult, ring: seq<Task>, view: MemView, s: State, x: nat, spare: nat)
    requires IsConsistent(ring, view, s.dead) && IsOutcome(result, ring, view, s, x, spare)
    ensures IsConsistent(ring, ViewOf(s), s.dead)
  {
  }

  lemma WriteOutcomeIsConsistent(result: FaultResult, ring: seq<Task>, view: MemView, s: State, x: nat, value: Byte,
                                 spare: nat)
    requires IsConsistent(ring, view, s.dead) && IsWriteOutcome(result, ring, view, s, x, value, spare)
    ensures IsConsistent(ring, ViewOf(s), s.dead)
  {
  }

  // The handler for the running task, next to the ring
  method FaultBeside(memory: Memory, queue: RunQueue, address: nat, errorCode: nat)
    returns (result: FaultResult, ghost spare: nat)
    requires memory.Valid() && IsInOrder(queue) && IsConsistent(queue.ring, memory.View(), memory.state.dead)
    requires |memory.state.free| >= 4
    requires IsReported(memory.state, queue.running.cr3, address, errorCode)
    modifies memory`state, memory.frames, memory.bitmap.availFrames
    ensures memory.Valid() && IsInOrder(queue) && IsConsistent(queue.ring, memory.View(), memory.state.dead)
    ensures memory.state.dead == old(memory.state.dead)
    ensures |old(memory.state.free)| <= |memory.state.free| + 4
    ensures result == Verdict(queue.running.areas, address, errorCode)
    ensures IsOutcome(result, queue.ring, old(memory.View()), memory.state, address, spare)
    ensures result == Resumed && PageOf(address) < USER_PAGES &&
            PageOf(address) !in old(SpaceIn(memory.View(), queue.running.cr3)) ==>
              var f := Effective(memory.state.mem, queue.running.cr3, PathOf(address)).frame;
              f in memory.View().data && forall k | 0 <= k < 0x1000 :: memory.View().data[f][k] == 0
  {
    result, spare := HandleFault(memory, address, errorCode, queue.running, queue.ring);
    assert IsInOrder(queue) by {
      QueueStays(queue);
    }
  }

  // A store, and what the page holds after it
  method WriteAndSee(memory: Memory, address: nat, value: Byte, running: Task, ghost ring: seq<Task>)
    returns (result: FaultResult, ghost spare: nat)
    requires memory.Valid() && |memory.state.free| >= 4
    requires IsConsistent(ring, memory.View(), memory.state.dead) && IsRing(ring) && running == ring[0]
    modifies memory`state, memory.frames, memory.bitmap.availFrames
    ensures memory.Valid() && IsConsistent(ring, memory.View(), memory.state.dead)
    ensures memory.state.dead == old(memory.state.dead)
    ensures |old(memory.state.free)| <= |memory.state.free| + 4
    ensures result == WriteVerdict(running, old(memory.state), address) && result != Hangs
    ensures IsWriteOutcome(result, ring, old(memory.View()), memory.state, address, value, spare)
    ensures result == Resumed && PageOf(address) < USER_PAGES ==>
              IsSeen(running.cr3, old(memory.View()), memory.state, address, value)
  {
    UsersNeverHang(running, memory.state, address);
    ghost var view := memory.View();
    result, spare := WriteByte(memory, address, value, running, ring);
    WriteOutcomeIsConsistent(result, ring, view, memory.state, address, value, spare);
    if result == Resumed && PageOf(address) < USER_PAGES {
      WrittenBytes(ring, view, memory.state, address, value, spare);
    }
  }

  // A store by the running task
  method WriteBeside(memory: Memory, queue: RunQueue, address: nat, value: Byte)
    returns (result: FaultResult, ghost spare: nat)
    requires memory.Valid() && IsInOrder(queue) && IsConsistent(queue.ring, memory.View(), memory.state.dead)
    requires |memory.state.free| >= 4
    modifies memory`state, memory.frames, memory.bitmap.availFrames
    ensures memory.Valid() && IsInOrder(queue) && IsConsistent(queue.ring, memory.View(), memory.state.dead)
    ensures memory.state.dead == old(memory.state.dead)
    ensures |old(memory.state.free)| <= |memory.state.free| + 4
    ensures result == WriteVerdict(queue.running, old(memory.state), address) && result != Hangs
    ensures IsWriteOutcome(result, queue.ring, old(memory.View()), memory.state, address, value, spare)
    ensures result == Resumed && PageOf(address) < USER_PAGES ==>
              IsSeen(queue.running.cr3, old(memory.View()), memory.state, address, value)
  {
    result, spare := WriteAndSee(memory, address, value, queue.running, queue.ring);
    assert IsInOrder(queue) by {
      QueueStays(queue);
    }
  }

  // and an access that is not retried yet
  method TouchBeside(memory: Memory, queue: RunQueue, address: nat)
    returns (result: FaultResult, ghost spare: nat)
    requires memory.Valid() && IsInOrder(queue) && IsConsistent(queue.ring, memory.View(), memory.state.dead)
    requires |memory.state.free| >= 4
    modifies memory`state, memory.frames, memory.bitmap.availFrames
    ensures memory.Valid() && IsInOrder(queue) && IsConsistent(queue.ring, memory.View(), memory.state.dead)
    ensures memory.state.dead == old(memory.state.dead)
    ensures |old(memory.state.free)| <= |memory.state.free| + 4
    ensures result == WriteVerdict(queue.running, old(memory.state), address) && result != Hangs
    ensures IsOutcome(result, queue.ring, old(memory.View()), memory.state, address, spare)
  {
    result, spare := TouchPage(memory, address, queue.running, queue.ring);
    assert IsInOrder(queue) by {
      QueueStays(queue);
    }
  }
}
