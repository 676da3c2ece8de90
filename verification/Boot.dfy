/**
 * The start of the kernel, sys/main.c: the bitmap, the kernel's own page tables, and sbush, the
 * first process.  What it leaves behind is a state of class Kernel.
 */
module Boot {
  import opened PageFormat
  import opened PageTables
  import opened FrameBitmap
  import opened Vmas
  import opened VirtualMemory
  import opened CowMachine
  import opened RunQueue
  import opened ForkMemory
  import opened KernelViews
  import opened Forking
  import opened Execs
  import opened Kernel
  import EagerRefinement

  const PHYS_START: nat := 0x10_0000
  const VGA_ADDRESS: nat := 0xB_8000
  const BITMAP_ROWS: nat := 1024
  // The addresses under slot 511 of a root
  const KERNEL_SLOT: nat := 0xFFFF_FF80_0000_0000

  lemma PageInSlot(x: nat)
    requires KERNEL_SLOT <= x < ADDRESS_LIMIT
    ensures PageOf(x) == x / PAGE_SIZE - 0xFFFF * PAGE_NUMBERS && PageOf(x) >= USER_PAGES
  {
    var q := x / PAGE_SIZE;
    assert q == 0xFFFF * PAGE_NUMBERS + (q - 0xFFFF * PAGE_NUMBERS);
  }

  /* ---------- the kernel's own tables ---------- */

  // n pages from page v on lead to the frames from f on.
  ghost function DirectMap(kernel: map<nat, Entry>, v: nat, f: nat, n: nat): map<nat, Entry> {
    if n == 0 then kernel
    else DirectMap(kernel, v, f, n - 1)[v + n - 1 := Entry(f + n - 1, true, true, false)]
  }

  lemma {:induction false} DirectMapAt(kernel: map<nat, Entry>, v: nat, f: nat, n: nat, w: nat)
    ensures var pages := DirectMap(kernel, v, f, n);
            if v <= w < v + n then w in pages && pages[w] == Entry(f + w - v, true, true, false)
            else (w in pages <==> w in kernel) && (w in pages ==> pages[w] == kernel[w])
  {
    if n > 0 {
      DirectMapAt(kernel, v, f, n - 1, w);
    }
  }

  // How many of the n pages from v on are the first of their last table
  ghost function TableStarts(v: nat, n: nat): nat
    decreases n
  {
    if n == 0 then 0 else TableStarts(v + 1, n - 1) + if v % 512 == 0 then 1 else 0
  }

  lemma {:induction false} TableStartsAreFew(v: nat, n: nat)
    ensures TableStarts(v, n) == (v + n + 511) / 512 - (v + 511) / 512
    decreases n
  {
    if n > 0 {
      TableStartsAreFew(v + 1, n - 1);
    }
  }

  // As many frames as mapping the n pages from v on may take.  No last table but the first is missing
  // at a page that does not start one.
  ghost function TableFrames(v: nat, n: nat, isFirst: bool): nat { 3 * TableStarts(v, n) + if isFirst then 3 else 0 }

  lemma FramesForOnePage(v: nat, n: nat, isFirst: bool)
    requires n > 0
    ensures TableFrames(v, n, isFirst) >= TableFrames(v + 1, n - 1, false)
    ensures isFirst || v % 512 == 0 ==> TableFrames(v, n, isFirst) >= TableFrames(v + 1, n - 1, false) + 3
  {
  }

  // k pages from page v on have been mapped since `base`.
  ghost predicate IsMappingDirectly(base: MemView, view: MemView, v: nat, k: nat) {
    match base
    case MemView(spaces, data, kernel) => view == MemView(spaces, data, DirectMap(kernel, v, PHYS_START / PAGE_SIZE, k))
  }

  lemma MappingGoesOn(base: MemView, view: MemView, root: nat, v: nat, k: nat, w: nat, frame: nat, later: nat)
    requires IsMappingDirectly(base, view, v, k) && v >= USER_PAGES && root in view.spaces
    requires w == v + k && frame == PHYS_START / PAGE_SIZE + k && later == k + 1
    ensures IsMappingDirectly(base, PutPage(view, root, w, Entry(frame, true, true, false)), v, later)
  {
  }

  lemma TableIsThere(base: MemView, view: MemView, v: nat, k: nat)
    requires IsMappingDirectly(base, view, v, k) && k > 0 && (v + k) % 512 != 0
    ensures HasTable(view, v + k)
  {
    DirectMapAt(base.kernel, v, PHYS_START / PAGE_SIZE, k, v + k - 1);
    assert v + k - 1 in view.kernel && LastTable(v + k - 1) == LastTable(v + k);
  }

  // The last page of physical memory that is mapped
  function DirectMapEnd(kernbase: nat, physEnd: nat): int {
    if physEnd > 0xFFFF_FFFF_FFFF_F000 - kernbase then 0xFFFF_FFFF_9000_0000 else kernbase + physEnd
  }

  // The number of steps from address x on up to and with address end
  ghost function StepsUpTo(x: nat, end: int): nat
    decreases end - x
  {
    if x <= end then 1 + StepsUpTo(x + PAGE_SIZE, end) else 0
  }

  // The loop of identityMapping has come to these addresses in k steps, beginning in page v.
  ghost predicate IsStepping(v: nat, end: int, k: nat, x: nat, phys: nat) {
    if k == 0 then KERNEL_SLOT <= x < ADDRESS_LIMIT && x % PAGE_SIZE == 0 && v == PageOf(x) && phys == PHYS_START
    else
      && x - PAGE_SIZE >= 0 && phys - PAGE_SIZE >= 0 && x - PAGE_SIZE <= end
      && IsStepping(v, end, k - 1, x - PAGE_SIZE, phys - PAGE_SIZE)
  }

  lemma {:induction false} SteppingFacts(v: nat, end: int, k: nat, x: nat, phys: nat)
    requires IsStepping(v, end, k, x, phys) && end < ADDRESS_LIMIT - PAGE_SIZE
    ensures KERNEL_SLOT <= x < ADDRESS_LIMIT && x % PAGE_SIZE == 0 && PageOf(x) == v + k && v >= USER_PAGES
    ensures phys / PAGE_SIZE == PHYS_START / PAGE_SIZE + k
    decreases k
  {
    if k > 0 {
      SteppingFacts(v, end, k - 1, x - PAGE_SIZE, phys - PAGE_SIZE);
      PageInSlot(x - PAGE_SIZE);
    }
    PageInSlot(x);
  }

  // One step of identityMapping: page w is next.  `needed` frames are left after it.
  method MapNext(memory: Memory, x: nat, frame: nat, ghost base: MemView, ghost v: nat, ghost k: nat, ghost w: nat,
                 ghost later: nat, ghost needed: nat)
    requires memory.Valid() && v >= USER_PAGES && later == k + 1 && w == v + k
    requires PageOf(x) == w && frame == PHYS_START / PAGE_SIZE + k && IsMappingDirectly(base, memory.View(), v, k)
    requires |memory.state.free| >= 3 && |memory.state.free| >= needed
    requires HasTable(memory.View(), w) || |memory.state.free| >= needed + 3
    modifies memory`state, memory.frames, memory.bitmap.availFrames
    ensures old(memory.KernelIsClosed()) ==> memory.KernelIsClosed()
    ensures memory.Valid() && memory.state.dead == old(memory.state.dead) && |memory.state.free| >= needed
    ensures IsMappingDirectly(base, memory.View(), v, later)
  {
    ghost var view := memory.View();
    memory.MapKernelPage(x, frame);
    MappingGoesOn(base, view, memory.pml4, v, k, w, frame, later);
  }

  // identityMapping, from address first on.  An end in the last page would make the loop wrap around.
  method IdentityMapping(memory: Memory, first: nat, end: int, ghost reserve: nat)
    requires memory.Valid() && KERNEL_SLOT <= first < ADDRESS_LIMIT && first % PAGE_SIZE == 0
    requires end < ADDRESS_LIMIT - PAGE_SIZE
    requires reserve >= 3 && |memory.state.free| >= reserve + TableFrames(PageOf(first), StepsUpTo(first, end), true)
    modifies memory`state, memory.frames, memory.bitmap.availFrames
    ensures old(memory.KernelIsClosed()) ==> memory.KernelIsClosed()
    ensures memory.Valid() && memory.state.dead == old(memory.state.dead) && |memory.state.free| >= reserve
    ensures IsMappingDirectly(old(memory.View()), memory.View(), PageOf(first), StepsUpTo(first, end))
  {
    ghost var base, v, k := memory.View(), PageOf(first), 0;
    var x: nat, phys: nat := first, PHYS_START;
    while x <= end
      invariant memory.Valid() && memory.state.dead == old(memory.state.dead)
      invariant old(memory.KernelIsClosed()) ==> memory.KernelIsClosed()
      invariant IsStepping(v, end, k, x, phys) && k + StepsUpTo(x, end) == StepsUpTo(first, end)
      invariant IsMappingDirectly(base, memory.View(), v, k)
      invariant |memory.state.free| >= FramesFrom(v, k, x, end, reserve)
      decreases end - x
    {
      var next, physNext := x + PAGE_SIZE, phys + PAGE_SIZE;
      ghost var later := k + 1;
      StepIsPaid(base, memory.View(), v, k, x, phys, end, |memory.state.free|, reserve, later, next, physNext);
      MapNext(memory, x, phys / PAGE_SIZE, base, v, k, v + k, later, FramesFrom(v, later, next, end, reserve));
      x, phys, k := next, physNext, later;
    }
  }

  // The frames needed from a step on, and after it
  ghost function FramesFrom(v: nat, k: nat, x: nat, end: int, reserve: nat): nat {
    reserve + TableFrames(v + k, StepsUpTo(x, end), k == 0)
  }

  lemma StepIsPaid(base: MemView, view: MemView, v: nat, k: nat, x: nat, phys: nat, end: int, free: nat, reserve: nat,
                   later: nat, next: nat, physNext: nat)
    requires x <= end < ADDRESS_LIMIT - PAGE_SIZE && reserve >= 3
    requires IsStepping(v, end, k, x, phys) && IsMappingDirectly(base, view, v, k)
    requires free >= FramesFrom(v, k, x, end, reserve)
    requires later == k + 1 && next == x + PAGE_SIZE && physNext == phys + PAGE_SIZE
    ensures v >= USER_PAGES && PageOf(x) == v + k && phys / PAGE_SIZE == PHYS_START / PAGE_SIZE + k
    ensures var needed := FramesFrom(v, later, next, end, reserve);
            free >= 3 && free >= needed && (HasTable(view, v + k) || free >= needed + 3)
    ensures IsStepping(v, end, later, next, physNext)
    ensures k + StepsUpTo(x, end) == later + StepsUpTo(next, end)
  {
    SteppingFacts(v, end, k, x, phys);
    FramesForOnePage(v + k, StepsUpTo(x, end), k == 0);
    if k > 0 && (v + k) % 512 != 0 {
      TableIsThere(base, view, v, k);
    }
  }

  // Where the kernel lies: its first page, the first and the last address of the mapping of physical
  // memory, and the screen
  datatype Layout = Layout(kernmem: nat, first: nat, end: int, vga: nat)

  // kernbase is the difference between virtual and physical addresses of the kernel.
  function LayoutOf(kernmem: nat, kernbase: nat, physEnd: nat): Layout {
    Layout(kernmem, kernbase + PHYS_START, DirectMapEnd(kernbase, physEnd), kernbase + VGA_ADDRESS)
  }

  // The kernel and the mapping lie in the kernel's slot, and the mapping does not end where its loop would wrap around.
  ghost predicate IsMappable(l: Layout) {
    && KERNEL_SLOT <= l.kernmem < ADDRESS_LIMIT
    && KERNEL_SLOT <= l.vga <= l.first < ADDRESS_LIMIT && l.first % PAGE_SIZE == 0
    && l.end < ADDRESS_LIMIT - PAGE_SIZE
  }

  // As many frames as the kernel's own tables may take
  ghost function KernelFrames(l: Layout): nat { 8 + TableFrames(PageOf(l.first), StepsUpTo(l.first, l.end), true) }

  // That is far less than the memory that they map.
  lemma KernelFramesAreFew(l: Layout)
    ensures KernelFrames(l) <= 14 + 3 * (StepsUpTo(l.first, l.end) / 512)
  {
    TableStartsAreFew(PageOf(l.first), StepsUpTo(l.first, l.end));
  }

  // What the kernel's own tables map: physical memory from PHYS_START on, and the screen
  ghost function KernelPages(l: Layout): map<nat, Entry> {
    DirectMap(map[], PageOf(l.first), PHYS_START / PAGE_SIZE, StepsUpTo(l.first, l.end))
      [PageOf(l.vga) := Entry(VGA_ADDRESS / PAGE_SIZE, true, true, false)]
  }

  lemma ScreenIsMapped(base: MemView, view: MemView, root: nat, l: Layout)
    requires IsMappable(l) && base.kernel == map[] && root in view.spaces
    requires IsMappingDirectly(base, view, PageOf(l.first), StepsUpTo(l.first, l.end))
    ensures PutPage(view, root, PageOf(l.vga), Entry(VGA_ADDRESS / PAGE_SIZE, true, true, false)) ==
              base.(kernel := KernelPages(l))
  {
    PageInSlot(l.vga);
  }

  // identityMapping and mapVideoMemory
  method MapPhysicalMemory(memory: Memory, l: Layout, ghost reserve: nat)
    requires memory.Valid() && IsMappable(l) && memory.View().kernel == map[]
    requires |memory.state.free| >= reserve + KernelFrames(l) - 5
    modifies memory`state, memory.frames, memory.bitmap.availFrames
    ensures old(memory.KernelIsClosed()) ==> memory.KernelIsClosed()
    ensures memory.Valid() && memory.state.dead == old(memory.state.dead) && |memory.state.free| >= reserve
    ensures memory.View() == old(memory.View()).(kernel := KernelPages(l))
  {
    ghost var base := memory.View();
    IdentityMapping(memory, l.first, l.end, reserve + 3);
    ghost var view := memory.View();
    memory.MapKernelPage(l.vga, VGA_ADDRESS / PAGE_SIZE);
    ScreenIsMapped(base, view, memory.pml4, l);
  }

  // Memory before its first process: the kernel's address space, and no other
  ghost predicate HasKernelOnly(view: MemView, dead: set<nat>, l: Layout) {
    match view
    case MemView(spaces, _, kernel) =>
      && kernel == KernelPages(l)
      && forall r | r in spaces :: r in dead
  }

  // mapKernelMemory
  method MapKernelMemory(frames: array<Frame>, bitmap: Bitmap, l: Layout, ghost reserve: nat) returns (memory: Memory)
    requires 64 * bitmap.availFrames.Length == frames.Length <= USER_PAGES && 0 !in bitmap.Free()
    requires forall f | f in bitmap.Free() :: f < frames.Length && frames[f].Data?
    requires IsMappable(l) && |bitmap.Free()| >= reserve + KernelFrames(l)
    modifies frames, bitmap.availFrames
    ensures fresh(memory) && memory.frames == frames && memory.bitmap == bitmap && memory.Valid()
    ensures HasKernelOnly(memory.View(), memory.state.dead, l) && memory.KernelIsClosed()
    ensures |memory.state.free| >= reserve
  {
    memory := NewMemory(frames, bitmap, l.kernmem);
    MapPhysicalMemory(memory, l, reserve);
  }

  // The kernel's root, and the tables on the way to the kernel's first page
  method NewMemory(frames: array<Frame>, bitmap: Bitmap, kernmem: nat) returns (memory: Memory)
    requires 64 * bitmap.availFrames.Length == frames.Length <= USER_PAGES && 0 !in bitmap.Free()
    requires forall f | f in bitmap.Free() :: f < frames.Length && frames[f].Data?
    requires |bitmap.Free()| >= 5 && KERNEL_SLOT <= kernmem < ADDRESS_LIMIT
    modifies frames, bitmap.availFrames
    ensures fresh(memory) && memory.frames == frames && memory.bitmap == bitmap && memory.Valid()
    ensures memory.state.dead == {memory.pml4} && memory.View().spaces == map[memory.pml4 := map[]]
    ensures memory.View().kernel == map[] && |old(bitmap.Free())| <= |memory.state.free| + 5
    ensures memory.KernelIsClosed()
  {
    memory := new Memory(frames, bitmap);
    PageInSlot(kernmem);
    memory.MakeTables(kernmem);
  }

  /* ---------- the first process ---------- */

  lemma FirstProcess(view: MemView, after: MemView, dead: set<nat>, sbush: Task, image: map<nat, Page>)
    requires IsProgramBuilt(view, after, sbush.cr3, image) && IsProgram(sbush.areas, image)
    requires sbush.cr3 !in dead && forall r | r in view.spaces :: r in dead
    ensures IsConsistent([sbush], after, dead)
    ensures EagerRefinement.Views(AbsOf([sbush], after)) == [image]
  {
    var c := AbsOf([sbush], after);
    assert sbush.cr3 in Roots([sbush]) by {
      assert [sbush][0] == sbush;
    }
    FirstTaskIsConsistent(sbush, after, dead);
    assert c.ring[0].space == after.spaces[sbush.cr3];
    assert EagerRefinement.View(c.ring[0], c.data) == image;
  }

  // The memory of sbush: its root, its task, its program, its kernel stack and its areas
  method BuildSbush(memory: Memory, areas: seq<Vma>, sections: seq<Section>, ghost reserve: nat)
    returns (root: nat, list: seq<Vma>)
    requires memory.Valid() && |memory.state.free| >= reserve + ProgramFrames(areas, sections)
    requires memory.KernelIsClosed() && AreUserSections(sections)
    modifies memory`state, memory.frames, memory.bitmap.availFrames
    ensures memory.Valid() && memory.state.dead == old(memory.state.dead) && |memory.state.free| >= reserve
    ensures list == areas && root !in memory.state.dead
    ensures IsProgramBuilt(old(memory.View()), memory.View(), root, Loaded(sections))
  {
    ghost var v1, v2 := memory.View(), memory.View();
    root, v2 := LoadProgram(memory, memory.pml4, sections, reserve + |areas| + 2);
    ghost var v3 := memory.View();
    TakeFrame(memory, v3);
    TakeFrame(memory, v3);
    ghost var mid := memory.View();
    list := CopyVma(memory, areas, reserve);
    GrowingTwice(v3, mid, memory.View());
    ProgramInSteps(v1, v1, v2, v3, memory.View(), root, Loaded(sections));
  }

  // The task of sbush, linked to itself
  method EnterSbush(root: nat, areas: seq<Vma>) returns (queue: RunQueue)
    ensures fresh(queue) && IsInOrder(queue) && |queue.ring| == 1 && queue.ring == [queue.running]
    ensures queue.running.pid == 1 && queue.running.areas == areas && queue.running.cr3 == root
    ensures fresh(queue.running) && queue.dead == []
    ensures queue.running.ppid == 0 && IsUntimed(queue.running) && queue.pidCount == 1
  {
    var sbush := new Task(1, 0, root, areas);
    queue := new RunQueue(sbush);
  }

  // The start of a kernel: one process, with this program
  ghost predicate IsFresh(ring: seq<Task>, view: MemView, dead: set<nat>, areas: seq<Vma>, image: map<nat, Page>) {
    && |ring| == 1 && ring[0].pid == 1 && ring[0].ppid == 0 && ring[0].areas == areas
    && IsConsistent(ring, view, dead)
    && EagerRefinement.Views(AbsOf(ring, view)) == [image]
  }

  // initUserProcess
  method InitUserProcess(memory: Memory, ghost l: Layout, areas: seq<Vma>, sections: seq<Section>, ghost reserve: nat)
    returns (kernel: Kernel)
    requires memory.Valid() && |memory.state.free| >= reserve + ProgramFrames(areas, sections)
    requires HasKernelOnly(memory.View(), memory.state.dead, l) && memory.KernelIsClosed()
    requires AreUserSections(sections) && IsProgram(areas, Loaded(sections))
    modifies memory`state, memory.frames, memory.bitmap.availFrames
    ensures fresh(kernel) && fresh(kernel.queue) && kernel.memory == memory && kernel.Valid()
    ensures kernel.queue.dead == [] && forall t | t in kernel.queue.ring :: fresh(t)
    ensures IsFresh(kernel.queue.ring, memory.View(), memory.state.dead, areas, Loaded(sections))
    ensures kernel.queue.running.pid == 1 && kernel.queue.running.ppid == 0 && IsUntimed(kernel.queue.running)
    ensures kernel.queue.pidCount == 1
    ensures memory.View().kernel == KernelPages(l) && |memory.state.free| >= reserve
  {
    ghost var view := memory.View();
    var root, list := BuildSbush(memory, areas, sections, reserve);
    var queue := EnterSbush(root, list);
    assert IsFresh(queue.ring, memory.View(), memory.state.dead, areas, Loaded(sections)) by {
      FirstProcess(view, memory.View(), memory.state.dead, queue.running, Loaded(sections));
    }
    kernel := new Kernel(memory, queue);
  }

  /* ---------- start ---------- */

  // A range of physical memory that may be used
  datatype Range = Range(base: nat, length: nat)

  // initBitmap leaves this frame free for the range.
  ghost predicate IsUsable(f: nat, range: Range, kernelEnd: nat) {
    range.base / 0x1000 <= f <= (range.base + range.length) / 0x1000 && kernelEnd / 0x1000 < f && 256 <= f
  }

  // The frames left free for these ranges
  ghost function UsableFrames(ranges: seq<Range>, kernelEnd: nat): set<nat> {
    if ranges == [] then {}
    else
      var last := ranges[|ranges| - 1];
      UsableFrames(ranges[..|ranges| - 1], kernelEnd) +
      set f: nat | f < 64 * BITMAP_ROWS && IsUsable(f, last, kernelEnd)
  }

  // The loop of start over the memory map
  method FreeMemory(ranges: seq<Range>, kernelEnd: nat) returns (bitmap: Bitmap)
    requires forall i | 0 <= i < |ranges| :: (ranges[i].base + ranges[i].length) / 0x1000 < 64 * BITMAP_ROWS
    ensures fresh(bitmap) && fresh(bitmap.availFrames) && bitmap.availFrames.Length == BITMAP_ROWS
    ensures bitmap.Free() == UsableFrames(ranges, kernelEnd)
    ensures forall f :: f in bitmap.Free() <==>
              && 256 <= f && kernelEnd / 0x1000 < f
              && exists i :: 0 <= i < |ranges| &&
                   ranges[i].base / 0x1000 <= f <= (ranges[i].base + ranges[i].length) / 0x1000
  {
    UsableFramesByRange(ranges, kernelEnd);
    bitmap := new Bitmap(BITMAP_ROWS, kernelEnd);
    for i := 0 to |ranges|
      invariant fresh(bitmap.availFrames) && bitmap.availFrames.Length == BITMAP_ROWS && bitmap.kernelEnd == kernelEnd
      invariant bitmap.Free() == UsableFrames(ranges[..i], kernelEnd) && forall f | f in bitmap.Free() :: f >= 256
    {
      assert ranges[..i + 1][..i] == ranges[..i];
      bitmap.InitBitmap(ranges[i].base, ranges[i].base + ranges[i].length);
    }
    assert ranges[..|ranges|] == ranges;
  }

  lemma {:induction false} UsableFramesByRange(ranges: seq<Range>, kernelEnd: nat)
    requires forall i | 0 <= i < |ranges| :: (ranges[i].base + ranges[i].length) / 0x1000 < 64 * BITMAP_ROWS
    ensures forall f :: f in UsableFrames(ranges, kernelEnd) <==>
              && 256 <= f && kernelEnd / 0x1000 < f
              && exists i :: 0 <= i < |ranges| &&
                   ranges[i].base / 0x1000 <= f <= (ranges[i].base + ranges[i].length) / 0x1000
  {
    if ranges != [] {
      var less, last := ranges[..|ranges| - 1], ranges[|ranges| - 1];
      UsableFramesByRange(less, kernelEnd);
      forall f: nat
        ensures f in UsableFrames(ranges, kernelEnd) <==>
                  f in UsableFrames(less, kernelEnd) || IsUsable(f, last, kernelEnd)
      {
      }
      forall i | 0 <= i < |less|
        ensures less[i] == ranges[i]
      {
      }
    }
  }

  lemma {:induction false} UsableFramesAreInMemory(ranges: seq<Range>, kernelEnd: nat)
    ensures forall f | f in UsableFrames(ranges, kernelEnd) :: 256 <= f < 64 * BITMAP_ROWS
  {
    if ranges != [] {
      UsableFramesAreInMemory(ranges[..|ranges| - 1], kernelEnd);
    }
  }

  // The last range gives the end of memory.
  function PhysEnd(ranges: seq<Range>): nat {
    if ranges == [] then 0 else ranges[|ranges| - 1].base + ranges[|ranges| - 1].length
  }

  lemma {:induction false} StepsBelow(x: nat, end: int, k: nat)
    ensures k < StepsUpTo(x, end) <==> x + k * PAGE_SIZE <= end
    decreases end - x
  {
    if x <= end && k > 0 {
      StepsBelow(x + PAGE_SIZE, end, k - 1);
    }
  }

  // The mapping of physical memory by addresses: frame p / 0x1000 is at kernbase + p, for the aligned p from
  // 0x10_0000 up to and with `top`; the screen is at kernbase + 0xB_8000.
  lemma PagesByAddress(l: Layout, kernbase: nat, top: int, p: nat)
    requires IsMappable(l) && l.first == kernbase + 0x10_0000 && l.vga == kernbase + 0xB_8000 && l.end == kernbase + top
    requires p % 0x1000 == 0 && 0x10_0000 <= p <= top
    ensures PageOf(kernbase + p) in KernelPages(l)
    ensures KernelPages(l)[PageOf(kernbase + p)] == Entry(p / 0x1000, true, true, false)
  {
    var k := p / 0x1000 - 0x100;
    var n, v, w := StepsUpTo(l.first, l.end), PageOf(l.first), PageOf(kernbase + p);
    StepsBelow(l.first, l.end, k);
    PageInSlot(l.first);
    PageInSlot(kernbase + p);
    PageInSlot(l.vga);
    assert kernbase + p == l.first + k * PAGE_SIZE;
    assert w == v + k && PageOf(l.vga) < v;
    DirectMapAt(map[], v, PHYS_START / PAGE_SIZE, n, w);
  }

  // No other page of the kernel's slot is mapped.
  lemma NoOtherPages(l: Layout, kernbase: nat, top: int, w: nat) returns (p: nat)
    requires IsMappable(l) && l.first == kernbase + 0x10_0000 && l.vga == kernbase + 0xB_8000 && l.end == kernbase + top
    requires w in KernelPages(l) && w != PageOf(kernbase + 0xB_8000)
    ensures p % 0x1000 == 0 && 0x10_0000 <= p <= top && PageOf(kernbase + p) == w
  {
    var n, v := StepsUpTo(l.first, l.end), PageOf(l.first);
    DirectMapAt(map[], v, PHYS_START / PAGE_SIZE, n, w);
    var k: nat := w - v;
    p := 0x10_0000 + k * 0x1000;
    StepsBelow(l.first, l.end, k);
    PageInSlot(l.first);
    PageInSlot(kernbase + p);
  }

  // What the start maps, over the boot loader's ranges
  lemma KernelPagesByRanges(kernmem: nat, kernbase: nat, ranges: seq<Range>)
    requires |ranges| > 0 && IsMappable(LayoutOf(kernmem, kernbase, PhysEnd(ranges)))
    ensures var kernel := KernelPages(LayoutOf(kernmem, kernbase, PhysEnd(ranges)));
            var end := ranges[|ranges| - 1].base + ranges[|ranges| - 1].length;
            var top := if end <= 0xFFFF_FFFF_FFFF_F000 - kernbase then end else 0xFFFF_FFFF_9000_0000 - kernbase;
            && PageOf(kernbase + 0xB_8000) in kernel
            && kernel[PageOf(kernbase + 0xB_8000)] == Entry(0xB8, true, true, false)
            && (forall p: nat :: p % 0x1000 == 0 && 0x10_0000 <= p <= top ==>
                 && PageOf(kernbase + p) in kernel
                 && kernel[PageOf(kernbase + p)] == Entry(p / 0x1000, true, true, false))
            && (forall w :: w in kernel && w != PageOf(kernbase + 0xB_8000) ==>
                 exists p: nat :: p % 0x1000 == 0 && 0x10_0000 <= p <= top && PageOf(kernbase + p) == w)
  {
    var l := LayoutOf(kernmem, kernbase, PhysEnd(ranges));
    var top := l.end - kernbase;
    forall p: nat | p % 0x1000 == 0 && 0x10_0000 <= p <= top
      ensures PageOf(kernbase + p) in KernelPages(l)
      ensures KernelPages(l)[PageOf(kernbase + p)] == Entry(p / 0x1000, true, true, false)
    {
      PagesByAddress(l, kernbase, top, p);
    }
    forall w | w in KernelPages(l) && w != PageOf(kernbase + 0xB_8000)
      ensures exists p: nat :: p % 0x1000 == 0 && 0x10_0000 <= p <= top && PageOf(kernbase + p) == w
    {
      var p := NoOtherPages(l, kernbase, top, w);
    }
  }

  // Once the bitmap is there: the kernel's tables, and sbush
  method Launch(frames: array<Frame>, bitmap: Bitmap, l: Layout, areas: seq<Vma>, sections: seq<Section>,
                ghost reserve: nat)
    returns (kernel: Kernel)
    requires 64 * bitmap.availFrames.Length == frames.Length <= USER_PAGES && 0 !in bitmap.Free()
    requires forall f | f in bitmap.Free() :: f < frames.Length && frames[f].Data?
    requires IsMappable(l) && AreUserSections(sections) && IsProgram(areas, Loaded(sections))
    requires |bitmap.Free()| >= reserve + KernelFrames(l) + ProgramFrames(areas, sections)
    modifies frames, bitmap.availFrames
    ensures fresh(kernel) && fresh(kernel.memory) && fresh(kernel.queue) && kernel.Valid()
    ensures kernel.memory.frames == frames && kernel.memory.bitmap == bitmap
    ensures kernel.queue.dead == [] && forall t | t in kernel.queue.ring :: fresh(t)
    ensures IsFresh(kernel.queue.ring, kernel.memory.View(), kernel.memory.state.dead, areas, Loaded(sections))
    ensures kernel.queue.running.pid == 1 && kernel.queue.running.ppid == 0 && IsUntimed(kernel.queue.running)
    ensures kernel.queue.pidCount == 1
    ensures kernel.memory.View().kernel == KernelPages(l) && |kernel.memory.state.free| >= reserve
  {
    var memory := MapKernelMemory(frames, bitmap, l, reserve + ProgramFrames(areas, sections));
    kernel := InitUserProcess(memory, l, areas, sections, reserve);
  }

  // The bitmap covers memory and its ranges, the kernel lies in its slot, and sbush is a program.
  ghost predicate CanStart(frames: nat, ranges: seq<Range>, l: Layout, areas: seq<Vma>, sections: seq<Section>) {
    && frames == 64 * BITMAP_ROWS
    && (forall i | 0 <= i < |ranges| :: (ranges[i].base + ranges[i].length) / 0x1000 < 64 * BITMAP_ROWS)
    && IsMappable(l) && AreUserSections(sections) && IsProgram(areas, Loaded(sections))
  }

  // As many frames as the start may take
  ghost function StartFrames(l: Layout, areas: seq<Vma>, sections: seq<Section>): nat {
    KernelFrames(l) + ProgramFrames(areas, sections)
  }

  // start, as far as memory and processes are concerned.  The ranges come from the boot loader's map, and
  // the program's areas and pages from the archive.
  method Start(frames: array<Frame>, ranges: seq<Range>, kernelEnd: nat, kernmem: nat, kernbase: nat,
               areas: seq<Vma>, sections: seq<Section>, ghost reserve: nat)
    returns (kernel: Kernel)
    requires CanStart(frames.Length, ranges, LayoutOf(kernmem, kernbase, PhysEnd(ranges)), areas, sections)
    requires forall f | 0 <= f < frames.Length :: frames[f].Data?
    requires |UsableFrames(ranges, kernelEnd)| >=
               reserve + StartFrames(LayoutOf(kernmem, kernbase, PhysEnd(ranges)), areas, sections)
    modifies frames
    ensures fresh(kernel) && fresh(kernel.memory) && fresh(kernel.memory.bitmap.availFrames) && fresh(kernel.queue)
    ensures kernel.queue.dead == [] && forall t | t in kernel.queue.ring :: fresh(t)
    ensures kernel.Valid() && kernel.memory.frames == frames && |kernel.memory.state.free| >= reserve
    ensures IsFresh(kernel.queue.ring, kernel.memory.View(), kernel.memory.state.dead, areas, Loaded(sections))
    ensures kernel.queue.running.pid == 1 && kernel.queue.running.ppid == 0 && IsUntimed(kernel.queue.running)
    ensures kernel.queue.pidCount == 1
    ensures kernel.memory.View().kernel == KernelPages(LayoutOf(kernmem, kernbase, PhysEnd(ranges)))
    ensures |ranges| > 0 ==>
              var pages := kernel.memory.View().kernel;
              var end := ranges[|ranges| - 1].base + ranges[|ranges| - 1].length;
              var top := if end <= 0xFFFF_FFFF_FFFF_F000 - kernbase then end else 0xFFFF_FFFF_9000_0000 - kernbase;
              && PageOf(kernbase + 0xB_8000) in pages
              && pages[PageOf(kernbase + 0xB_8000)] == Entry(0xB8, true, true, false)
              && (forall p: nat :: p % 0x1000 == 0 && 0x10_0000 <= p <= top ==>
                   && PageOf(kernbase + p) in pages
                   && pages[PageOf(kernbase + p)] == Entry(p / 0x1000, true, true, false))
              && (forall w :: w in pages && w != PageOf(kernbase + 0xB_8000) ==>
                   exists p: nat :: p % 0x1000 == 0 && 0x10_0000 <= p <= top && PageOf(kernbase + p) == w)
  {
    if |ranges| > 0 {
      KernelPagesByRanges(kernmem, kernbase, ranges);
    }
    var l := LayoutOf(kernmem, kernbase, PhysEnd(ranges));
    UsableFramesAreInMemory(ranges, kernelEnd);
    var bitmap := FreeMemory(ranges, kernelEnd);
    kernel := Launch(frames, bitmap, l, areas, sections, reserve);
  }
}
