/**
 * The virtual memory areas of a task and the pages that the kernel's stepping loops
 * (start = v_start; start < v_end; start += 0x1000) visit.
 */
module Vmas {
  import opened PageFormat

  // A list of areas is a seq; of the source's fields only the bounds take part in what follows.
  datatype Vma = Vma(start: nat, end: nat)

  // The stepping ends without wrapping around 2^64, and the area stays out of the kernel's PML4 slot.
  ghost predicate IsUserVma(a: Vma) {
    && a.end <= ADDRESS_LIMIT - PAGE_SIZE
    && a.start < ADDRESS_LIMIT && PageOf(a.start) < USER_PAGES
    && forall v | v in StepsFrom(a.start, a.end) :: v < USER_PAGES
  }

  // fork treats an area that ends at the stack top as a stack
  predicate IsStack(a: Vma) { a.end == STACK_TOP }

  // The pages visited from address start on.
  ghost function StepsFrom(start: nat, end: nat): set<nat>
    decreases end - start
  {
    if start < end then {PageOf(start)} + StepsFrom(start + PAGE_SIZE, end) else {}
  }

  lemma {:induction false} StepsAreVisits(start: nat, end: nat, v: nat)
    ensures v in StepsFrom(start, end) <==>
              exists k: nat :: start + k * PAGE_SIZE < end && PageOf(start + k * PAGE_SIZE) == v
    decreases end - start
  {
    if start < end {
      StepsAreVisits(start + PAGE_SIZE, end, v);
      if v in StepsFrom(start + PAGE_SIZE, end) {
        var k: nat :| start + PAGE_SIZE + k * PAGE_SIZE < end && PageOf(start + PAGE_SIZE + k * PAGE_SIZE) == v;
        assert start + (k + 1) * PAGE_SIZE < end && PageOf(start + (k + 1) * PAGE_SIZE) == v;
      }
      if v == PageOf(start) {
        assert start + 0 * PAGE_SIZE < end && PageOf(start + 0 * PAGE_SIZE) == v;
      }
      if k: nat :| start + k * PAGE_SIZE < end && PageOf(start + k * PAGE_SIZE) == v && k > 0 {
        var j: nat := k - 1;
        assert start + PAGE_SIZE + j * PAGE_SIZE < end && PageOf(start + PAGE_SIZE + j * PAGE_SIZE) == v;
      }
    }
  }

  // Pages visited in the areas that are not stacks, which fork shares,
  ghost function SharedPages(areas: seq<Vma>): set<nat> {
    if areas == [] then {}
    else SharedPages(areas[..|areas| - 1]) +
         var a := areas[|areas| - 1];
         if IsStack(a) then {} else StepsFrom(a.start, a.end)
  }

  // and in the stacks, which fork copies.
  ghost function StackPages(areas: seq<Vma>): set<nat> {
    if areas == [] then {}
    else StackPages(areas[..|areas| - 1]) +
         var a := areas[|areas| - 1];
         if IsStack(a) then StepsFrom(a.start, a.end) else {}
  }

  ghost function VisitedPages(areas: seq<Vma>): set<nat> { SharedPages(areas) + StackPages(areas) }

  // Fork takes an area for a stack exactly when it ends at 0xFFFF_FF7F_0000_0000.
  lemma {:induction false} PagesByArea(areas: seq<Vma>, v: nat)
    ensures v in SharedPages(areas) <==>
              exists i :: 0 <= i < |areas| && areas[i].end != 0xFFFF_FF7F_0000_0000
                && v in StepsFrom(areas[i].start, areas[i].end)
    ensures v in StackPages(areas) <==>
              exists i :: 0 <= i < |areas| && areas[i].end == 0xFFFF_FF7F_0000_0000
                && v in StepsFrom(areas[i].start, areas[i].end)
  {
    if areas != [] {
      var less, n := areas[..|areas| - 1], |areas| - 1;
      PagesByArea(less, v);
      assert forall i | 0 <= i < n :: areas[i] == less[i];
      assert IsStack(areas[n]) <==> areas[n].end == 0xFFFF_FF7F_0000_0000;
      if v in StepsFrom(areas[n].start, areas[n].end) {
        assert v in StackPages(areas) || v in SharedPages(areas);
      }
    }
  }

  // isPartofCurrentVma: only the first page of an area is accepted
  predicate IsFirstPage(areas: seq<Vma>, v: nat) {
    exists i | 0 <= i < |areas| :: PageOf(areas[i].start) == v
  }

  // An area of no length, as malloc(0) makes one, begins in a page that another area visits.
  ghost predicate EmptyAreasAreCovered(areas: seq<Vma>) {
    forall i | 0 <= i < |areas| && areas[i].start >= areas[i].end :: PageOf(areas[i].start) in VisitedPages(areas)
  }

  lemma {:induction false} FirstPageIsVisited(areas: seq<Vma>, i: nat)
    requires i < |areas| && areas[i].start < areas[i].end
    ensures PageOf(areas[i].start) in VisitedPages(areas)
  {
    if i < |areas| - 1 {
      FirstPageIsVisited(areas[..|areas| - 1], i);
    }
  }

  // The fault handler accepts only pages that the stepping visits, exactly when the empty areas are
  // covered.
  lemma AcceptedPagesAreVisited(areas: seq<Vma>)
    ensures (forall v | IsFirstPage(areas, v) :: v in VisitedPages(areas)) <==> EmptyAreasAreCovered(areas)
  {
    if EmptyAreasAreCovered(areas) {
      forall v | IsFirstPage(areas, v)
        ensures v in VisitedPages(areas)
      {
        var i :| 0 <= i < |areas| && PageOf(areas[i].start) == v;
        if areas[i].start < areas[i].end {
          FirstPageIsVisited(areas, i);
        }
      }
    } else {
      var i :| 0 <= i < |areas| && areas[i].start >= areas[i].end && PageOf(areas[i].start) !in VisitedPages(areas);
      assert IsFirstPage(areas, PageOf(areas[i].start));
    }
  }

  // The largest end of the areas that are not stacks
  function LargestEnd(areas: seq<Vma>): nat {
    if areas == [] then 0
    else
      var a, end := areas[|areas| - 1], LargestEnd(areas[..|areas| - 1]);
      if !IsStack(a) && a.end > end then a.end else end
  }

  // malloc, where no area has been freed: the new area begins at the largest end, but the area at the
  // head of the list is not looked at.
  function NewArea(areas: seq<Vma>, size: nat): Vma {
    var start := if areas == [] then 0 else LargestEnd(areas[1..]);
    Vma(start, start + size)
  }

  lemma {:induction false} LargestEndIsLargest(areas: seq<Vma>)
    ensures forall i | 0 <= i < |areas| && areas[i].end != 0xFFFF_FF7F_0000_0000 :: areas[i].end <= LargestEnd(areas)
    ensures LargestEnd(areas) > 0 ==>
              exists i :: 0 <= i < |areas| && areas[i].end == LargestEnd(areas) && areas[i].end != 0xFFFF_FF7F_0000_0000
  {
    if areas != [] {
      LargestEndIsLargest(areas[..|areas| - 1]);
      var i := |areas| - 1;
      assert LargestEnd(areas) == areas[i].end || LargestEnd(areas) == LargestEnd(areas[..i]);
    }
  }

  // The new area has the size asked for, and lies right behind the areas that are neither stacks nor at the
  // head of the list.
  lemma NewAreaIsBehind(areas: seq<Vma>, size: nat)
    ensures var a := NewArea(areas, size);
            && a.end - a.start == size
            && (forall i | 0 < i < |areas| && areas[i].end != 0xFFFF_FF7F_0000_0000 :: areas[i].end <= a.start)
            && (a.start > 0 ==>
                 exists i :: 0 < i < |areas| && areas[i].end == a.start && areas[i].end != 0xFFFF_FF7F_0000_0000)
  {
    if areas != [] {
      LargestEndIsLargest(areas[1..]);
      assert forall i | 0 < i < |areas| :: areas[i] == areas[1..][i - 1];
      var a := NewArea(areas, size);
      if a.start > 0 {
        var j :| 0 <= j < |areas[1..]| && areas[1..][j].end == a.start && areas[1..][j].end != 0xFFFF_FF7F_0000_0000;
        assert areas[j + 1] == areas[1..][j];
      }
    }
  }

  lemma OneAreaMore(areas: seq<Vma>, a: Vma)
    ensures SharedPages(areas + [a]) == SharedPages(areas) + if IsStack(a) then {} else StepsFrom(a.start, a.end)
    ensures StackPages(areas + [a]) == StackPages(areas) + if IsStack(a) then StepsFrom(a.start, a.end) else {}
    ensures VisitedPages(areas + [a]) == VisitedPages(areas) + StepsFrom(a.start, a.end)
  {
    assert (areas + [a])[..|areas|] == areas;
  }

  // After malloc every area of no length is covered exactly when the new one has a length, or begins in
  // a page that is visited already.
  lemma MallocKeepsCoverExactlyWhen(areas: seq<Vma>, size: nat)
    requires EmptyAreasAreCovered(areas)
    ensures var a := NewArea(areas, size);
            EmptyAreasAreCovered(areas + [a]) <==> size > 0 || PageOf(a.start) in VisitedPages(areas)
  {
    var a := NewArea(areas, size);
    var longer := areas + [a];
    OneAreaMore(areas, a);
    assert longer[|areas|] == a;
    forall i | 0 <= i < |areas|
      ensures longer[i] == areas[i]
    {
    }
  }
}
