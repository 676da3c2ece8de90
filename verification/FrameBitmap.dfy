/**
 * The physical-frame bitmap of sys/phyMemMapper.c: one bit a frame, set when the frame is free.
 * The class is proved to implement a set of free frame numbers.
 */
module FrameBitmap {

  // A row of the bitmap, a 64-bit word.  The three bit operations of the source are written on
  // naturals, bit by bit.
  type Row = x: nat | x < 0x1_0000_0000_0000_0000

  function Pow2(n: nat): nat { if n == 0 then 1 else 2 * Pow2(n - 1) }

  // x & (1 << col), as a truth value
  predicate Has(x: nat, col: nat) {
    if col == 0 then x % 2 == 1 else Has(x / 2, col - 1)
  }

  // x | (1 << col)
  function OrBit(x: nat, col: nat): nat {
    if col == 0 then x / 2 * 2 + 1 else OrBit(x / 2, col - 1) * 2 + x % 2
  }

  // x & ~(1 << col)
  function AndNotBit(x: nat, col: nat): nat {
    if col == 0 then x / 2 * 2 else AndNotBit(x / 2, col - 1) * 2 + x % 2
  }

  // The bit of column c counts 2 to the power of c.
  lemma {:induction false} HasIsTheBit(x: nat, c: nat, high: nat, bit: nat, low: nat)
    requires x == (2 * high + bit) * Pow2(c) + low && bit < 2 && low < Pow2(c)
    ensures Has(x, c) <==> bit == 1
  {
    if c > 0 {
      var half := (2 * high + bit) * Pow2(c - 1);
      assert x == 2 * half + low;
      HasIsTheBit(x / 2, c - 1, high, bit, low / 2);
    }
  }

  lemma {:induction false} OrBitSets(x: nat, c: nat, d: nat)
    ensures Has(OrBit(x, c), d) <==> c == d || Has(x, d)
  {
    if c > 0 && d > 0 {
      OrBitSets(x / 2, c - 1, d - 1);
      assert OrBit(x, c) / 2 == OrBit(x / 2, c - 1);
    } else if c == 0 && d > 0 {
      assert OrBit(x, c) / 2 == x / 2;
    } else if c > 0 {
      assert OrBit(x, c) % 2 == x % 2;
    }
  }

  lemma {:induction false} AndNotBitClears(x: nat, c: nat, d: nat)
    ensures Has(AndNotBit(x, c), d) <==> c != d && Has(x, d)
  {
    if c > 0 && d > 0 {
      AndNotBitClears(x / 2, c - 1, d - 1);
      assert AndNotBit(x, c) / 2 == AndNotBit(x / 2, c - 1);
    } else if c == 0 && d > 0 {
      assert AndNotBit(x, c) / 2 == x / 2;
    } else if c > 0 {
      assert AndNotBit(x, c) % 2 == x % 2;
    }
  }

  lemma {:induction false} BitsStayInTheWord(x: nat, c: nat, n: nat)
    requires x < Pow2(n) && c < n
    ensures OrBit(x, c) < Pow2(n) && AndNotBit(x, c) < Pow2(n)
  {
    if c > 0 {
      BitsStayInTheWord(x / 2, c - 1, n - 1);
    }
  }

  lemma WordLimit()
    ensures Pow2(64) == 0x1_0000_0000_0000_0000
  {
    assert Pow2(8) == 0x100;
    assert Pow2(16) == 0x1_0000;
    assert Pow2(24) == 0x100_0000;
    assert Pow2(32) == 0x1_0000_0000;
    assert Pow2(40) == 0x100_0000_0000;
    assert Pow2(48) == 0x1_0000_0000_0000;
    assert Pow2(56) == 0x100_0000_0000_0000;
  }

  function SetColumn(x: Row, col: nat): (y: Row)
    requires col < 64
    ensures forall d: nat :: Has(y, d) <==> col == d || Has(x, d)
  {
    WordLimit();
    BitsStayInTheWord(x, col, 64);
    assert forall d: nat :: Has(OrBit(x, col), d) <==> col == d || Has(x, d) by {
      forall d: nat { OrBitSets(x, col, d); }
    }
    OrBit(x, col)
  }

  function ClearColumn(x: Row, col: nat): (y: Row)
    requires col < 64
    ensures forall d: nat :: Has(y, d) <==> col != d && Has(x, d)
  {
    WordLimit();
    BitsStayInTheWord(x, col, 64);
    assert forall d: nat :: Has(AndNotBit(x, col), d) <==> col != d && Has(x, d) by {
      forall d: nat { AndNotBitClears(x, col, d); }
    }
    AndNotBit(x, col)
  }

  lemma {:induction false} ZeroRowIsEmpty(c: nat)
    ensures !Has(0, c)
  {
    if c > 0 { ZeroRowIsEmpty(c - 1); }
  }

  predicate Frees(rows: seq<Row>, f: nat) {
    f / 64 < |rows| && Has(rows[f / 64], f % 64)
  }

  // The abstract value of a bitmap: the frame numbers whose bit is set.
  ghost function FreeSet(rows: seq<Row>): set<nat> { FreeBelow(rows, 64 * |rows|) }

  ghost function FreeBelow(rows: seq<Row>, n: nat): set<nat> {
    if n == 0 then {} else FreeBelow(rows, n - 1) + if Frees(rows, n - 1) then {n - 1} else {}
  }

  lemma {:induction false} FreeBelowMembers(rows: seq<Row>, n: nat)
    ensures forall f: nat :: f in FreeBelow(rows, n) <==> f < n && Frees(rows, f)
  {
    if n > 0 { FreeBelowMembers(rows, n - 1); }
  }

  lemma FreeSetMembers(rows: seq<Row>)
    ensures forall f: nat :: f in FreeSet(rows) <==> f < 64 * |rows| && Frees(rows, f)
  {
    FreeBelowMembers(rows, 64 * |rows|);
  }

  lemma SetBitAddsFrame(rows: seq<Row>, f: nat)
    requires f < 64 * |rows|
    ensures FreeSet(rows[f / 64 := SetColumn(rows[f / 64], f % 64)]) == FreeSet(rows) + {f}
  {
    var r := rows[f / 64 := SetColumn(rows[f / 64], f % 64)];
    assert forall g: nat | g < 64 * |rows| :: Frees(r, g) <==> g == f || Frees(rows, g);
    FreeSetMembers(rows);
    FreeSetMembers(r);
  }

  lemma ClearBitRemovesFrame(rows: seq<Row>, f: nat)
    requires f < 64 * |rows|
    ensures FreeSet(rows[f / 64 := ClearColumn(rows[f / 64], f % 64)]) == FreeSet(rows) - {f}
  {
    var r := rows[f / 64 := ClearColumn(rows[f / 64], f % 64)];
    assert forall g: nat | g < 64 * |rows| :: Frees(r, g) <==> g != f && Frees(rows, g);
    FreeSetMembers(rows);
    FreeSetMembers(r);
  }

  ghost predicate IsMinimum(f: nat, s: set<nat>) {
    f in s && forall g | g in s :: f <= g
  }

  class Bitmap {
    const availFrames: array<Row>
    const kernelEnd: nat  // KER_PHYSFREE

    ghost function Free(): set<nat>
      reads availFrames
    {
      FreeSet(availFrames[..])
    }

    constructor (rows: nat, kernelEnd: nat)
      ensures fresh(availFrames) && availFrames.Length == rows && this.kernelEnd == kernelEnd
      ensures Free() == {}
    {
      availFrames := new Row[rows];
      this.kernelEnd := kernelEnd;
      new;
      for i := 0 to rows
        invariant forall k :: 0 <= k < i ==> availFrames[k] == 0
      {
        availFrames[i] := 0;
      }
      forall f: nat | f < 64 * rows
        ensures !Frees(availFrames[..], f)
      {
        ZeroRowIsEmpty(f % 64);
      }
      FreeSetMembers(availFrames[..]);
    }

    method MarkAsFree(frame: nat)
      requires frame < 64 * availFrames.Length
      modifies availFrames
      ensures Free() == old(Free()) + {frame}
    {
      SetBitAddsFrame(availFrames[..], frame);
      var row, col := frame / 64, frame % 64;
      availFrames[row] := SetColumn(availFrames[row], col);
      assert availFrames[..] == old(availFrames[..])[row := SetColumn(old(availFrames[row]), col)];
    }

    method MarkAsUsed(frame: nat)
      requires frame < 64 * availFrames.Length
      modifies availFrames
      ensures Free() == old(Free()) - {frame}
    {
      ClearBitRemovesFrame(availFrames[..], frame);
      var row, col := frame / 64, frame % 64;
      availFrames[row] := ClearColumn(availFrames[row], col);
      assert availFrames[..] == old(availFrames[..])[row := ClearColumn(old(availFrames[row]), col)];
    }

    // Nonzero exactly when the frame is free: the C name says the opposite of what it computes.
    method IsFrameUsed(frame: nat) returns (isFree: bool)
      requires frame < 64 * availFrames.Length
      ensures isFree <==> frame in Free()
    {
      FreeSetMembers(availFrames[..]);
      isFree := Has(availFrames[frame / 64], frame % 64);
    }

    // -1 when no frame is free
    method GetFirstFrame() returns (frame: int)
      ensures frame == -1 <==> Free() == {}
      ensures frame != -1 ==> 0 <= frame < 64 * availFrames.Length && IsMinimum(frame, Free())
      ensures forall g | g in Free() :: 0 <= frame <= g
    {
      FreeSetMembers(availFrames[..]);
      for row := 0 to availFrames.Length
        invariant forall f | f in Free() :: 64 * row <= f
      {
        if availFrames[row] != 0 {
          for col := 0 to 64
            invariant forall f | f in Free() :: 64 * row + col <= f
          {
            if Has(availFrames[row], col) {
              frame := row * 64 + col;
              assert Frees(availFrames[..], frame) && frame in Free();
              return;
            }
            assert !Frees(availFrames[..], 64 * row + col);
          }
        } else {
          forall f | f in Free()
            ensures 64 * (row + 1) <= f
          {
            ZeroRowIsEmpty(f % 64);
          }
        }
      }
      frame := -1;
    }

    // The address of the lowest free frame, which becomes used; NULL (0) when there is none.
    method PageAllocator() returns (address: nat)
      modifies availFrames
      ensures old(Free()) == {} ==> address == 0 && Free() == {}
      ensures old(Free()) != {} ==>
                && address % 0x1000 == 0
                && IsMinimum(address / 0x1000, old(Free()))
                && (forall g | g in old(Free()) :: address / 0x1000 <= g)
                && Free() == old(Free()) - {address / 0x1000}
    {
      var frame := GetFirstFrame();
      if frame == -1 {
        address := 0;
      } else {
        MarkAsUsed(frame);
        address := frame * 0x1000;
      }
    }

    method PageDeAllocator(address: nat)
      requires address / 0x1000 < 64 * availFrames.Length
      modifies availFrames
      ensures Free() == old(Free()) + {address / 0x1000}
    {
      MarkAsFree(address / 0x1000);
    }

    method InitBitmap(start: nat, end: nat)
      requires end / 0x1000 < 64 * availFrames.Length && 256 <= 64 * availFrames.Length
      modifies availFrames
      ensures forall f :: f in Free() <==>
                && 256 <= f
                && (f in old(Free()) || (start / 0x1000 <= f <= end / 0x1000 && kernelEnd / 0x1000 < f))
    {
      var frame, last, limit := start / 0x1000, end / 0x1000, kernelEnd / 0x1000;
      while frame <= last
        invariant start / 0x1000 <= frame && (frame <= last + 1 || frame == start / 0x1000)
        invariant forall f :: f in Free() <==>
                    f in old(Free()) || (start / 0x1000 <= f < frame && limit < f)
      {
        if frame <= limit {
        } else {
          MarkAsFree(frame);
        }
        frame := frame + 1;
      }
      label marked:
      for temp := 0 to 256
        invariant forall f :: f in Free() <==> temp <= f && f in old@marked(Free())
      {
        MarkAsUsed(temp);
      }
    }
  }

  /** Runs of the allocator, over the set that the class implements. */
  datatype Request = Allocate | Release(frame: nat)

  datatype Pool = Pool(free: set<nat>, live: seq<nat>)

  ghost predicate IsServed(p: Pool, r: Request, q: Pool) {
    match r
    case Allocate =>
      exists f :: IsMinimum(f, p.free) && q == Pool(p.free - {f}, p.live + [f])
    case Release(f) =>
      exists i: nat :: i < |p.live| && p.live[i] == f && q == Pool(p.free + {f}, p.live[..i] + p.live[i + 1..])
  }

  ghost predicate IsRun(pools: seq<Pool>, requests: seq<Request>) {
    && |pools| == |requests| + 1
    && forall i: nat | i < |requests| :: IsServed(pools[i], requests[i], pools[i + 1])
  }

  // No live frame is handed out twice, none is free, and none is lost.
  ghost predicate Conserves(p: Pool, frames: set<nat>) {
    && (forall i: nat, j: nat | i < j < |p.live| :: p.live[i] != p.live[j])
    && (forall f :: f in frames <==> f in p.free || f in p.live)
    && (forall f | f in p.live :: f !in p.free)
  }

  lemma {:induction false} LiveFramesAreDistinct(pools: seq<Pool>, requests: seq<Request>, n: nat)
    requires IsRun(pools, requests) && pools[0].live == []
    requires n < |pools|
    ensures Conserves(pools[n], pools[0].free)
  {
    if n > 0 {
      LiveFramesAreDistinct(pools, requests, n - 1);
      ServingConserves(pools[n - 1], requests[n - 1], pools[n], pools[0].free);
    }
  }

  lemma ServingConserves(p: Pool, r: Request, q: Pool, frames: set<nat>)
    requires IsServed(p, r, q) && Conserves(p, frames)
    ensures Conserves(q, frames)
  {
    match r
    case Allocate =>
      var f :| IsMinimum(f, p.free) && q == Pool(p.free - {f}, p.live + [f]);
    case Release(f) =>
      var i: nat :| i < |p.live| && p.live[i] == f && q == Pool(p.free + {f}, p.live[..i] + p.live[i + 1..]);
      WithoutIndex(p.live, i);
  }

  lemma WithoutIndex(s: seq<nat>, i: nat)
    requires i < |s| && forall j: nat, k: nat | j < k < |s| :: s[j] != s[k]
    ensures var t := s[..i] + s[i + 1..];
            && (forall j: nat, k: nat | j < k < |t| :: t[j] != t[k])
            && (forall g :: g in t <==> g in s && g != s[i])
  {
    var t := s[..i] + s[i + 1..];
    forall g | g in s && g != s[i]
      ensures g in t
    {
      var k :| 0 <= k < |s| && s[k] == g;
      assert t[if k < i then k else k - 1] == g;
    }
  }
}
