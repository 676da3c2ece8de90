/**
 * 64-bit words as natural numbers: the index macros and the FRAME mask of include/sys/virtualMemory.h
 * compute, on the number that a word stands for, the quotients and remainders that the tables use.
 */
module Words {
  import opened PageFormat

  // The lowest bit of a word
  function Low(x: bv64): nat { if x & 1 == 1 then 1 else 0 }

  // The number that the n low bits of a word stand for
  function Value(x: bv64, n: nat): nat { if n == 0 then 0 else 2 * Value(x >> 1, n - 1) + Low(x) }

  function Halved(x: bv64, k: nat): bv64 { if k == 0 then x else Halved(x >> 1, k - 1) }

  function Doubled(v: nat, k: nat): nat { if k == 0 then v else 2 * Doubled(v, k - 1) }

  lemma {:induction false} SplitBits(x: bv64, k: nat, n: nat)
    ensures Value(x, k + n) == Doubled(Value(Halved(x, k), n), k) + Value(x, k)
    ensures Value(x, k) < Doubled(1, k)
    decreases k
  {
    if k > 0 {
      SplitBits(x >> 1, k - 1, n);
      UnfoldValue(x, k + n);
      UnfoldValue(x, k);
    }
  }

  lemma UnfoldValue(x: bv64, n: nat)
    requires n > 0
    ensures Value(x, n) == 2 * Value(x >> 1, n - 1) + Low(x)
  {
  }

  lemma {:induction false} ComposeHalves(x: bv64, j: nat, k: nat)
    ensures Halved(x, j + k) == Halved(Halved(x, j), k)
    decreases j
  {
    if j > 0 {
      ComposeHalves(x >> 1, j - 1, k);
    }
  }

  lemma {:induction false} ZeroValue(n: nat)
    ensures Value(0, n) == 0
  {
    if n > 0 {
      UnfoldValue(0, n);
      ZeroValue(n - 1);
    }
  }

  lemma UnfoldHalved(x: bv64, k: nat)
    requires k > 0
    ensures Halved(x, k) == Halved(x >> 1, k - 1)
  {
  }

  lemma ThreeShifts(x: bv64)
    ensures ((x >> 1) >> 1) >> 1 == x >> 3
  {
  }

  lemma Shift3(x: bv64)
    ensures Halved(x, 3) == ((x >> 1) >> 1) >> 1
  {
    UnfoldHalved(x, 3);
    UnfoldHalved(x >> 1, 2);
    UnfoldHalved((x >> 1) >> 1, 1);
  }

  // Three bits further
  lemma ShiftOn(x: bv64, k: nat, y: bv64, later: nat, z: bv64)
    requires Halved(x, k) == y && later == k + 3 && z == y >> 3
    ensures Halved(x, later) == z
  {
    ComposeHalves(x, k, 3);
    Shift3(y);
    ThreeShifts(y);
  }

  lemma ShiftsAdd(x: bv64)
    ensures (x >> 3) >> 3 == x >> 6 && (x >> 6) >> 3 == x >> 9 && (x >> 9) >> 3 == x >> 12
    ensures (x >> 12) >> 3 == x >> 15 && (x >> 15) >> 3 == x >> 18 && (x >> 18) >> 3 == x >> 21
    ensures (x >> 21) >> 3 == x >> 24 && (x >> 24) >> 3 == x >> 27 && (x >> 27) >> 3 == x >> 30
    ensures (x >> 30) >> 3 == x >> 33 && (x >> 33) >> 3 == x >> 36 && (x >> 36) >> 3 == x >> 39
  {
  }

  lemma Shift9(x: bv64, k: nat)
    requires k == 9
    ensures Halved(x, k) == x >> 9
  {
    ShiftsAdd(x);
    ShiftOn(x, 0, x, k - 6, x >> 3);
    ShiftOn(x, k - 6, x >> 3, k - 3, x >> 6);
    ShiftOn(x, k - 3, x >> 6, k, x >> 9);
  }

  lemma Shift12(x: bv64, k: nat)
    requires k == 12
    ensures Halved(x, k) == x >> 12
  {
    ShiftsAdd(x);
    Shift9(x, k - 3);
    ShiftOn(x, k - 3, x >> 9, k, x >> 12);
  }

  lemma Shift21(x: bv64, k: nat)
    requires k == 21
    ensures Halved(x, k) == x >> 21
  {
    ShiftsAdd(x);
    Shift12(x, k - 9);
    ShiftOn(x, k - 9, x >> 12, k - 6, x >> 15);
    ShiftOn(x, k - 6, x >> 15, k - 3, x >> 18);
    ShiftOn(x, k - 3, x >> 18, k, x >> 21);
  }

  lemma Shift30(x: bv64, k: nat)
    requires k == 30
    ensures Halved(x, k) == x >> 30
  {
    ShiftsAdd(x);
    Shift21(x, k - 9);
    ShiftOn(x, k - 9, x >> 21, k - 6, x >> 24);
    ShiftOn(x, k - 6, x >> 24, k - 3, x >> 27);
    ShiftOn(x, k - 3, x >> 27, k, x >> 30);
  }

  lemma Shift39(x: bv64, k: nat)
    requires k == 39
    ensures Halved(x, k) == x >> 39
  {
    ShiftsAdd(x);
    Shift30(x, k - 9);
    ShiftOn(x, k - 9, x >> 30, k - 6, x >> 33);
    ShiftOn(x, k - 6, x >> 33, k - 3, x >> 36);
    ShiftOn(x, k - 3, x >> 36, k, x >> 39);
  }

  lemma ThreeBits(x: bv64)
    ensures Value(x, 3) == 4 * Low((x >> 1) >> 1) + 2 * Low(x >> 1) + Low(x)
  {
    UnfoldValue(x, 3);
    UnfoldValue(x >> 1, 2);
    UnfoldValue((x >> 1) >> 1, 1);
  }

  lemma SameThreeBits(x: bv64, y: bv64)
    requires x & 7 == y & 7
    ensures Value(x, 3) == Value(y, 3)
  {
    ThreeBits(x);
    ThreeBits(y);
    SameLows(x, y);
  }

  lemma SameLows(x: bv64, y: bv64)
    requires x & 7 == y & 7
    ensures Low(x) == Low(y) && Low(x >> 1) == Low(y >> 1) && Low((x >> 1) >> 1) == Low((y >> 1) >> 1)
  {
  }

  lemma {:induction false} DoublingAdds(v: nat, j: nat, k: nat)
    ensures Doubled(v, j + k) == Doubled(Doubled(v, j), k)
    decreases k
  {
    if k > 0 {
      DoublingAdds(v, j, k - 1);
    }
  }

  lemma Doubled3(v: nat, k: nat)
    requires k == 3
    ensures Doubled(v, k) == 8 * v
  {
    assert Doubled(v, k) == 2 * Doubled(v, k - 1);
    assert Doubled(v, k - 1) == 2 * Doubled(v, k - 2);
    assert Doubled(v, k - 2) == 2 * Doubled(v, k - 3);
  }

  lemma Doubled9(v: nat, k: nat)
    requires k == 9
    ensures Doubled(v, k) == 512 * v
  {
    DoublingAdds(v, 6, 3);
    DoublingAdds(v, 3, 3);
    Doubled3(v, k - 6);
    Doubled3(8 * v, k - 6);
    Doubled3(64 * v, k - 6);
  }

  lemma NineBits(x: bv64, k: nat, n: nat)
    requires k == 9
    ensures Value(x, k + n) == 512 * Value(x >> 9, n) + Value(x, k) && Value(x, k) < 512
  {
    SplitBits(x, k, n);
    Shift9(x, k);
    Doubled9(Value(x >> 9, n), k);
    Doubled9(1, k);
  }

  lemma SixBits(x: bv64, k: nat)
    requires k == 3
    ensures Value(x, 3 * k) == 64 * Value((x >> 3) >> 3, k) + 8 * Value(x >> 3, k) + Value(x, k)
  {
    ThreeOn(x, k, 2 * k);
    ThreeOn(x >> 3, k, k);
  }

  lemma ThreeOn(x: bv64, k: nat, n: nat)
    requires k == 3
    ensures Value(x, k + n) == 8 * Value(x >> 3, n) + Value(x, k)
  {
    SplitBits(x, k, n);
    ShiftOn(x, 0, x, k, x >> 3);
    Doubled3(Value(x >> 3, n), k);
  }

  // `& 0x1FF`
  lemma MaskNine(x: bv64, k: nat, n: nat)
    requires k == 9
    ensures Value(x & 0x1FF, k + n) == Value(x, k)
  {
    var y := x & 0x1FF;
    NineBits(y, k, n);
    MaskedBits(x);
    ZeroValue(n);
    SixBits(x, 3);
    SixBits(y, 3);
    SameThreeBits(x, y);
    SameThreeBits(x >> 3, y >> 3);
    SameThreeBits((x >> 3) >> 3, (y >> 3) >> 3);
  }

  lemma MaskedBits(x: bv64)
    ensures var y := x & 0x1FF;
            && y >> 9 == 0 && x & 7 == y & 7 && (x >> 3) & 7 == (y >> 3) & 7
            && ((x >> 3) >> 3) & 7 == ((y >> 3) >> 3) & 7
  {
  }

  // The number that a word stands for
  function Number(x: bv64): nat { Value(x, 64) }

  // Word y is x shifted by k bits, and the next nine bits are asked for.
  lemma ShiftedDigit(x: bv64, k: nat, y: bv64, n: nat)
    requires Halved(x, k) == y && k + 9 + n == 64
    ensures Number(x) == Doubled(Value(y, 9 + n), k) + Value(x, k) && Value(x, k) < Doubled(1, k)
    ensures Number(y & 0x1FF) == Value(y, 9 + n) % 512
  {
    SplitBits(x, k, 9 + n);
    MaskedDigit(y, 9, n);
  }

  lemma MaskedDigit(y: bv64, k: nat, n: nat)
    requires k == 9
    ensures Number(y & 0x1FF) == Value(y, k + n) % 512
  {
    NineBits(y, k, n);
    MaskNine(y, k, 55);
    LastDigit(Value(y >> 9, n), Value(y, k));
  }

  lemma LastDigit(q: nat, r: nat)
    requires r < 512
    ensures (512 * q + r) % 512 == r
  {
  }

  lemma Doubled12(v: nat, k: nat)
    requires k == 12
    ensures Doubled(v, k) == 0x1000 * v
  {
    DoublingAdds(v, k - 3, 3);
    Doubled9(v, k - 3);
    Doubled3(512 * v, 3);
  }

  lemma Doubled21(v: nat, k: nat)
    requires k == 21
    ensures Doubled(v, k) == 0x20_0000 * v
  {
    DoublingAdds(v, k - 9, 9);
    Doubled12(v, k - 9);
    Doubled9(0x1000 * v, 9);
  }

  lemma Doubled30(v: nat, k: nat)
    requires k == 30
    ensures Doubled(v, k) == 0x4000_0000 * v
  {
    DoublingAdds(v, k - 9, 9);
    Doubled21(v, k - 9);
    Doubled9(0x20_0000 * v, 9);
  }

  lemma Doubled39(v: nat, k: nat)
    requires k == 39
    ensures Doubled(v, k) == 0x80_0000_0000 * v
  {
    DoublingAdds(v, k - 9, 9);
    Doubled30(v, k - 9);
    Doubled9(0x4000_0000 * v, 9);
  }

  lemma PtMacro(x: bv64, k: nat)
    requires k == 12
    ensures Number((x >> 12) & 0x1FF) == Number(x) / 0x1000 % 512
  {
    Shift12(x, k);
    ShiftedDigit(x, k, x >> 12, 43);
    Doubled12(Value(x >> 12, 52), k);
    Doubled12(1, k);
  }

  lemma PdtMacro(x: bv64, k: nat)
    requires k == 21
    ensures Number((x >> 21) & 0x1FF) == Number(x) / 0x20_0000 % 512
  {
    Shift21(x, k);
    ShiftedDigit(x, k, x >> 21, 34);
    Doubled21(Value(x >> 21, 43), k);
    Doubled21(1, k);
  }

  lemma PdptMacro(x: bv64, k: nat)
    requires k == 30
    ensures Number((x >> 30) & 0x1FF) == Number(x) / 0x4000_0000 % 512
  {
    Shift30(x, k);
    ShiftedDigit(x, k, x >> 30, 25);
    Doubled30(Value(x >> 30, 34), k);
    Doubled30(1, k);
  }

  lemma Pml4Macro(x: bv64, k: nat)
    requires k == 39
    ensures Number((x >> 39) & 0x1FF) == Number(x) / 0x80_0000_0000 % 512
  {
    Shift39(x, k);
    ShiftedDigit(x, k, x >> 39, 16);
    Doubled39(Value(x >> 39, 25), k);
    Doubled39(1, k);
  }

  // The index macros, on the number that the address stands for
  lemma IndexMacros(x: bv64)
    ensures Number((x >> 39) & 0x1FF) == Pml4Index(Number(x))
    ensures Number((x >> 30) & 0x1FF) == PdptIndex(Number(x))
    ensures Number((x >> 21) & 0x1FF) == PdtIndex(Number(x))
    ensures Number((x >> 12) & 0x1FF) == PtIndex(Number(x))
  {
    Pml4Macro(x, 39);
    PdptMacro(x, 30);
    PdtMacro(x, 21);
    PtMacro(x, 12);
  }

  // `& FRAME`
  lemma FrameMask(x: bv64)
    ensures Number(x & FRAME) == PageStart(Number(x))
  {
    FrameBits(x);
    LowBitsAreZero(x & FRAME, 12);
    TwelveBits(x, 12, x >> 12);
    TwelveBits(x & FRAME, 12, x >> 12);
    PageStartOfSum(Value(x >> 12, 52), Value(x, 12));
  }

  lemma FrameBits(x: bv64)
    ensures (x & FRAME) >> 12 == x >> 12 && (x & FRAME) & 0xFFF == 0
  {
  }

  lemma TwelveBits(x: bv64, k: nat, y: bv64)
    requires k == 12 && y == x >> 12
    ensures Number(x) == 0x1000 * Value(y, 52) + Value(x, k) && Value(x, k) < 0x1000
  {
    SplitBits(x, k, 52);
    Shift12(x, k);
    Doubled12(Value(y, 52), k);
    Doubled12(1, k);
  }

  lemma PageStartOfSum(q: nat, r: nat)
    requires r < 0x1000
    ensures PageStart(0x1000 * q + r) == 0x1000 * q
  {
  }

  lemma LowBitsAreZero(x: bv64, k: nat)
    requires k == 12 && x & 0xFFF == 0
    ensures Value(x, k) == 0
  {
    ZeroAbove(x);
    NineZeros(x >> 3, k - 3);
    ZeroBits(x, k - 9);
    ThreeOn(x, k - 9, k - 3);
  }

  lemma NineZeros(x: bv64, k: nat)
    requires k == 9 && x & 0x1FF == 0
    ensures Value(x, k) == 0
  {
    ZeroAbove9(x);
    SixZeros(x >> 3, k - 3);
    ZeroBits(x, k - 6);
    ThreeOn(x, k - 6, k - 3);
  }

  lemma SixZeros(x: bv64, k: nat)
    requires k == 6 && x & 0x3F == 0
    ensures Value(x, k) == 0
  {
    ZeroAbove6(x);
    ZeroBits(x >> 3, k - 3);
    ZeroBits(x, k - 3);
    ThreeOn(x, k - 3, k - 3);
  }

  lemma ZeroAbove(x: bv64)
    requires x & 0xFFF == 0
    ensures x & 7 == 0 && (x >> 3) & 0x1FF == 0
  {
  }

  lemma ZeroAbove9(x: bv64)
    requires x & 0x1FF == 0
    ensures x & 7 == 0 && (x >> 3) & 0x3F == 0
  {
  }

  lemma ZeroAbove6(x: bv64)
    requires x & 0x3F == 0
    ensures x & 7 == 0 && (x >> 3) & 7 == 0
  {
  }

  lemma ZeroBits(x: bv64, k: nat)
    requires k == 3 && x & 7 == 0
    ensures Value(x, k) == 0
  {
    SameThreeBits(x, 0);
    ZeroValue(k);
  }
}
