/**
 * The page-table format of include/sys/virtualMemory.h: the four index macros, the flag bits and
 * the FRAME mask.  Layout as in the AMD64 Architecture Programmer's Manual, Volume 2,
 * section 5.3 (Long-Mode Page Translation).
 *
 * Addresses are naturals below 2^64, so a shift is a division and a mask a remainder; module Words
 * proves that for the words of the source.
 */
module PageFormat {
  const PAGE_SIZE: nat := 4096
  const ADDRESS_LIMIT: nat := 0x1_0000_0000_0000_0000
  // Number of 48-bit page numbers, and of those reached through PML4 slots 0..510.
  const PAGE_NUMBERS: nat := 0x10_0000_0000
  const USER_PAGES: nat := 511 * 0x800_0000
  const STACK_TOP: nat := 0xFFFF_FF7F_0000_0000

  function Pml4Index(x: nat): nat { x / 0x80_0000_0000 % 512 }
  function PdptIndex(x: nat): nat { x / 0x4000_0000 % 512 }
  function PdtIndex(x: nat): nat { x / 0x20_0000 % 512 }
  function PtIndex(x: nat): nat { x / 0x1000 % 512 }

  // `x & FRAME`
  function PageStart(x: nat): nat { x - x % PAGE_SIZE }

  // The 36-bit number of the virtual page that the walk of an address selects.
  function PageOf(x: nat): (v: nat)
    ensures v < PAGE_NUMBERS
  {
    x / PAGE_SIZE % PAGE_NUMBERS
  }

  // The address of a page number; bits 48..63 do not take part in a walk.
  function PageAddress(v: nat): nat { v * PAGE_SIZE }

  // The four index macros together are injective on page numbers.
  lemma IndicesDetermineThePage(x: nat, y: nat)
    ensures PageOf(x) == PageOf(y) <==>
              && Pml4Index(x) == Pml4Index(y) && PdptIndex(x) == PdptIndex(y)
              && PdtIndex(x) == PdtIndex(y) && PtIndex(x) == PtIndex(y)
  {
    IndicesOfPage(x);
    IndicesOfPage(y);
  }

  lemma IndicesOfPage(x: nat)
    ensures PageOf(x) == ((Pml4Index(x) * 512 + PdptIndex(x)) * 512 + PdtIndex(x)) * 512 + PtIndex(x)
  {
    var q := x / PAGE_SIZE;
    assert x / 0x20_0000 == q / 512;
    assert x / 0x4000_0000 == q / 512 / 512;
    assert x / 0x80_0000_0000 == q / 512 / 512 / 512;
  }

  // The pages below USER_PAGES are exactly those outside the kernel's PML4 slot.
  lemma UserPageSlot(x: nat)
    ensures PageOf(x) < USER_PAGES <==> Pml4Index(x) != 511
  {
    IndicesOfPage(x);
  }

  /** A table entry: the frame number and the three flag bits that the kernel reads or writes. */
  datatype Entry = Entry(frame: nat, present: bool, writeable: bool, user: bool)

  const ZERO_ENTRY := Entry(0, false, false, false)

  // `phy_addr | PRESENT | WRITEABLE | USER` for the address of a frame
  function UserEntry(frame: nat): Entry { Entry(frame, true, true, true) }

  const PRESENT: bv64 := 0x1
  const WRITEABLE: bv64 := 0x2
  const USER: bv64 := 0x4
  const MAKERDONLY: bv64 := 0xFFFF_FFFF_FFFF_FFFD
  const FRAME: bv64 := 0xFFFF_FFFF_FFFF_F000

  // The word of an entry is (a | p | w | u), with a the frame's address and p, w, u its flag bits.
  // The next lemmas say what the record operations of this project (testing `present`, reading
  // `frame`, updating `writeable`) are on that word, and that it is never the walker's -1.
  predicate IsWord(a: bv64, p: bv64, w: bv64, u: bv64) {
    a & !FRAME == 0 && p & PRESENT == p && w & WRITEABLE == w && u & USER == u
  }

  lemma MaskPresent(a: bv64, p: bv64, w: bv64, u: bv64)
    requires IsWord(a, p, w, u)
    ensures (a | p | w | u) & PRESENT == p
  {
  }

  lemma MaskFrame(a: bv64, p: bv64, w: bv64, u: bv64)
    requires IsWord(a, p, w, u)
    ensures (a | p | w | u) & FRAME == a
  {
  }

  lemma SetWriteable(a: bv64, p: bv64, w: bv64, u: bv64)
    requires IsWord(a, p, w, u)
    ensures (a | p | w | u) | WRITEABLE == a | p | WRITEABLE | u
  {
  }

  lemma ClearWriteable(a: bv64, p: bv64, w: bv64, u: bv64)
    requires IsWord(a, p, w, u)
    ensures (a | p | w | u) & MAKERDONLY == a | p | 0 | u
  {
  }

  lemma NeverMinusOne(a: bv64, p: bv64, w: bv64, u: bv64)
    requires IsWord(a, p, w, u)
    ensures (a | p | w | u) != 0xFFFF_FFFF_FFFF_FFFF
  {
  }

  // The contents of a frame that is not a table.
  type Byte = bv8

  type Page = s: seq<Byte> | |s| == PAGE_SIZE witness seq(PAGE_SIZE, _ => 0)

  function ZeroPage(): Page { seq(PAGE_SIZE, _ => 0) }

  lemma ZeroPageIsZero()
    ensures forall k | 0 <= k < 0x1000 :: ZeroPage()[k] == 0
  {
  }

  /** The four table indices that a walk uses. */
  datatype Path = Path(pml4: nat, pdpt: nat, pdt: nat, pt: nat)

  function PathOf(x: nat): (p: Path)
    ensures p.pml4 < 512 && p.pdpt < 512 && p.pdt < 512 && p.pt < 512
  {
    Path(Pml4Index(x), PdptIndex(x), PdtIndex(x), PtIndex(x))
  }

  lemma PathIsThePage(x: nat, y: nat)
    ensures PathOf(x) == PathOf(y) <==> PageOf(x) == PageOf(y)
  {
    IndicesDetermineThePage(x, y);
  }

  function PathOfPage(v: nat): Path { PathOf(PageAddress(v)) }

  lemma PathOfPageIsThePage(v: nat, x: nat)
    requires v < PAGE_NUMBERS
    ensures PathOf(x) == PathOfPage(v) <==> PageOf(x) == v
    ensures (PathOf(x).pml4 < 511) == (PageOf(x) < USER_PAGES)
    ensures (PathOfPage(v).pml4 < 511) == (v < USER_PAGES)
  {
    PathIsThePage(x, PageAddress(v));
    UserPageSlot(x);
    UserPageSlot(PageAddress(v));
  }

  function PageNumber(p: Path): nat { ((p.pml4 * 512 + p.pdpt) * 512 + p.pdt) * 512 + p.pt }

  lemma LowDigit(a: nat, b: nat)
    requires b < 512
    ensures (a * 512 + b) / 512 == a && (a * 512 + b) % 512 == b
  {
  }

  lemma PageNumberBounds(p: Path)
    requires p.pml4 < 512 && p.pdpt < 512 && p.pdt < 512 && p.pt < 512
    ensures PageNumber(p) < PAGE_NUMBERS
    ensures p.pml4 < 511 ==> PageNumber(p) < USER_PAGES
  {
  }

  lemma PathOfPageNumber(p: Path)
    requires p.pml4 < 512 && p.pdpt < 512 && p.pdt < 512 && p.pt < 512
    ensures PathOfPage(PageNumber(p)) == p
  {
    var a := p.pml4 * 512 + p.pdpt;
    var b := a * 512 + p.pdt;
    var c := b * 512 + p.pt;
    LowDigit(p.pml4, p.pdpt);
    LowDigit(a, p.pdt);
    LowDigit(b, p.pt);
    PathOfDigits(c, b, a, p.pml4);
  }

  // The path of a page number whose leading digits are given
  lemma PathOfDigits(c: nat, b: nat, a: nat, top: nat)
    requires c / 512 == b && b / 512 == a && a / 512 == top && top < 512
    ensures PathOfPage(c) == Path(top, a % 512, b % 512, c % 512)
  {
    PageAddressDigits(c);
  }

  lemma PageAddressDigits(v: nat)
    ensures PathOfPage(v) == Path(v / 512 / 512 / 512 % 512, v / 512 / 512 % 512, v / 512 % 512, v % 512)
  {
    var x := PageAddress(v);
    assert x / 0x1000 == v;
    assert x / 0x20_0000 == v / 512;
    assert x / 0x4000_0000 == v / 512 / 512;
    assert x / 0x80_0000_0000 == v / 512 / 512 / 512;
  }
}
