/**
 * The archive walk of sys/tarfs.c: octal sizes, contents padded to 512 bytes, and the lookup of a
 * file or a directory by name.  The layout is the ustar Interchange Format of the POSIX.1 pax utility.
 */
module Tarfs {
  import opened CStrings

  /* ---------- octal numbers ---------- */

  // int is 32 bits wide; a larger size would overflow.
  const INT_LIMIT: nat := 0x8000_0000

  predicate AreOctalDigits(text: string) { forall i | 0 <= i < |text| :: '0' <= text[i] <= '7' }

  function DigitValue(c: char): int { c as int - '0' as int }

  function OctalValue(text: string): int {
    if text == "" then 0 else OctalValue(text[..|text| - 1]) * 8 + DigitValue(text[|text| - 1])
  }

  lemma {:induction false} PrefixIsSmaller(text: string, n: nat)
    requires AreOctalDigits(text) && n <= |text|
    ensures 0 <= OctalValue(text[..n]) <= OctalValue(text)
    decreases |text|
  {
    if n < |text| {
      PrefixIsSmaller(text[..|text| - 1], n);
      assert text[..|text| - 1][..n] == text[..n];
    } else {
      assert text[..n] == text;
      if n > 0 {
        PrefixIsSmaller(text[..n - 1], n - 1);
      }
    }
  }

  method ToInteger(s: seq<char>, ghost text: string) returns (num: int)
    requires IsCString(s, text) && AreOctalDigits(text) && OctalValue(text) < INT_LIMIT
    ensures num == OctalValue(text) && 0 <= num < INT_LIMIT
  {
    var i := 0;
    num := 0;
    CStringAt(s, text, 0);
    while s[i] != '\0'
      invariant i <= |text| && i < |s| && (s[i] == '\0' <==> i == |text|)
      invariant num == OctalValue(text[..i]) && 0 <= num < INT_LIMIT
      decreases |text| - i
    {
      CStringAt(s, text, i);
      CStringAt(s, text, i + 1);
      assert text[..i + 1][..i] == text[..i];
      PrefixIsSmaller(text, i + 1);
      num := num * 8 + (s[i] as int - '0' as int);
      i := i + 1;
    }
    assert text[..i] == text;
    PrefixIsSmaller(text, i);
  }

  // The text of a number in the size field: `width` octal digits, with leading zeros
  function Octal(n: nat, width: nat): (text: string)
    ensures |text| == width && AreOctalDigits(text)
  {
    if width == 0 then "" else Octal(n / 8, width - 1) + [(n % 8 + '0' as int) as char]
  }

  function PowerOf8(k: nat): nat { if k == 0 then 1 else 8 * PowerOf8(k - 1) }

  lemma {:induction false} OctalIsBounded(text: string)
    requires AreOctalDigits(text)
    ensures 0 <= OctalValue(text) < PowerOf8(|text|)
  {
    if text != "" {
      OctalIsBounded(text[..|text| - 1]);
    }
  }

  lemma {:induction false} OctalDigitsSuffice(n: nat, width: nat)
    requires n < PowerOf8(width)
    ensures OctalValue(Octal(n, width)) == n
  {
    if width > 0 {
      OctalDigitsSuffice(n / 8, width - 1);
      var text := Octal(n, width);
      assert text[..|text| - 1] == Octal(n / 8, width - 1);
    }
  }

  // Digits are read in base 8, the most significant one first.
  lemma OctalByExample()
    ensures OctalValue("00000000755") == 493 && Octal(493, 4) == "0755"
  {
    assert OctalValue("0000000") == 0 by {
      ZerosAreZero("0000000");
    }
    ZerosAreZero("00000000");
    assert "00000000755"[..10] == "0000000075" && "0000000075"[..9] == "000000007" && "000000007"[..8] == "00000000";
    assert Octal(7, 2) == "07" && Octal(61, 3) == "075";
  }

  lemma {:induction false} ZerosAreZero(text: string)
    requires forall i | 0 <= i < |text| :: text[i] == '0'
    ensures OctalValue(text) == 0
  {
    if text != "" {
      ZerosAreZero(text[..|text| - 1]);
    }
  }

  // A number is read back exactly when its digits fit.
  lemma OctalRoundTrip(n: nat, width: nat)
    ensures OctalValue(Octal(n, width)) == n <==> n < PowerOf8(width)
  {
    OctalIsBounded(Octal(n, width));
    if n < PowerOf8(width) {
      OctalDigitsSuffice(n, width);
    }
  }

  /* ---------- archives ---------- */

  // A member of the archive; the zero blocks at its end read as members without name and contents.
  datatype Item = Item(name: string, data: seq<char>)

  const BLOCK: nat := 512
  const NAME_FIELD: nat := 100
  const SIZE_AT: nat := 124
  const SIZE_FIELD: nat := 12

  function Padded(size: nat): nat { if size % BLOCK > 0 then size + (BLOCK - size % BLOCK) else size }

  // The least multiple of the block size that is not below the size
  lemma PaddedIsLeast(size: nat)
    ensures Padded(size) % 512 == 0 && size <= Padded(size) < size + 512
  {
  }

  // The header at q describes this member, and its contents follow.
  ghost predicate IsMember(bytes: seq<char>, q: nat, item: Item, digits: string) {
    match item
    case Item(name, data) =>
      && q + BLOCK + Padded(|data|) <= |bytes|
      && IsCString(bytes[q..q + NAME_FIELD], name)
      && IsCString(bytes[q + SIZE_AT..q + SIZE_AT + SIZE_FIELD], digits)
      && AreOctalDigits(digits) && OctalValue(digits) == |data| < INT_LIMIT
      && bytes[q + BLOCK..q + BLOCK + |data|] == data
  }

  // From q on, the archive consists of these members.
  ghost predicate IsArchive(bytes: seq<char>, q: nat, items: seq<Item>)
    decreases |items|
  {
    if items == [] then q == |bytes|
    else
      && (exists digits :: IsMember(bytes, q, items[0], digits))
      && IsArchive(bytes, q + BLOCK + Padded(|items[0].data|), items[1..])
  }

  // Where the header of the k-th member is
  function Offset(items: seq<Item>, k: nat): nat
    requires k <= |items|
  {
    if k == 0 then 0 else Offset(items, k - 1) + BLOCK + Padded(|items[k - 1].data|)
  }

  ghost predicate IsFirst(items: seq<Item>, name: string, k: nat) {
    k < |items| && items[k].name == name && forall i | 0 <= i < k :: items[i].name != name
  }

  ghost predicate IsAbsent(items: seq<Item>, name: string) { forall i | 0 <= i < |items| :: items[i].name != name }

  // get_file_address returns the contents, or the header when there are none.
  function AddressOf(start: nat, items: seq<Item>, k: nat): nat
    requires k < |items|
  {
    start + Offset(items, k) + if |items[k].data| > 0 then BLOCK else 0
  }

  lemma {:induction false} OffsetsAreInside(bytes: seq<char>, items: seq<Item>, k: nat)
    requires k <= |items| && IsArchive(bytes, 0, items)
    ensures IsArchive(bytes, Offset(items, k), items[k..])
  {
    if k > 0 {
      OffsetsAreInside(bytes, items, k - 1);
      assert items[k - 1..][1..] == items[k..] && items[k - 1..][0] == items[k - 1];
    } else {
      assert items[0..] == items;
    }
  }

  // toInteger on the size field of the header at q
  method SizeAt(bytes: seq<char>, q: nat, ghost item: Item) returns (size: int)
    requires exists digits :: IsMember(bytes, q, item, digits)
    ensures size == |item.data|
  {
    ghost var digits :| IsMember(bytes, q, item, digits);
    size := ToInteger(bytes[q + SIZE_AT..q + SIZE_AT + SIZE_FIELD], digits);
  }

  // strcmp with the name field of the header at q
  method HasName(bytes: seq<char>, q: nat, file: seq<char>, ghost item: Item, ghost name: string) returns (same: bool)
    requires (exists digits :: IsMember(bytes, q, item, digits)) && IsCString(file, name)
    ensures same == (item.name == name)
  {
    var order := Strcmp(bytes[q..q + NAME_FIELD], file, item.name, name);
    same := order == 0;
  }

  // The walk has reached the k-th header, at q, and has not met the name.
  ghost predicate IsWalk(bytes: seq<char>, q: nat, items: seq<Item>, k: nat, name: string) {
    && k <= |items| && q == Offset(items, k) && IsArchive(bytes, q, items[k..])
    && forall i | 0 <= i < k :: items[i].name != name
  }

  lemma WalkStarts(bytes: seq<char>, items: seq<Item>, name: string)
    requires IsArchive(bytes, 0, items)
    ensures IsWalk(bytes, 0, items, 0, name)
  {
    assert items[0..] == items;
  }

  lemma ArchiveHead(bytes: seq<char>, q: nat, rest: seq<Item>)
    requires IsArchive(bytes, q, rest) && q < |bytes|
    ensures rest != [] && (exists digits :: IsMember(bytes, q, rest[0], digits)) && q + BLOCK <= |bytes|
    ensures IsArchive(bytes, q + BLOCK + Padded(|rest[0].data|), rest[1..])
  {
  }

  lemma Suffix<T>(items: seq<T>, k: nat)
    requires k < |items|
    ensures items[k..] != [] && items[k..][0] == items[k] && items[k..][1..] == items[k + 1..]
  {
  }

  lemma WalkHead(bytes: seq<char>, q: nat, items: seq<Item>, k: nat, name: string)
    requires IsWalk(bytes, q, items, k, name) && q < |bytes|
    ensures k < |items| && (exists digits :: IsMember(bytes, q, items[k], digits)) && q + BLOCK <= |bytes|
    ensures IsArchive(bytes, q + BLOCK + Padded(|items[k].data|), items[k + 1..])
  {
    ArchiveHead(bytes, q, items[k..]);
    Suffix(items, k);
  }

  lemma NextMember(bytes: seq<char>, q: nat, items: seq<Item>, k: nat, name: string)
    requires IsWalk(bytes, q, items, k, name) && q < |bytes|
    ensures k < |items| && (exists digits :: IsMember(bytes, q, items[k], digits)) && q + BLOCK <= |bytes|
    ensures items[k].name == name ==> IsFirst(items, name, k) && q == Offset(items, k)
    ensures items[k].name != name ==> IsWalk(bytes, q + BLOCK + Padded(|items[k].data|), items, k + 1, name)
  {
    WalkHead(bytes, q, items, k, name);
    assert Offset(items, k + 1) == Offset(items, k) + BLOCK + Padded(|items[k].data|);
  }

  lemma WalkEnds(bytes: seq<char>, q: nat, items: seq<Item>, k: nat, name: string)
    requires IsWalk(bytes, q, items, k, name) && q >= |bytes|
    ensures k == |items| && q == Offset(items, k) && IsAbsent(items, name)
  {
  }

  // The distance to the next header
  method SkipMember(bytes: seq<char>, q: nat, ghost item: Item) returns (next: nat)
    requires exists digits :: IsMember(bytes, q, item, digits)
    ensures next == q + BLOCK + Padded(|item.data|)
    ensures (next - q) % 512 == 0 && |item.data| + 512 <= next - q < |item.data| + 1024
  {
    PaddedIsLeast(|item.data|);
    var size := SizeAt(bytes, q, item);
    var residue := size % BLOCK;
    if residue > 0 {
      size := size + (BLOCK - residue);
    }
    next := q + size + BLOCK;
  }

  // One round of the walk: the k-th header has the name, or the walk goes on behind its contents.
  method VisitMember(bytes: seq<char>, q: nat, file: seq<char>, ghost name: string, ghost items: seq<Item>,
                     ghost k: nat)
    returns (same: bool, next: nat)
    requires IsWalk(bytes, q, items, k, name) && q < |bytes| && IsCString(file, name)
    ensures k < |items|
    ensures same ==> next == q == Offset(items, k) && IsFirst(items, name, k) && q + BLOCK <= |bytes|
    ensures !same ==> IsWalk(bytes, next, items, k + 1, name)
  {
    NextMember(bytes, q, items, k, name);
    same := HasName(bytes, q, file, items[k], name);
    next := q;
    if !same {
      next := SkipMember(bytes, q, items[k]);
    }
  }

  // The walk that the two lookups share: to the first header with this name, or to the end
  method FindHeader(bytes: seq<char>, file: seq<char>, ghost name: string, ghost items: seq<Item>)
    returns (pointer: nat, found: bool, ghost k: nat)
    requires IsArchive(bytes, 0, items) && IsCString(file, name)
    ensures k <= |items| && pointer == Offset(items, k)
    ensures found ==> IsFirst(items, name, k) && pointer + BLOCK <= |bytes|
    ensures !found ==> IsAbsent(items, name)
  {
    pointer, found, k := 0, false, 0;
    WalkStarts(bytes, items, name);
    while pointer < |bytes|
      invariant IsWalk(bytes, pointer, items, k, name)
      decreases |items| - k
    {
      found, pointer := VisitMember(bytes, pointer, file, name, items, k);
      if found {
        return;
      }
      k := k + 1;
    }
    WalkEnds(bytes, pointer, items, k, name);
  }

  // get_file_address, for an archive that lies at `start`; 0 is "not found".
  method GetFileAddress(start: nat, bytes: seq<char>, file: seq<char>, ghost name: string, ghost items: seq<Item>)
    returns (address: nat)
    requires IsArchive(bytes, 0, items) && IsCString(file, name)
    ensures IsAbsent(items, name) ==> address == 0
    ensures forall k: nat | IsFirst(items, name, k) :: address == AddressOf(start, items, k)
  {
    var pointer, found;
    ghost var k;
    pointer, found, k := FindHeader(bytes, file, name, items);
    if !found {
      return 0;
    }
    FirstMember(bytes, items, k);
    var size := SizeAt(bytes, pointer, items[k]);
    address := if size > 0 then start + pointer + BLOCK else start + pointer;
  }

  // get_dir_address: only a member without contents counts.
  method GetDirAddress(start: nat, bytes: seq<char>, dir: seq<char>, ghost name: string, ghost items: seq<Item>)
    returns (address: nat)
    requires IsArchive(bytes, 0, items) && IsCString(dir, name)
    ensures IsAbsent(items, name) ==> address == 0
    ensures forall k: nat | IsFirst(items, name, k) ::
              address == if items[k].data == [] then AddressOf(start, items, k) else 0
  {
    var pointer, found;
    ghost var k;
    pointer, found, k := FindHeader(bytes, dir, name, items);
    if !found {
      return 0;
    }
    FirstMember(bytes, items, k);
    var size := SizeAt(bytes, pointer, items[k]);
    address := if size == 0 then start + pointer else 0;
  }

  lemma FirstMember(bytes: seq<char>, items: seq<Item>, k: nat)
    requires IsArchive(bytes, 0, items) && k < |items|
    ensures exists digits :: IsMember(bytes, Offset(items, k), items[k], digits)
  {
    OffsetsAreInside(bytes, items, k);
    assert items[k..][0] == items[k];
  }

  // At the address of a file lie its contents.
  lemma AddressHoldsContents(bytes: seq<char>, items: seq<Item>, k: nat)
    requires IsArchive(bytes, 0, items) && k < |items| && items[k].data != []
    ensures AddressOf(0, items, k) + |items[k].data| <= |bytes|
    ensures bytes[AddressOf(0, items, k)..AddressOf(0, items, k) + |items[k].data|] == items[k].data
  {
    FirstMember(bytes, items, k);
  }

  // At the address of a member without contents lies its header, and so its name.
  lemma AddressHoldsName(bytes: seq<char>, items: seq<Item>, k: nat)
    requires IsArchive(bytes, 0, items) && k < |items| && items[k].data == []
    ensures AddressOf(0, items, k) + 512 <= |bytes| && IsCString(bytes[AddressOf(0, items, k)..], items[k].name)
  {
    FirstMember(bytes, items, k);
    var q := Offset(items, k);
    assert bytes[q..][..|items[k].name|] == bytes[q..q + NAME_FIELD][..|items[k].name|];
  }

  /* ---------- writing an archive ---------- */

  function Zeros(n: nat): seq<char> { seq(n, _ => '\0') }

  ghost predicate CanBeArchived(item: Item) {
    HasNoNul(item.name) && |item.name| < NAME_FIELD && |item.data| < INT_LIMIT
  }

  function Header(item: Item): seq<char>
    requires |item.name| < NAME_FIELD
  {
    item.name + Zeros(SIZE_AT - |item.name|) + Octal(|item.data|, SIZE_FIELD - 1)
    + Zeros(BLOCK - SIZE_AT - (SIZE_FIELD - 1))
  }

  function Block(item: Item): seq<char>
    requires |item.name| < NAME_FIELD
  {
    Header(item) + (item.data + Zeros(Padded(|item.data|) - |item.data|))
  }

  ghost predicate AreArchivable(items: seq<Item>) { forall i | 0 <= i < |items| :: CanBeArchived(items[i]) }

  ghost function Encode(items: seq<Item>): seq<char>
    requires AreArchivable(items)
  {
    if items == [] then [] else
      assert CanBeArchived(items[0]);
      Block(items[0]) + Encode(items[1..])
  }

  lemma ElevenDigits()
    ensures INT_LIMIT <= PowerOf8(11)
  {
    assert PowerOf8(5) == 32768;
    assert PowerOf8(11) == 8 * 8 * 8 * 8 * 8 * 8 * PowerOf8(5);
  }

  lemma FieldOf(before: seq<char>, text: string, rest: seq<char>, n: nat)
    requires HasNoNul(text) && |text| < n <= |text| + |rest| && rest[0] == '\0'
    ensures IsCString((before + text + rest)[|before|..|before| + n], text)
  {
    var field := (before + text + rest)[|before|..|before| + n];
    assert field == (text + rest)[..n];
  }

  lemma HeaderFields(item: Item)
    requires CanBeArchived(item)
    ensures |Header(item)| == BLOCK
    ensures IsCString(Header(item)[..NAME_FIELD], item.name)
    ensures IsCString(Header(item)[SIZE_AT..SIZE_AT + SIZE_FIELD], Octal(|item.data|, SIZE_FIELD - 1))
  {
    var name, digits := item.name, Octal(|item.data|, SIZE_FIELD - 1);
    var gap, rest := Zeros(SIZE_AT - |name|), Zeros(BLOCK - SIZE_AT - (SIZE_FIELD - 1));
    assert forall i | 0 <= i < |digits| :: digits[i] != '\0';
    FieldOf(name + gap, digits, rest, SIZE_FIELD);
    FieldOf([], name, gap + (digits + rest), NAME_FIELD);
    NameFirst(name, gap, digits, rest);
  }

  // Name and size in the header, as the ustar format has them
  lemma HeaderLayout(item: Item)
    requires CanBeArchived(item)
    ensures |Header(item)| == 512 && IsCString(Header(item)[..100], item.name)
    ensures Header(item)[124..135] == Octal(|item.data|, 11) && Header(item)[135] == '\0'
  {
    HeaderFields(item);
    var field := Header(item)[SIZE_AT..SIZE_AT + SIZE_FIELD];
    assert Header(item)[124..135] == field[..11] && Header(item)[135] == field[11];
  }

  lemma NameFirst(a: seq<char>, b: seq<char>, c: seq<char>, d: seq<char>)
    ensures [] + a + (b + (c + d)) == a + b + c + d
  {
  }

  // Whatever precedes it, the encoding of a member reads as that member.
  lemma EncodedMember(before: seq<char>, item: Item, after: seq<char>, bytes: seq<char>)
    requires CanBeArchived(item) && bytes == before + Block(item) + after
    ensures |Block(item)| == BLOCK + Padded(|item.data|)
    ensures IsMember(bytes, |before|, item, Octal(|item.data|, SIZE_FIELD - 1))
    ensures |before + Block(item)| == |before| + BLOCK + Padded(|item.data|)
  {
    var header, data, pad := Header(item), item.data, Zeros(Padded(|item.data|) - |item.data|);
    HeaderFields(item);
    ElevenDigits();
    OctalDigitsSuffice(|data|, SIZE_FIELD - 1);
    BlockInside(before, header, data, pad, after);
    EncodedFields(before, header, data, pad + after, bytes);
  }

  lemma BlockInside(before: seq<char>, header: seq<char>, data: seq<char>, pad: seq<char>, after: seq<char>)
    ensures before + (header + (data + pad)) + after == before + (header + (data + (pad + after)))
  {
    Reassociate(before, header + (data + pad), after);
    Reassociate(header, data + pad, after);
    Reassociate(data, pad, after);
  }

  lemma EncodedFields(before: seq<char>, header: seq<char>, data: seq<char>, rest: seq<char>, bytes: seq<char>)
    requires |header| == BLOCK && bytes == before + (header + (data + rest))
    ensures var q := |before|;
            && q + BLOCK + |data| + |rest| == |bytes|
            && bytes[q..q + NAME_FIELD] == header[..NAME_FIELD]
            && bytes[q + SIZE_AT..q + SIZE_AT + SIZE_FIELD] == header[SIZE_AT..SIZE_AT + SIZE_FIELD]
            && bytes[q + BLOCK..q + BLOCK + |data|] == data
  {
  }

  lemma ArchiveStep(bytes: seq<char>, q: nat, items: seq<Item>, digits: string)
    requires items != [] && IsMember(bytes, q, items[0], digits)
    requires IsArchive(bytes, q + BLOCK + Padded(|items[0].data|), items[1..])
    ensures IsArchive(bytes, q, items)
  {
  }

  lemma {:induction false} EncodedSuffix(before: seq<char>, items: seq<Item>, bytes: seq<char>)
    requires AreArchivable(items) && bytes == before + Encode(items)
    ensures IsArchive(bytes, |before|, items)
    decreases |items|
  {
    if items != [] {
      FirstIsEncoded(before, items, bytes);
      EncodedSuffix(before + Block(items[0]), items[1..], bytes);
      ArchiveStep(bytes, |before|, items, Octal(|items[0].data|, SIZE_FIELD - 1));
    }
  }

  lemma FirstIsEncoded(before: seq<char>, items: seq<Item>, bytes: seq<char>)
    requires items != [] && AreArchivable(items) && bytes == before + Encode(items)
    ensures CanBeArchived(items[0]) && bytes == before + Block(items[0]) + Encode(items[1..])
    ensures IsMember(bytes, |before|, items[0], Octal(|items[0].data|, SIZE_FIELD - 1))
    ensures |before + Block(items[0])| == |before| + BLOCK + Padded(|items[0].data|)
  {
    assert CanBeArchived(items[0]);
    Reassociate(before, Block(items[0]), Encode(items[1..]));
    EncodedMember(before, items[0], Encode(items[1..]), bytes);
  }

  // Every list of members whose names and sizes fit has an archive, and it is well-formed.
  lemma EncodeIsArchive(items: seq<Item>)
    requires AreArchivable(items)
    ensures IsArchive(Encode(items), 0, items)
  {
    EncodedSuffix([], items, Encode(items));
  }
}
