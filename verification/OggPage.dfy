/** Ogg pages (section 6 of RFC 3533): the bytes of a page as oggwriter/oggwriter.go creates them
    and as oggreader/oggreader.go reads them back. */
module OggPage {
  import opened Bits
  import opened Bytes
  import opened Crc32

  const SIGNATURE: seq<byte> := [0x4F, 0x67, 0x67, 0x53]   // OggS
  const HEADER_SIZE: nat := 27
  const MAX_SEGMENTS: nat := 255

  /** A page; its version is 0. */
  datatype Page = Page(
    headerType: byte, granule: uint64, serial: uint32, index: uint32, segments: seq<byte>, payload: seq<byte>)

  function Le16(x: int): (s: seq<byte>)
    ensures |s| == 2
  {
    [LowByte(x), LowByte(x / 0x100)]
  }

  function Le32(x: int): (s: seq<byte>)
    ensures |s| == 4
  {
    Le16(x) + Le16(x / 0x1_0000)
  }

  function Le64(x: int): (s: seq<byte>)
    ensures |s| == 8
  {
    Le32(x) + Le32(x / UINT32_LIMIT)
  }

  function FromLe16(s: seq<byte>): (x: int)
    requires |s| == 2
    ensures 0 <= x < 0x1_0000
  {
    s[0] as int + 0x100 * s[1] as int
  }

  function FromLe32(s: seq<byte>): uint32
    requires |s| == 4
  {
    FromLe16(s[..2]) + 0x1_0000 * FromLe16(s[2..])
  }

  function FromLe64(s: seq<byte>): uint64
    requires |s| == 8
  {
    FromLe32(s[..4]) + UINT32_LIMIT * FromLe32(s[4..])
  }

  lemma Le16Inverse(x: int, s: seq<byte>)
    requires |s| == 2
    ensures FromLe16(Le16(x)) == x % 0x1_0000 && Le16(FromLe16(s)) == s
  {
    hide LowByte;
    LowBytes(x);
    LowOfSum(s[0], s[1]);
  }

  lemma LowBytes(x: int)
    ensures LowByte(x) as int + 0x100 * LowByte(x / 0x100) as int == x % 0x1_0000
  {
    SplitRounds(x);
  }

  lemma SplitRounds(x: int)
    ensures x % 0x100 + 0x100 * (x / 0x100 % 0x100) == x % 0x1_0000
  {}

  lemma LowOfSum(low: byte, high: byte)
    ensures var x := low as int + 0x100 * high as int; LowByte(x) == low && LowByte(x / 0x100) == high
  {
    AddRounds(low as int, high as int);
  }

  lemma Le32Inverse(x: int, s: seq<byte>)
    requires |s| == 4
    ensures 0 <= x < UINT32_LIMIT ==> FromLe32(Le32(x)) == x
    ensures Le32(FromLe32(s)) == s
  {
    hide FromLe16, Le16;
    Le16Inverse(x, s[..2]);
    Le16Inverse(x / 0x1_0000, s[2..]);
    assert Le32(x)[..2] == Le16(x) && Le32(x)[2..] == Le16(x / 0x1_0000);
    LowHalf(FromLe16(s[..2]), FromLe16(s[2..]));
    assert s == s[..2] + s[2..];
  }

  /** Le16 takes the low bits of its argument only. */
  lemma LowHalf(low: int, high: int)
    requires 0 <= low < 0x1_0000
    ensures Le16(low + 0x1_0000 * high) == Le16(low) && (low + 0x1_0000 * high) / 0x1_0000 == high
  {
    AddRounds(low, 0x100 * high);
    AddRounds(low / 0x100, high);
  }

  lemma AddRounds(x: int, k: int)
    ensures (x + 0x100 * k) % 0x100 == x % 0x100 && (x + 0x100 * k) / 0x100 == x / 0x100 + k
  {}

  lemma Le64Inverse(x: uint64, s: seq<byte>)
    requires |s| == 8
    ensures FromLe64(Le64(x)) == x && Le64(FromLe64(s)) == s
  {
    hide FromLe32, Le32;
    Le32Inverse(x % UINT32_LIMIT, s[..4]);
    Le32Inverse(x / UINT32_LIMIT, s[4..]);
    Low32(x % UINT32_LIMIT, x / UINT32_LIMIT);
    assert Le64(x)[..4] == Le32(x) && Le64(x)[4..] == Le32(x / UINT32_LIMIT);
    Low32(FromLe32(s[..4]), FromLe32(s[4..]));
    assert s == s[..4] + s[4..];
  }

  lemma Low32(low: int, high: int)
    requires 0 <= low < UINT32_LIMIT
    ensures Le32(low + UINT32_LIMIT * high) == Le32(low) && (low + UINT32_LIMIT * high) / UINT32_LIMIT == high
  {
    hide Le16;
    var a, b := low % 0x1_0000, low / 0x1_0000;
    LowHalf(a, b);
    LowHalf(a, b + 0x1_0000 * high);
    LowHalf(b, high);
    assert low + UINT32_LIMIT * high == a + 0x1_0000 * (b + 0x1_0000 * high);
  }

  /** The checksum as it is stored, least significant byte first. */
  function CrcField(crc: bv32): (s: seq<byte>)
    ensures |s| == 4
  {
    Reversed(CrcBytes(crc))
  }

  function Reversed(s: seq<byte>): (r: seq<byte>)
    requires |s| == 4
    ensures |r| == 4
  {
    [s[3], s[2], s[1], s[0]]
  }

  function CrcOfField(s: seq<byte>): bv32
    requires |s| == 4
  {
    Pack(Reversed(s))
  }

  lemma CrcFieldInverse(crc: bv32, s: seq<byte>)
    requires |s| == 4
    ensures CrcOfField(CrcField(crc)) == crc && CrcField(CrcOfField(s)) == s
  {
    hide Pack, CrcBytes;
    CrcBytesPack(crc);
    PackCrcBytes(Reversed(s));
    assert Reversed(CrcField(crc)) == CrcBytes(crc);
    assert Reversed(Reversed(s)) == s;
  }

  function Sum(segments: seq<byte>): nat {
    if segments == [] then 0 else segments[0] as nat + Sum(segments[1..])
  }

  ghost predicate WellFormed(p: Page) {
    |p.segments| <= MAX_SEGMENTS && |p.payload| == Sum(p.segments)
  }

  function Head(p: Page): (s: seq<byte>)
    ensures |s| == 22
  {
    SIGNATURE + [0, p.headerType] + Le64(p.granule) + Le32(p.serial) + Le32(p.index)
  }

  function Tail(p: Page): (s: seq<byte>)
    ensures |s| == 1 + |p.segments| + |p.payload|
  {
    [LowByte(|p.segments|)] + p.segments + p.payload
  }

  /** The checksum of a page, its own field taken as zero. */
  function Checksum(head: seq<byte>, tail: seq<byte>): bv32 {
    Register(0, head + [0, 0, 0, 0] + tail)
  }

  function PageBytes(p: Page): (s: seq<byte>)
    ensures |s| == HEADER_SIZE + |p.segments| + |p.payload|
  {
    Head(p) + CrcField(Checksum(Head(p), Tail(p))) + Tail(p)
  }

  /** PutUint32, PutUint64 and copy. */
  method Put(page: array<byte>, at: nat, data: seq<byte>)
    requires at + |data| <= page.Length
    modifies page
    ensures page[at..at + |data|] == data
    ensures forall k :: 0 <= k < at || at + |data| <= k < page.Length ==> page[k] == old(page[k])
  {
    forall i | 0 <= i < |data| {
      page[at + i] := data[i];
    }
  }

  /** The fields before the checksum. */
  method PutHead(page: array<byte>, p: Page)
    requires page.Length >= HEADER_SIZE
    modifies page
    ensures page[..22] == Head(p)
    ensures forall k :: 22 <= k < page.Length ==> page[k] == old(page[k])
  {
    hide Head, Le64, Le32;
    Put(page, 0, SIGNATURE);
    page[4] := 0;
    page[5] := p.headerType;
    Put(page, 6, Le64(p.granule));
    Put(page, 14, Le32(p.serial));
    Put(page, 18, Le32(p.index));
    HeadIs(p, page[..]);
  }

  /** What follows the checksum. */
  method PutTail(page: array<byte>, p: Page)
    requires |p.segments| <= MAX_SEGMENTS && page.Length == HEADER_SIZE + |p.segments| + |p.payload|
    modifies page
    ensures page[26..] == Tail(p)
    ensures forall k :: 0 <= k < 26 ==> page[k] == old(page[k])
  {
    hide Tail;
    page[26] := |p.segments| as byte;
    Put(page, HEADER_SIZE, p.segments);
    Put(page, HEADER_SIZE + |p.segments|, p.payload);
    TailIs(p, page[..]);
  }

  /** createPageForSerialWithSegments: the checksum goes in last. */
  method CreatePage(table: seq<bv32>, p: Page) returns (page: array<byte>)
    requires IsTable(table) && |p.segments| <= MAX_SEGMENTS
    ensures fresh(page) && page[..] == PageBytes(p)
  {
    hide Head, Tail, PageBytes, CrcField, Register, IsTable;
    page := new byte[HEADER_SIZE + |p.segments| + |p.payload|](_ => 0);
    PutHead(page, p);
    PutTail(page, p);
    assert page[..22] == Head(p);
    assert page[22..26] == [0, 0, 0, 0];
    Joined(page[..]);
    var crc := TableDriven(table, 0, page[..]);
    Put(page, 22, CrcField(crc));
    assert page[..22] == Head(p) && page[26..] == Tail(p);
    Joined(page[..]);
    PageIs(p);
  }

  lemma Joined(page: seq<byte>)
    requires |page| >= 26
    ensures page == page[..22] + page[22..26] + page[26..]
  {}

  lemma PageIs(p: Page)
    ensures PageBytes(p) == Head(p) + CrcField(Register(0, Head(p) + [0, 0, 0, 0] + Tail(p))) + Tail(p)
  {}

  lemma HeadIs(p: Page, page: seq<byte>)
    requires |page| >= 22 && page[0..4] == SIGNATURE && page[4] == 0 && page[5] == p.headerType
    requires page[6..14] == Le64(p.granule) && page[14..18] == Le32(p.serial) && page[18..22] == Le32(p.index)
    ensures page[..22] == Head(p)
  {
    hide Le64, Le32, SIGNATURE;
    assert page[4..6] == [0, p.headerType];
    Cut(page, 0, 4, 6);
    Cut(page, 0, 6, 14);
    Cut(page, 0, 14, 18);
    Cut(page, 0, 18, 22);
  }

  lemma TailIs(p: Page, page: seq<byte>)
    requires |p.segments| <= MAX_SEGMENTS && |page| == HEADER_SIZE + |p.segments| + |p.payload|
    requires page[26] == |p.segments| as byte
    requires page[HEADER_SIZE..HEADER_SIZE + |p.segments|] == p.segments
    requires page[HEADER_SIZE + |p.segments|..HEADER_SIZE + |p.segments| + |p.payload|] == p.payload
    ensures page[26..] == Tail(p)
  {
    var n := HEADER_SIZE + |p.segments|;
    Cut(page, 26, HEADER_SIZE, n);
    Cut(page, 26, n, |page|);
  }
}
