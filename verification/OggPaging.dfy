/** Splitting packets into pages (sections 5 and 6 of RFC 3533): createPagesForSerial of
    oggwriter/oggwriter.go, and what a reader gets back. */
module OggPaging {
  import opened Bits
  import opened Bytes
  import Crc32
  import opened OggPage
  import OggReader

  const CONTINUED: byte := 1
  const BEGINNING: byte := 2
  const ENDING: byte := 4
  const MAX_PAYLOAD: nat := 65025   // 255 segments of 255 bytes
  const NO_GRANULE: uint64 := UINT64_LIMIT - 1

  predicate HasEos(headerType: byte) { headerType / 4 % 2 == 1 }

  function WithEos(headerType: byte): byte { if HasEos(headerType) then headerType else headerType + ENDING }

  function WithoutEos(headerType: byte): byte { if HasEos(headerType) then headerType - ENDING else headerType }

  /** packetPageHeaderType. */
  function PacketPageType(headerType: byte, first: bool, complete: bool): byte {
    if first then if complete then headerType else WithoutEos(headerType)
    else if complete && HasEos(headerType) then CONTINUED + ENDING
    else CONTINUED
  }

  function IndexAt(index: uint32, n: nat): uint32 {
    (index + n) % UINT32_LIMIT
  }

  function Full(n: nat): (s: seq<byte>)
    ensures |s| == n
  {
    seq(n, i => 255)
  }

  /** The lacing values of a packet. */
  function Lacing(n: nat): (s: seq<byte>)
    ensures |s| == n / 255 + 1
  {
    Full(n / 255) + [(n % 255) as byte]
  }

  /** A packet, and what its pages say about it. */
  datatype Packet = Packet(payload: seq<byte>, headerType: byte, granule: uint64)

  /** The pages of a packet, or of the rest of one if `first` is false. */
  function PagesFor(p: Packet, serial: uint32, index: uint32, first: bool): (pages: seq<Page>)
    ensures |pages| == |p.payload| / MAX_PAYLOAD + 1 && |pages| > 0
    decreases |p.payload|
  {
    if |p.payload| < MAX_PAYLOAD then
      [Page(PacketPageType(p.headerType, first, true), p.granule, serial, index, Lacing(|p.payload|), p.payload)]
    else
      [Page(PacketPageType(p.headerType, first, false), NO_GRANULE, serial, index, Full(MAX_SEGMENTS),
            p.payload[..MAX_PAYLOAD])] +
      PagesFor(p.(payload := p.payload[MAX_PAYLOAD..]), serial, IndexAt(index, 1), false)
  }

  /** oggPage: a page with its bytes. */
  datatype Written = Written(data: seq<byte>, payload: seq<byte>, headerType: byte, granule: uint64, index: uint32)

  function Rendered(p: Page): Written {
    Written(PageBytes(p), p.payload, p.headerType, p.granule, p.index)
  }

  function RenderedAll(pages: seq<Page>): (r: seq<Written>)
    ensures |r| == |pages| && forall i :: 0 <= i < |r| ==> r[i] == Rendered(pages[i])
  {
    seq(|pages|, i requires 0 <= i < |pages| => Rendered(pages[i]))
  }

  /** The inner loop of createPagesForSerial: the lacing values of one page. */
  method FillSegments(remaining: nat) returns (segments: seq<byte>, size: nat, complete: bool)
    ensures complete == (remaining < MAX_PAYLOAD)
    ensures segments == if complete then Lacing(remaining) else Full(MAX_SEGMENTS)
    ensures size == (if complete then remaining else MAX_PAYLOAD) <= remaining
    ensures |segments| <= MAX_SEGMENTS && (complete || size > 0)
  {
    segments, size, complete := [], 0, false;
    var left: nat := remaining;
    while |segments| < MAX_SEGMENTS
      invariant |segments| <= MAX_SEGMENTS && segments == Full(|segments|) && !complete
      invariant size == 255 * |segments| && left + size == remaining
      decreases MAX_SEGMENTS - |segments|
    {
      if left >= 255 {
        segments := segments + [255];
        size := size + 255;
        left := left - 255;
        continue;
      }
      segments := segments + [left as byte];
      size := size + left;
      complete := true;
      break;
    }
  }

  /** createPagesForSerial. */
  method CreatePages(table: seq<bv32>, p: Packet, serial: uint32, index: uint32) returns (pages: seq<Written>)
    requires Crc32.IsTable(table)
    ensures pages == RenderedAll(PagesFor(p, serial, index, true))
  {
    hide *;
    pages := [];
    var offset: nat, next: uint32, first := 0, index, true;
    ghost var all := PagesFor(p, serial, index, true);
    assert p.payload[0..] == p.payload;
    while true
      invariant offset <= |p.payload| && |pages| < |all|
      invariant |pages| == |all[..|pages|]| && pages == RenderedAll(all[..|pages|])
      invariant all[|pages|..] == PagesFor(p.(payload := p.payload[offset..]), serial, next, first)
      decreases |p.payload| - offset
    {
      ghost var rest := p.(payload := p.payload[offset..]);
      ghost var k := |pages|;
      var segments, size, complete := FillSegments(|p.payload| - offset);
      var pagePayload := p.payload[offset..offset + size];
      var pageType := PacketPageType(p.headerType, first, complete);
      var granule := if complete then p.granule else NO_GRANULE;
      var page := Page(pageType, granule, serial, next, segments, pagePayload);
      PagesUnfold(rest, serial, next, first);
      assert pagePayload == rest.payload[..size];
      assert page == all[k..][0];
      var data := CreatePage(table, page);
      RenderedMore(all, k);
      pages := pages + [Written(data[..], pagePayload, pageType, granule, next)];
      offset := offset + size;
      IndexNext(next, 0);
      next := (next + 1) % UINT32_LIMIT;
      first := false;
      assert all[k..][1..] == all[k + 1..];
      if complete {
        assert all[..k + 1] == all;
        break;
      }
      assert rest.payload[size..] == p.payload[offset..];
    }
  }

  lemma RenderedMore(pages: seq<Page>, k: nat)
    requires k < |pages|
    ensures RenderedAll(pages[..k + 1]) == RenderedAll(pages[..k]) + [Rendered(pages[k])]
    ensures Rendered(pages[k]) ==
            Written(PageBytes(pages[k]), pages[k].payload, pages[k].headerType, pages[k].granule, pages[k].index)
  {
    hide RenderedAll, PageBytes;
    assert pages[..k + 1] == pages[..k] + [pages[k]];
  }

  lemma PagesUnfold(p: Packet, serial: uint32, index: uint32, first: bool)
    ensures var complete := |p.payload| < MAX_PAYLOAD;
            var size := if complete then |p.payload| else MAX_PAYLOAD;
            var pages := PagesFor(p, serial, index, first);
            && size <= |p.payload|
            && pages[0] == Page(PacketPageType(p.headerType, first, complete),
                                if complete then p.granule else NO_GRANULE, serial, index,
                                if complete then Lacing(|p.payload|) else Full(MAX_SEGMENTS), p.payload[..size])
            && (complete ==> |pages| == 1 && pages[1..] == [])
            && (!complete ==>
                  pages[1..] == PagesFor(p.(payload := p.payload[size..]), serial, IndexAt(index, 1), false))
  {
    hide Lacing, Full, PacketPageType;
    assert p.payload[..|p.payload|] == p.payload;
  }

  lemma {:induction false} SumFull(n: nat)
    ensures Sum(Full(n)) == 255 * n
  {
    if n > 0 {
      assert Full(n)[1..] == Full(n - 1);
      SumFull(n - 1);
    }
  }

  lemma {:induction false} SumConcat(a: seq<byte>, b: seq<byte>)
    ensures Sum(a + b) == Sum(a) + Sum(b)
  {
    if a == [] {
      assert a + b == b;
    } else {
      assert (a + b)[1..] == a[1..] + b;
      SumConcat(a[1..], b);
    }
  }

  lemma SumLacing(n: nat)
    ensures Sum(Lacing(n)) == n
  {
    SumFull(n / 255);
    SumConcat(Full(n / 255), [(n % 255) as byte]);
    assert [(n % 255) as byte][1..] == [];
  }

  /** The i-th page of a packet: every page but the last is full and has no granule position,
      every page but the first continues the packet, and the pages are numbered from `index` on. */
  function NthPage(p: Packet, serial: uint32, index: uint32, first: bool, i: nat): Page
    requires i <= |p.payload| / MAX_PAYLOAD
  {
    var last := i == |p.payload| / MAX_PAYLOAD;
    var from := MAX_PAYLOAD * i;
    Page(PacketPageType(p.headerType, first && i == 0, last), if last then p.granule else NO_GRANULE, serial,
         IndexAt(index, i), if last then Lacing(|p.payload| % MAX_PAYLOAD) else Full(MAX_SEGMENTS),
         if last then p.payload[from..] else p.payload[from..from + MAX_PAYLOAD])
  }

  lemma NthPageShifts(p: Packet, serial: uint32, index: uint32, first: bool, i: nat)
    requires 0 < i <= |p.payload| / MAX_PAYLOAD
    ensures NthPage(p.(payload := p.payload[MAX_PAYLOAD..]), serial, IndexAt(index, 1), false, i - 1) ==
            NthPage(p, serial, index, first, i)
  {
    hide Lacing, Full, PacketPageType, IndexAt;
    IndexNext(index, i - 1);
    var rest, from := p.payload[MAX_PAYLOAD..], MAX_PAYLOAD * (i - 1);
    assert |rest| % MAX_PAYLOAD == |p.payload| % MAX_PAYLOAD && |rest| / MAX_PAYLOAD == |p.payload| / MAX_PAYLOAD - 1;
    assert from + MAX_PAYLOAD == MAX_PAYLOAD * i;
    if i == |p.payload| / MAX_PAYLOAD {
      assert rest[from..] == p.payload[MAX_PAYLOAD * i..];
    } else {
      assert rest[from..from + MAX_PAYLOAD] == p.payload[MAX_PAYLOAD * i..MAX_PAYLOAD * i + MAX_PAYLOAD];
    }
  }

  lemma IndexNext(index: uint32, n: nat)
    ensures IndexAt(IndexAt(index, 1), n) == IndexAt(index, n + 1) && IndexAt(index, 0) == index
    ensures IndexAt(index, 1) == (index + 1) % UINT32_LIMIT
  {}

  lemma {:induction false} PagesNumbered(p: Packet, serial: uint32, index: uint32, first: bool, i: nat)
    requires i <= |p.payload| / MAX_PAYLOAD
    ensures PagesFor(p, serial, index, first)[i] == NthPage(p, serial, index, first, i)
    decreases |p.payload|
  {
    PagesUnfold(p, serial, index, first);
    IndexNext(index, 0);
    hide Lacing, Full, PacketPageType, PagesFor, IndexAt;
    if i == 0 {
      assert p.payload[0..] == p.payload;
    } else {
      NthPageShifts(p, serial, index, first, i);
      hide NthPage;
      PagesNumbered(p.(payload := p.payload[MAX_PAYLOAD..]), serial, IndexAt(index, 1), false, i - 1);
      assert PagesFor(p, serial, index, first)[i] == PagesFor(p, serial, index, first)[1..][i - 1];
    }
  }
}
