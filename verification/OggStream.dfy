/** A logical Ogg bitstream: the pages of a sequence of packets, and how the packets come out of
    them again (sections 4 to 6 of RFC 3533). */
module OggStream {
  import opened Bits
  import opened Bytes
  import opened OggPage
  import opened OggPaging
  import OggReader

  function Segments(pages: seq<Page>): seq<byte> {
    if pages == [] then [] else pages[0].segments + Segments(pages[1..])
  }

  function Payloads(pages: seq<Page>): seq<byte> {
    if pages == [] then [] else pages[0].payload + Payloads(pages[1..])
  }

  function AllBytes(pages: seq<Page>): seq<byte> {
    if pages == [] then [] else PageBytes(pages[0]) + AllBytes(pages[1..])
  }

  lemma {:induction false} PiecesConcat(a: seq<Page>, b: seq<Page>)
    ensures Segments(a + b) == Segments(a) + Segments(b)
    ensures Payloads(a + b) == Payloads(a) + Payloads(b)
    ensures AllBytes(a + b) == AllBytes(a) + AllBytes(b)
  {
    hide PageBytes;
    if a == [] {
      assert a + b == b;
    } else {
      assert (a + b)[1..] == a[1..] + b;
      PiecesConcat(a[1..], b);
      ConcatAssoc(a[0].segments, Segments(a[1..]), Segments(b));
      ConcatAssoc(a[0].payload, Payloads(a[1..]), Payloads(b));
      ConcatAssoc(PageBytes(a[0]), AllBytes(a[1..]), AllBytes(b));
    }
  }

  /** The lacing values of a packet's pages are those of the packet, and nothing of it is lost. */
  lemma {:induction false} PacketPieces(p: Packet, serial: uint32, index: uint32, first: bool)
    ensures Segments(PagesFor(p, serial, index, first)) == Lacing(|p.payload|)
    ensures Payloads(PagesFor(p, serial, index, first)) == p.payload
    decreases |p.payload|
  {
    PagesUnfold(p, serial, index, first);
    hide PagesFor, Lacing, Full, PacketPageType, IndexAt;
    var pages := PagesFor(p, serial, index, first);
    if |p.payload| < MAX_PAYLOAD {
      assert p.payload[..|p.payload|] == p.payload;
      assert Segments(pages) == pages[0].segments + Segments([]);
      assert Payloads(pages) == pages[0].payload + Payloads([]);
    } else {
      var rest := p.(payload := p.payload[MAX_PAYLOAD..]);
      PacketPieces(rest, serial, IndexAt(index, 1), false);
      FullPage(|p.payload|);
      assert p.payload[..MAX_PAYLOAD] + rest.payload == p.payload;
    }
  }

  lemma FullPage(n: nat)
    requires n >= MAX_PAYLOAD
    ensures Full(MAX_SEGMENTS) + Lacing(n - MAX_PAYLOAD) == Lacing(n)
  {
    assert (n - MAX_PAYLOAD) / 255 + MAX_SEGMENTS == n / 255 && (n - MAX_PAYLOAD) % 255 == n % 255;
  }

  ghost predicate AllWellFormed(pages: seq<Page>) {
    forall i :: 0 <= i < |pages| ==> WellFormed(pages[i])
  }

  lemma {:induction false} PacketWellFormed(p: Packet, serial: uint32, index: uint32, first: bool)
    ensures AllWellFormed(PagesFor(p, serial, index, first))
    decreases |p.payload|
  {
    PagesUnfold(p, serial, index, first);
    hide PagesFor, Lacing, Full, PacketPageType, IndexAt, Sum;
    SumFull(MAX_SEGMENTS);
    var pages := PagesFor(p, serial, index, first);
    if |p.payload| < MAX_PAYLOAD {
      SumLacing(|p.payload|);
    } else {
      var rest := p.(payload := p.payload[MAX_PAYLOAD..]);
      PacketWellFormed(rest, serial, IndexAt(index, 1), false);
      assert pages == [pages[0]] + PagesFor(rest, serial, IndexAt(index, 1), false);
    }
  }

  // Reading pages back.

  datatype Seen = Seen(payload: seq<byte>, header: OggReader.PageHeader)

  /** What a reader gets by repeated calls, and what stops it. */
  function ReadAll(src: seq<byte>, check: bool): (seq<Seen>, OggReader.Error)
    decreases |src|
  {
    match OggReader.ParsePage(src, check)
    case Err(e) => ([], e)
    case Ok(p) =>
      var (later, e) := ReadAll(p.rest, check);
      ([Seen(p.payload, p.header)] + later, e)
  }

  function SeenAs(pages: seq<Page>): (seen: seq<Seen>)
    ensures |seen| == |pages|
  {
    seq(|pages|, i requires 0 <= i < |pages| => Seen(pages[i].payload, OggReader.Announced(pages[i])))
  }

  /** Written pages are all accepted, in order, up to the end of the input. */
  lemma {:induction false} PagesReadBack(pages: seq<Page>, check: bool)
    requires AllWellFormed(pages)
    ensures ReadAll(AllBytes(pages), check) == (SeenAs(pages), OggReader.Eof)
  {
    hide *;
    if pages == [] {
      NothingRead(check);
    } else {
      var p, rest := pages[0], pages[1..];
      AllWellFormedRest(pages);
      OggReader.PageRoundTrip(p, AllBytes(rest), check);
      PagesReadBack(rest, check);
      AllBytesUnfold(pages);
      ReadAllUnfold(AllBytes(pages), check);
      SeenUnfold(pages);
    }
  }

  lemma NothingRead(check: bool)
    ensures ReadAll(AllBytes([]), check) == (SeenAs([]), OggReader.Eof)
  {}

  lemma AllWellFormedRest(pages: seq<Page>)
    requires AllWellFormed(pages) && pages != []
    ensures WellFormed(pages[0]) && AllWellFormed(pages[1..])
  {}

  lemma AllBytesUnfold(pages: seq<Page>)
    requires pages != []
    ensures AllBytes(pages) == PageBytes(pages[0]) + AllBytes(pages[1..])
  {}

  lemma ReadAllUnfold(src: seq<byte>, check: bool)
    requires OggReader.ParsePage(src, check).Ok?
    ensures var p := OggReader.ParsePage(src, check).value;
            var (later, e) := ReadAll(p.rest, check);
            ReadAll(src, check) == ([Seen(p.payload, p.header)] + later, e)
  {}

  lemma SeenUnfold(pages: seq<Page>)
    requires pages != []
    ensures SeenAs(pages) == [Seen(pages[0].payload, OggReader.Announced(pages[0]))] + SeenAs(pages[1..])
  {
    hide OggReader.Announced;
  }

  /** What a reader gets that goes on after pages with a wrong checksum. */
  function ReadOn(src: seq<byte>, check: bool): seq<Result<Seen, OggReader.Error>>
    decreases |src|
  {
    match OggReader.ParsePage(src, check)
    case Ok(p) => [Ok(Seen(p.payload, p.header))] + ReadOn(p.rest, check)
    case Err(e) =>
      [Err(e)] + if e == OggReader.ChecksumMismatch then ReadOn(OggReader.AfterPage(src), check) else []
  }

  function AllAccepted(pages: seq<Page>): (seen: seq<Result<Seen, OggReader.Error>>)
    ensures |seen| == |pages|
  {
    seq(|pages|, i requires 0 <= i < |pages| => Ok(Seen(pages[i].payload, OggReader.Announced(pages[i]))))
  }

  lemma {:induction false} ReadOnPages(pages: seq<Page>, rest: seq<byte>, check: bool)
    requires AllWellFormed(pages)
    ensures ReadOn(AllBytes(pages) + rest, check) == AllAccepted(pages) + ReadOn(rest, check)
  {
    hide *;
    if pages == [] {
      NoBytes();
      assert [] + rest == rest && [] + ReadOn(rest, check) == ReadOn(rest, check);
    } else {
      AllWellFormedRest(pages);
      AllBytesUnfold(pages);
      ConcatAssoc(PageBytes(pages[0]), AllBytes(pages[1..]), rest);
      OggReader.PageRoundTrip(pages[0], AllBytes(pages[1..]) + rest, check);
      ReadOnUnfold(AllBytes(pages) + rest, check);
      ReadOnPages(pages[1..], rest, check);
      AllAcceptedUnfold(pages);
      var first: Result<Seen, OggReader.Error> := Ok(Seen(pages[0].payload, OggReader.Announced(pages[0])));
      ConcatAssoc([first], AllAccepted(pages[1..]), ReadOn(rest, check));
    }
  }

  lemma NoBytes()
    ensures AllBytes([]) == [] && AllAccepted([]) == []
  {}

  lemma ReadOnUnfold(src: seq<byte>, check: bool)
    ensures var r := OggReader.ParsePage(src, check);
            ReadOn(src, check) ==
            if r.Ok? then [Ok(Seen(r.value.payload, r.value.header))] + ReadOn(r.value.rest, check)
            else
              [Err(r.error)] +
              if r.error == OggReader.ChecksumMismatch then ReadOn(OggReader.AfterPage(src), check) else []
  {
    hide OggReader.ParsePage, OggReader.AfterPage;
  }

  lemma AllAcceptedUnfold(pages: seq<Page>)
    requires pages != []
    ensures AllAccepted(pages) == [Ok(Seen(pages[0].payload, OggReader.Announced(pages[0])))] + AllAccepted(pages[1..])
  {
    hide OggReader.Announced;
  }

  /** A damaged payload costs its own page: the pages before and behind it are read as they are. */
  lemma DamageContained(
    a: seq<Page>, p: Page, b: seq<Page>, before: seq<byte>, v: seq<byte>, w: seq<byte>, after: seq<byte>)
    requires AllWellFormed(a) && AllWellFormed(b) && WellFormed(p)
    requires p.payload == before + v + after && |v| == |w| <= 4 && v != w
    ensures var n := HEADER_SIZE + |p.segments| + |before|;
            var bad := PageBytes(p)[..n] + w + PageBytes(p)[n + |v|..];
            ReadOn(AllBytes(a) + (bad + AllBytes(b)), true) ==
            AllAccepted(a) + ([Err(OggReader.ChecksumMismatch)] + (AllAccepted(b) + [Err(OggReader.Eof)]))
  {
    hide *;
    var n := HEADER_SIZE + |p.segments| + |before|;
    var bad := PageBytes(p)[..n] + w + PageBytes(p)[n + |v|..];
    var header := Head(p) + CrcField(Checksum(Head(p), Tail(p))) + [LowByte(|p.segments|)];
    OggReader.DamageDetected(p, before, v, w, after, AllBytes(b));
    DamagedBytes(header, p.segments, before, v, w, after, PageBytes(p), n);
    ReadOnPages(a, bad + AllBytes(b), true);
    ReadOnUnfold(bad + AllBytes(b), true);
    DamagedRest(header, p, before + w + after, AllBytes(b));
    ReadOnPages(b, [], true);
    assert AllBytes(b) + [] == AllBytes(b);
    ReadOnNothing();
  }

  lemma DamagedBytes(
    header: seq<byte>, segments: seq<byte>, before: seq<byte>, v: seq<byte>, w: seq<byte>, after: seq<byte>,
    page: seq<byte>, n: nat)
    requires page == header + segments + (before + v + after) && n == |header| + |segments| + |before|
    ensures n + |v| <= |page| && page[..n] + w + page[n + |v|..] == header + segments + (before + w + after)
  {
    assert page[..n] == header + segments + before;
    assert page[n + |v|..] == after;
  }

  lemma DamagedRest(header: seq<byte>, p: Page, payload: seq<byte>, rest: seq<byte>)
    requires WellFormed(p) && |payload| == |p.payload|
    requires header == Head(p) + CrcField(Checksum(Head(p), Tail(p))) + [LowByte(|p.segments|)]
    ensures OggReader.AfterPage(header + p.segments + payload + rest) == rest
  {
    hide Head, Checksum, CrcField, Sum, OggReader.Split;
    OggReader.SplitRaw(header, p.segments, payload, rest);
  }

  lemma ReadOnNothing()
    ensures ReadOn([], true) == [Err(OggReader.Eof)]
  {}

  // Packets from lacing values (section 5 of RFC 3533).

  /** A packet ends with the first lacing value below 255; `held` is what it has so far. */
  function Reassemble(segments: seq<byte>, data: seq<byte>, held: seq<byte>): seq<seq<byte>> {
    if segments == [] || segments[0] as nat > |data| then []
    else
      var n := segments[0] as nat;
      if n < 255 then [held + data[..n]] + Reassemble(segments[1..], data[n..], [])
      else Reassemble(segments[1..], data[n..], held + data[..n])
  }

  lemma {:induction false} PacketReassembled(
    payload: seq<byte>, held: seq<byte>, segments: seq<byte>, data: seq<byte>)
    ensures Reassemble(Lacing(|payload|) + segments, payload + data, held) ==
            [held + payload] + Reassemble(segments, data, [])
    decreases |payload|
  {
    var n := |payload|;
    if n < 255 {
      assert Lacing(n) == [n as byte];
      assert ([n as byte] + segments)[1..] == segments;
      assert (payload + data)[..n] == payload && (payload + data)[n..] == data;
    } else {
      LacingStep(n);
      hide Lacing;
      var rest := payload[255..];
      assert (Lacing(n) + segments)[1..] == Lacing(n - 255) + segments;
      assert (payload + data)[..255] == payload[..255] && (payload + data)[255..] == rest + data;
      PacketReassembled(rest, held + payload[..255], segments, data);
      assert payload[..255] + rest == payload;
      ConcatAssoc(held, payload[..255], rest);
    }
  }

  lemma LacingStep(n: nat)
    requires n >= 255
    ensures Lacing(n) == [255] + Lacing(n - 255)
  {
    assert (n - 255) / 255 == n / 255 - 1 && (n - 255) % 255 == n % 255;
  }

  // Whole streams.

  /** The pages of a sequence of packets, numbered from `index` on. */
  function Logical(packets: seq<Packet>, serial: uint32, index: uint32): seq<Page> {
    if packets == [] then []
    else
      var pages := PagesFor(packets[0], serial, index, true);
      pages + Logical(packets[1..], serial, IndexAt(index, |pages|))
  }

  function PacketPayloads(packets: seq<Packet>): (s: seq<seq<byte>>)
    ensures |s| == |packets|
  {
    seq(|packets|, i requires 0 <= i < |packets| => packets[i].payload)
  }

  /** The packets of a stream come out of its pages as they went in. */
  lemma {:induction false} StreamReassembled(packets: seq<Packet>, serial: uint32, index: uint32)
    ensures var pages := Logical(packets, serial, index);
            Reassemble(Segments(pages), Payloads(pages), []) == PacketPayloads(packets)
  {
    hide *;
    LogicalUnfold(packets, serial, index);
    PayloadsUnfold(packets);
    if packets == [] {
      NothingReassembled();
    } else {
      var p := packets[0];
      var pages := PagesFor(p, serial, index, true);
      var rest := Logical(packets[1..], serial, IndexAt(index, |pages|));
      StreamReassembled(packets[1..], serial, IndexAt(index, |pages|));
      PiecesConcat(pages, rest);
      PacketPieces(p, serial, index, true);
      PacketReassembled(p.payload, [], Segments(rest), Payloads(rest));
      assert [] + p.payload == p.payload;
    }
  }

  lemma LogicalUnfold(packets: seq<Packet>, serial: uint32, index: uint32)
    ensures packets == [] ==> Logical(packets, serial, index) == []
    ensures packets != [] ==>
              var pages := PagesFor(packets[0], serial, index, true);
              Logical(packets, serial, index) == pages + Logical(packets[1..], serial, IndexAt(index, |pages|))
  {
    hide PagesFor;
  }

  lemma PayloadsUnfold(packets: seq<Packet>)
    ensures packets == [] ==> PacketPayloads(packets) == []
    ensures packets != [] ==> PacketPayloads(packets) == [packets[0].payload] + PacketPayloads(packets[1..])
  {}

  lemma NothingReassembled()
    ensures Reassemble(Segments([]), Payloads([]), []) == []
  {}

  lemma {:induction false} LogicalAppend(packets: seq<Packet>, p: Packet, serial: uint32, index: uint32)
    ensures Logical(packets + [p], serial, index) ==
            Logical(packets, serial, index) + PagesFor(p, serial, IndexAt(index, |Logical(packets, serial, index)|), true)
    decreases |packets|
  {
    hide PagesFor, IndexAt;
    if packets == [] {
      assert packets + [p] == [p] && [p][1..] == [];
      IndexNext(index, 0);
      var pages := PagesFor(p, serial, index, true);
      assert pages + Logical([], serial, IndexAt(index, |pages|)) == [] + pages;
    } else {
      assert (packets + [p])[1..] == packets[1..] + [p];
      var pages := PagesFor(packets[0], serial, index, true);
      var next := IndexAt(index, |pages|);
      LogicalAppend(packets[1..], p, serial, next);
      var rest := Logical(packets[1..], serial, next);
      IndexAdds(index, |pages|, |rest|);
      ConcatAssoc(pages, rest, PagesFor(p, serial, IndexAt(next, |rest|), true));
    }
  }

  lemma IndexAdds(index: uint32, m: nat, n: nat)
    ensures IndexAt(IndexAt(index, m), n) == IndexAt(index, m + n)
  {}
}
