/** oggreader/oggreader.go: reading pages back. The source is a finite byte string. */
module OggReader {
  import opened Bits
  import opened Bytes
  import opened Crc32
  import opened OggPage

  datatype Error = Eof | UnexpectedEof | ChecksumMismatch

  datatype PageHeader = PageHeader(
    signature: seq<byte>, version: byte, headerType: byte, granule: uint64, serial: uint32, index: uint32,
    segmentsCount: byte)

  /** io.ReadFull. */
  function ReadFull(src: seq<byte>, n: nat): Result<seq<byte>, Error> {
    if n <= |src| then Ok(src[..n]) else Err(if src == [] then Eof else UnexpectedEof)
  }

  /** The parts of the page at the start of a byte string, and what follows it. */
  datatype Parts = Parts(header: seq<byte>, segments: seq<byte>, payload: seq<byte>, rest: seq<byte>)

  function Split(src: seq<byte>): (r: Result<Parts, Error>)
    ensures r.Ok? ==> |r.value.header| == HEADER_SIZE && |r.value.rest| < |src|
  {
    match ReadFull(src, HEADER_SIZE)
    case Err(e) => Err(e)
    case Ok(header) =>
      var n := header[26] as nat;
      match ReadFull(src[HEADER_SIZE..], n)
      case Err(e) => Err(e)
      case Ok(segments) =>
        match ReadFull(src[HEADER_SIZE + n..], Sum(segments))
        case Err(e) => Err(e)
        case Ok(payload) => Ok(Parts(header, segments, payload, src[HEADER_SIZE + n + |payload|..]))
  }

  function HeaderOf(header: seq<byte>): PageHeader
    requires |header| == HEADER_SIZE
  {
    PageHeader(header[..4], header[4], header[5], FromLe64(header[6..14]), FromLe32(header[14..18]),
               FromLe32(header[18..22]), header[26])
  }

  /** The checksum agrees with the one in the header. */
  predicate Intact(p: Parts)
    requires |p.header| == HEADER_SIZE
  {
    CrcOfField(p.header[22..26]) == Checksum(p.header[..22], p.header[26..] + p.segments + p.payload)
  }

  datatype Parsed = Parsed(payload: seq<byte>, header: PageHeader, rest: seq<byte>)

  /** ParseNextPage: the page at the start of a byte string. */
  function ParsePage(src: seq<byte>, check: bool): (r: Result<Parsed, Error>)
    ensures r.Ok? ==> |r.value.rest| < |src|
  {
    match Split(src)
    case Err(e) => Err(e)
    case Ok(p) =>
      if check && !Intact(p) then Err(ChecksumMismatch) else Ok(Parsed(p.payload, HeaderOf(p.header), p.rest))
  }

  /** What a call leaves unread: nothing if the input ends inside a page, and otherwise what
      follows the page, whether it was accepted or not. */
  function AfterPage(src: seq<byte>): seq<byte> {
    if Split(src).Ok? then Split(src).value.rest else []
  }

  function Announced(p: Page): PageHeader {
    PageHeader(SIGNATURE, 0, p.headerType, p.granule, p.serial, p.index, LowByte(|p.segments|))
  }

  lemma SplitRaw(header: seq<byte>, segments: seq<byte>, payload: seq<byte>, rest: seq<byte>)
    requires |header| == HEADER_SIZE && header[26] as nat == |segments| && |payload| == Sum(segments)
    ensures Split(header + segments + payload + rest) == Ok(Parts(header, segments, payload, rest))
  {
    hide Sum;
    var src, n := header + segments + payload + rest, |segments|;
    assert src[..HEADER_SIZE] == header;
    assert src[HEADER_SIZE..][..n] == segments;
    assert src[HEADER_SIZE + n..][..|payload|] == payload;
    assert src[HEADER_SIZE + n + |payload|..] == rest;
  }

  lemma SplitPage(p: Page, rest: seq<byte>)
    requires WellFormed(p)
    ensures var header := Head(p) + CrcField(Checksum(Head(p), Tail(p))) + [LowByte(|p.segments|)];
            Split(PageBytes(p) + rest) == Ok(Parts(header, p.segments, p.payload, rest))
  {
    hide Head, Checksum, CrcField, Sum;
    var header := Head(p) + CrcField(Checksum(Head(p), Tail(p))) + [LowByte(|p.segments|)];
    SplitRaw(header, p.segments, p.payload, rest);
    assert PageBytes(p) == header + p.segments + p.payload;
  }

  lemma HeadFields(p: Page, header: seq<byte>)
    requires |header| == HEADER_SIZE && header[..22] == Head(p) && header[26] == LowByte(|p.segments|)
    ensures HeaderOf(header) == Announced(p)
  {
    hide Le32, Le64, FromLe32, FromLe64;
    Le64Inverse(p.granule, Le64(p.granule));
    Le32Inverse(p.serial, Le32(p.serial));
    Le32Inverse(p.index, Le32(p.index));
    var head := header[..22];
    assert head[..4] == header[..4] == SIGNATURE;
    assert head[6..14] == header[6..14] == Le64(p.granule);
    assert head[14..18] == header[14..18] == Le32(p.serial);
    assert head[18..22] == header[18..22] == Le32(p.index);
    assert header[4] == head[4] && header[5] == head[5];
  }

  /** Every written page is accepted and read back with all its fields, whatever follows it. */
  lemma PageRoundTrip(p: Page, rest: seq<byte>, check: bool)
    requires WellFormed(p)
    ensures ParsePage(PageBytes(p) + rest, check) == Ok(Parsed(p.payload, Announced(p), rest))
  {
    hide *;
    SplitPage(p, rest);
    var crc := Checksum(Head(p), Tail(p));
    var header := Head(p) + CrcField(crc) + [LowByte(|p.segments|)];
    HeaderSplit(p, crc, header);
    HeadFields(p, header);
    CrcFieldInverse(crc, CrcField(crc));
    ParsePageIs(PageBytes(p) + rest, check, Parts(header, p.segments, p.payload, rest));
    IntactIs(p, crc, header, rest);
  }

  lemma HeaderSplit(p: Page, crc: bv32, header: seq<byte>)
    requires header == Head(p) + CrcField(crc) + [LowByte(|p.segments|)]
    ensures |header| == HEADER_SIZE == 27 && header[..22] == Head(p) && header[22..26] == CrcField(crc)
    ensures header[26] == LowByte(|p.segments|) && header[26..] + p.segments + p.payload == Tail(p)
  {
    hide Head, CrcField;
    assert header[26..] == [LowByte(|p.segments|)];
  }

  lemma ParsePageIs(src: seq<byte>, check: bool, p: Parts)
    requires Split(src) == Ok(p)
    ensures ParsePage(src, check) ==
            if check && !Intact(p) then Err(ChecksumMismatch) else Ok(Parsed(p.payload, HeaderOf(p.header), p.rest))
  {}

  lemma IntactIs(p: Page, crc: bv32, header: seq<byte>, rest: seq<byte>)
    requires |header| == HEADER_SIZE && CrcOfField(header[22..26]) == crc == Checksum(Head(p), Tail(p))
    requires header[..22] == Head(p) && header[26..] + p.segments + p.payload == Tail(p)
    ensures Intact(Parts(header, p.segments, p.payload, rest))
  {
    hide Checksum, CrcOfField;
  }

  /** The signature is not looked at: with any other, and its own checksum, a page is accepted. */
  lemma SignatureUnchecked(p: Page, signature: seq<byte>, rest: seq<byte>, check: bool)
    requires WellFormed(p) && |signature| == 4
    ensures var head := signature + Head(p)[4..];
            var header := head + CrcField(Checksum(head, Tail(p))) + [LowByte(|p.segments|)];
            var r := ParsePage(header + p.segments + p.payload + rest, check);
            r.Ok? && r.value.payload == p.payload && r.value.header.signature == signature && r.value.rest == rest
  {
    hide Head, Checksum, CrcField, CrcOfField, Sum, Le32, Le64, FromLe32, FromLe64;
    var head := signature + Head(p)[4..];
    var crc := Checksum(head, Tail(p));
    var header := head + CrcField(crc) + [LowByte(|p.segments|)];
    SplitRaw(header, p.segments, p.payload, rest);
    CrcFieldInverse(crc, CrcField(crc));
    assert header[..22] == head && header[22..26] == CrcField(crc);
    assert header[26..] == [LowByte(|p.segments|)] && head[..4] == header[..4] == signature;
  }

  /** Damage confined to four consecutive payload bytes of a page is always noticed. */
  lemma DamageDetected(p: Page, before: seq<byte>, v: seq<byte>, w: seq<byte>, after: seq<byte>, rest: seq<byte>)
    requires WellFormed(p) && p.payload == before + v + after && |v| == |w| <= 4 && v != w
    ensures var header := Head(p) + CrcField(Checksum(Head(p), Tail(p))) + [LowByte(|p.segments|)];
            && PageBytes(p) == header + p.segments + p.payload
            && ParsePage(header + p.segments + (before + w + after) + rest, true) == Err(ChecksumMismatch)
  {
    var crc := Checksum(Head(p), Tail(p));
    var header := Head(p) + CrcField(crc) + [LowByte(|p.segments|)];
    var bad := before + w + after;
    hide Head, Checksum, CrcField, CrcOfField, Sum;
    HeaderSplit(p, crc, header);
    SplitRaw(header, p.segments, bad, rest);
    CrcFieldInverse(crc, CrcField(crc));
    ChecksumsDiffer(Head(p), header[26..] + p.segments, before, v, w, after);
    assert header[26..] + p.segments + p.payload == header[26..] + p.segments + (before + v + after);
  }

  lemma ChecksumsDiffer(
    head: seq<byte>, front: seq<byte>, before: seq<byte>, v: seq<byte>, w: seq<byte>, after: seq<byte>)
    requires |v| == |w| <= 4 && v != w
    ensures Checksum(head, front + (before + v + after)) != Checksum(head, front + (before + w + after))
  {
    hide Register;
    var start := head + [0, 0, 0, 0] + front + before;
    BurstDetected(0, start, v, w, after);
    assert head + [0, 0, 0, 0] + (front + (before + v + after)) == start + v + after;
    assert head + [0, 0, 0, 0] + (front + (before + w + after)) == start + w + after;
  }

  /** The page that a parsed one is, field by field. */
  function PageOf(p: Parts): Page
    requires |p.header| == HEADER_SIZE
  {
    Page(p.header[5], FromLe64(p.header[6..14]), FromLe32(p.header[14..18]), FromLe32(p.header[18..22]),
         p.segments, p.payload)
  }

  /** The reader accepts nothing else: an accepted page with the Ogg signature and version 0
      consists of exactly the bytes that the writer creates for its fields. */
  lemma PageIsCanonical(src: seq<byte>) returns (p: Page)
    requires ParsePage(src, true).Ok?
    requires ParsePage(src, true).value.header.signature == SIGNATURE && ParsePage(src, true).value.header.version == 0
    ensures WellFormed(p) && src == PageBytes(p) + ParsePage(src, true).value.rest
    ensures p.payload == ParsePage(src, true).value.payload && Announced(p) == ParsePage(src, true).value.header
  {
    hide Checksum, CrcOfField, CrcField, Head, Tail, FromLe32, FromLe64, Sum;
    var parts := Split(src).value;
    p := PageOf(parts);
    SplitLengths(src);
    HeadBack(parts);
    HeadFields(p, parts.header);
    TailBack(parts);
    CrcFieldInverse(0, parts.header[22..26]);
    assert parts.header == parts.header[..22] + parts.header[22..26] + parts.header[26..];
    PartsJoin(parts);
  }

  lemma SplitLengths(src: seq<byte>)
    requires Split(src).Ok?
    ensures var p := Split(src).value;
            && |p.segments| == p.header[26] as nat && |p.payload| == Sum(p.segments)
            && src == p.header + p.segments + p.payload + p.rest
  {
    hide Sum;
  }

  lemma HeadBack(p: Parts)
    requires |p.header| == HEADER_SIZE && p.header[..4] == SIGNATURE && p.header[4] == 0
    ensures p.header[..22] == Head(PageOf(p))
  {
    hide Le32, Le64, FromLe32, FromLe64;
    var h := p.header;
    Le64Inverse(0, h[6..14]);
    Le32Inverse(0, h[14..18]);
    Le32Inverse(0, h[18..22]);
    HeadIs(PageOf(p), h);
  }

  lemma TailBack(p: Parts)
    requires |p.header| == HEADER_SIZE && |p.segments| == p.header[26] as nat
    ensures Tail(PageOf(p)) == p.header[26..] + p.segments + p.payload
  {
    assert p.header[26..] == [p.header[26]];
  }

  lemma PartsJoin(p: Parts)
    requires |p.header| == HEADER_SIZE
    ensures p.header + p.segments + p.payload + p.rest ==
            p.header[..22] + p.header[22..26] + (p.header[26..] + p.segments + p.payload) + p.rest
  {
    assert p.header == p.header[..22] + p.header[22..26] + p.header[26..];
  }

  class Reader {
    var rest: seq<byte>
    var bytesRead: int
    const table: seq<bv32>
    const doChecksum: bool

    ghost predicate Valid() {
      IsTable(table)
    }

    constructor (src: seq<byte>, check: bool)
      ensures Valid() && rest == src && bytesRead == 0 && doChecksum == check
    {
      var entries := BuildTable();
      rest, bytesRead, doChecksum := src, 0, check;
      table := entries[..];
    }

    method Take(n: nat) returns (r: Result<seq<byte>, Error>)
      modifies this`rest
      ensures r == ReadFull(old(rest), n)
      ensures rest == if r.Ok? then old(rest)[n..] else []
    {
      if |rest| < n {
        r := Err(if |rest| == 0 then Eof else UnexpectedEof);
        rest := [];
        return;
      }
      r := Ok(rest[..n]);
      rest := rest[n..];
    }

    method UpdateChecksum(crc: bv32, v: byte) returns (next: bv32)
      requires Valid()
      ensures next == FeedByte(crc, v)
    {
      hide TableEntry, FeedByte, Slot, Fold;
      TableStep(crc, v);
      TableAt(table, Slot(crc, v));
      next := Fold(crc, table[Slot(crc, v) as nat]);
    }

    /** The checksum over the header, its own field taken as zero, the segments and the payload. */
    method PageChecksum(header: seq<byte>, segments: seq<byte>, payload: seq<byte>) returns (crc: bv32)
      requires Valid() && |header| == HEADER_SIZE
      ensures crc == Checksum(header[..22], header[26..] + segments + payload)
    {
      hide IsTable, FeedByte, Register;
      ghost var blanked := header[..22] + [0, 0, 0, 0] + header[26..];
      crc := 0;
      for i := 0 to HEADER_SIZE
        invariant Register(crc, blanked[i..]) == Register(0, blanked)
      {
        RegisterNext(crc, blanked, i);
        crc := UpdateChecksum(crc, if i > 21 && i < 26 then 0 else header[i]);
      }
      RegisterDone(crc, blanked[HEADER_SIZE..]);
      crc := TableDriven(table, crc, segments);
      crc := TableDriven(table, crc, payload);
      RegisterConcat(0, blanked, segments);
      RegisterConcat(0, blanked + segments, payload);
      assert blanked + segments + payload == header[..22] + [0, 0, 0, 0] + (header[26..] + segments + payload);
    }

    /** A page that is accepted counts with exactly its bytes; a failure does not count. */
    method ParseNextPage() returns (r: Result<(seq<byte>, PageHeader), Error>)
      requires Valid()
      modifies this
      ensures rest == AfterPage(old(rest))
      ensures ParsePage(old(rest), doChecksum).Err? ==>
                r == Err(ParsePage(old(rest), doChecksum).error) && bytesRead == old(bytesRead)
      ensures ParsePage(old(rest), doChecksum).Ok? ==>
                var p := ParsePage(old(rest), doChecksum).value;
                && r == Ok((p.payload, p.header)) && rest == p.rest
                && bytesRead == old(bytesRead) + |old(rest)| - |rest|
    {
      hide Checksum, Sum, CrcOfField, HeaderOf, IsTable;
      var header := Take(HEADER_SIZE);
      if header.Err? {
        return Err(header.error);
      }
      var h := header.value;
      var segments := Take(h[26] as nat);
      if segments.Err? {
        return Err(segments.error);
      }
      var payloadSize := SumOf(segments.value);
      var payload := Take(payloadSize);
      if payload.Err? {
        return Err(payload.error);
      }
      SplitIs(old(rest), h, segments.value, payload.value, rest);
      if doChecksum {
        var crc := PageChecksum(h, segments.value, payload.value);
        if CrcOfField(h[22..26]) != crc {
          return Err(ChecksumMismatch);
        }
      }
      bytesRead := bytesRead + (|h| + |segments.value| + |payload.value|);
      r := Ok((payload.value, HeaderOf(h)));
    }
  }

  lemma RegisterNext(r: bv32, data: seq<byte>, i: nat)
    requires i < |data|
    ensures Register(r, data[i..]) == Register(FeedByte(r, data[i]), data[i + 1..])
  {
    hide FeedByte;
    assert data[i..][1..] == data[i + 1..];
  }

  lemma RegisterDone(r: bv32, data: seq<byte>)
    requires data == []
    ensures Register(r, data) == r
  {}

  method SumOf(segments: seq<byte>) returns (size: nat)
    ensures size == Sum(segments)
  {
    size := 0;
    for i := 0 to |segments|
      invariant size + Sum(segments[i..]) == Sum(segments)
    {
      assert segments[i..][1..] == segments[i + 1..];
      size := size + segments[i] as nat;
    }
  }

  lemma SplitIs(src: seq<byte>, header: seq<byte>, segments: seq<byte>, payload: seq<byte>, rest: seq<byte>)
    requires ReadFull(src, HEADER_SIZE) == Ok(header)
    requires ReadFull(src[HEADER_SIZE..], header[26] as nat) == Ok(segments)
    requires ReadFull(src[HEADER_SIZE..][header[26] as nat..], Sum(segments)) == Ok(payload)
    requires rest == src[HEADER_SIZE..][header[26] as nat..][Sum(segments)..]
    ensures Split(src) == Ok(Parts(header, segments, payload, rest))
    ensures |rest| == |src| - HEADER_SIZE - |segments| - |payload|
  {
    hide Sum;
    assert src[HEADER_SIZE..][header[26] as nat..] == src[HEADER_SIZE + header[26] as nat..];
  }
}
