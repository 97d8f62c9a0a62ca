/** The Ogg file that oggwriter/oggwriter.go produces over a whole run of calls, as a value: which
    pages it holds, in which order, and what each logical bitstream looks like. */
module OggMux {
  import opened Bits
  import opened Bytes
  import opened OggPage
  import opened OggPaging
  import opened OggStream
  import Opus
  import OpusTags

  datatype Error =
    | OutputNotOpened | TracksStarted | DuplicateSsrc | DuplicateSerial | InvalidTags
    | NilPacket | SsrcMismatch | Depacketize | InvalidOpusPacket

  /** A track's configuration once its options have been applied to the writer's defaults. */
  datatype TrackConfig = TrackConfig(
    sampleRate: uint32, mapping: Opus.Mapping, tags: OpusTags.Tags, serial: Option<uint32>)

  /** An RTP packet and what the Opus depacketizer makes of it. */
  datatype Rtp = Rtp(ssrc: uint32, opus: Depacketized)

  datatype Depacketized = Broken | Nothing | Opus(payload: seq<byte>)

  /** A logical bitstream: what identifies it, its two header packets, the packets written so far
      and the running granule position. */
  datatype Stream = Stream(
    ssrc: uint32, serial: uint32, id: seq<byte>, tags: seq<byte>, packets: seq<Packet>, granule: uint64)

  datatype State = State(open: bool, started: bool, streams: seq<Stream>, pages: seq<Page>)

  const NEW_FILE := State(true, false, [], [])

  function IdPacket(s: Stream): Packet { Packet(s.id, BEGINNING, 0) }

  function TagsPacket(s: Stream): Packet { Packet(s.tags, 0, 0) }

  /** The number of the next page of a stream. */
  function NextIndex(s: Stream): uint32 {
    IndexAt(0, |Logical(s.packets, s.serial, 0)|)
  }

  function PutPacket(st: State, i: nat, p: Packet, granule: uint64): State
    requires i < |st.streams|
  {
    var s := st.streams[i];
    st.(streams := st.streams[i := s.(packets := s.packets + [p], granule := granule)],
        pages := st.pages + PagesFor(p, s.serial, NextIndex(s), true))
  }

  function IdParts(streams: seq<Stream>): (parts: seq<seq<Page>>)
    ensures |parts| == |streams|
  {
    seq(|streams|, i requires 0 <= i < |streams| => PagesFor(IdPacket(streams[i]), streams[i].serial, 0, true))
  }

  /** The tags follow a single page. */
  function TagParts(streams: seq<Stream>): (parts: seq<seq<Page>>)
    ensures |parts| == |streams|
  {
    seq(|streams|, i requires 0 <= i < |streams| => PagesFor(TagsPacket(streams[i]), streams[i].serial, 1, true))
  }

  /** All OpusHead pages, then all OpusTags pages, in the order of the tracks. */
  function HeaderPages(streams: seq<Stream>): seq<Page> {
    Flatten(IdParts(streams)) + Flatten(TagParts(streams))
  }

  function Begun(s: Stream): Stream { s.(packets := [IdPacket(s), TagsPacket(s)]) }

  function AllBegun(streams: seq<Stream>): (r: seq<Stream>)
    ensures |r| == |streams|
  {
    seq(|streams|, i requires 0 <= i < |streams| => Begun(streams[i]))
  }

  /** startLocked: the headers of all tracks, once. */
  function Start(st: State): (r: State)
    ensures |r.streams| == |st.streams|
  {
    if st.started then st
    else st.(started := true, streams := AllBegun(st.streams), pages := st.pages + HeaderPages(st.streams))
  }

  function WriteOpus(st: State, i: nat, payload: seq<byte>): (State, Option<Error>)
    requires i < |st.streams|
  {
    match Opus.SampleCount(payload)
    case Err(_) => (st, Some(InvalidOpusPacket))
    case Ok(n) =>
      var granule := (st.streams[i].granule + n) % UINT64_LIMIT;
      (PutPacket(st, i, Packet(payload, 0, granule), granule), None)
  }

  predicate SerialInUse(streams: seq<Stream>, serial: uint32) {
    exists i :: 0 <= i < |streams| && streams[i].serial == serial
  }

  predicate SsrcInUse(streams: seq<Stream>, ssrc: uint32) {
    exists i :: 0 <= i < |streams| && streams[i].ssrc == ssrc
  }

  /** NewTrack; `drawn` is the serial found by allocateSerial if none is configured. */
  function AddTrack(st: State, ssrc: uint32, c: TrackConfig, drawn: uint32, utf8: seq<byte> -> bool)
    : (State, Option<Error>)
  {
    if !st.open then (st, Some(OutputNotOpened))
    else if st.started then (st, Some(TracksStarted))
    else if SsrcInUse(st.streams, ssrc) then (st, Some(DuplicateSsrc))
    else if !OpusTags.ValidTags(c.tags, utf8) then (st, Some(InvalidTags))
    else
      var serial := if c.serial == None then drawn else c.serial.value;
      if SerialInUse(st.streams, serial) then (st, Some(DuplicateSerial))
      else
        var s := Stream(ssrc, serial, Opus.IdHeader(c.sampleRate, c.mapping), OpusTags.HeaderBytes(c.tags), [], 0);
        (st.(streams := st.streams + [s]), None)
  }

  /** Track.WriteRTP on the i-th track. */
  function WriteRtp(st: State, i: nat, packet: Option<Rtp>): (State, Option<Error>)
    requires i < |st.streams|
  {
    if !st.open then (st, Some(OutputNotOpened))
    else if packet == None then (st, Some(NilPacket))
    else if packet.value.ssrc != st.streams[i].ssrc then (st, Some(SsrcMismatch))
    else
      match packet.value.opus
      case Broken => (st, Some(Depacketize))
      case Nothing => (st, None)
      case Opus(payload) => WriteOpus(Start(st), i, payload)
  }

  /** The EOS page appended where pages cannot be rewritten; none if the page counter stands at 0. */
  function EosPages(s: Stream): seq<Page> {
    if NextIndex(s) == 0 then [] else [Page(ENDING, s.granule, s.serial, NextIndex(s), [], [])]
  }

  function EosParts(streams: seq<Stream>): (parts: seq<seq<Page>>)
    ensures |parts| == |streams|
  {
    seq(|streams|, i requires 0 <= i < |streams| => EosPages(streams[i]))
  }

  function Marked(p: Page): Page { p.(headerType := WithEos(p.headerType)) }

  /** The pages once the last one with this serial has been rewritten with the EOS flag. */
  function MarkLast(pages: seq<Page>, serial: uint32): (r: seq<Page>)
    ensures |r| == |pages|
  {
    if pages == [] then []
    else
      var n := |pages| - 1;
      if pages[n].serial == serial then pages[..n] + [Marked(pages[n])]
      else MarkLast(pages[..n], serial) + [pages[n]]
  }

  function MarkAll(pages: seq<Page>, streams: seq<Stream>): (r: seq<Page>)
    ensures |r| == |pages|
  {
    if streams == [] then pages
    else MarkLast(MarkAll(pages, streams[..|streams| - 1]), streams[|streams| - 1].serial)
  }

  /** Close; `seekable` says whether written pages can be rewritten. */
  function Close(st: State, seekable: bool): State {
    if !st.open then st
    else
      var s := Start(st);
      s.(open := false,
         pages := if seekable then MarkAll(s.pages, s.streams) else s.pages + Flatten(EosParts(s.streams)))
  }

  datatype Op =
    | NewTrack(ssrc: uint32, config: TrackConfig, drawn: uint32)
    | Write(track: nat, packet: Option<Rtp>)
    | Finish

  /** Writes go to tracks that exist, and allocateSerial returns a serial that is not in use. */
  predicate Feasible(st: State, op: Op) {
    match op
    case NewTrack(_, c, drawn) => c.serial == None ==> !SerialInUse(st.streams, drawn)
    case Write(i, _) => i < |st.streams|
    case Finish => true
  }

  function Step(st: State, op: Op, seekable: bool, utf8: seq<byte> -> bool): State
    requires Feasible(st, op)
  {
    match op
    case NewTrack(ssrc, c, drawn) => AddTrack(st, ssrc, c, drawn, utf8).0
    case Write(i, packet) => WriteRtp(st, i, packet).0
    case Finish => Close(st, seekable)
  }

  predicate FeasibleRun(st: State, ops: seq<Op>, seekable: bool, utf8: seq<byte> -> bool)
    decreases |ops|
  {
    ops == [] || (Feasible(st, ops[0]) && FeasibleRun(Step(st, ops[0], seekable, utf8), ops[1..], seekable, utf8))
  }

  function Run(st: State, ops: seq<Op>, seekable: bool, utf8: seq<byte> -> bool): State
    requires FeasibleRun(st, ops, seekable, utf8)
    decreases |ops|
  {
    if ops == [] then st else Run(Step(st, ops[0], seekable, utf8), ops[1..], seekable, utf8)
  }

  // The pages of one stream.

  function OfSerial(pages: seq<Page>, serial: uint32): seq<Page> {
    if pages == [] then []
    else (if pages[0].serial == serial then [pages[0]] else []) + OfSerial(pages[1..], serial)
  }

  lemma {:induction false} OfSerialConcat(a: seq<Page>, b: seq<Page>, serial: uint32)
    ensures OfSerial(a + b, serial) == OfSerial(a, serial) + OfSerial(b, serial)
  {
    if a == [] {
      assert a + b == b;
      assert [] + OfSerial(b, serial) == OfSerial(b, serial);
    } else {
      assert (a + b)[1..] == a[1..] + b;
      OfSerialConcat(a[1..], b, serial);
      ConcatAssoc(if a[0].serial == serial then [a[0]] else [], OfSerial(a[1..], serial), OfSerial(b, serial));
    }
  }

  ghost predicate Only(pages: seq<Page>, serial: uint32) {
    forall k :: 0 <= k < |pages| ==> pages[k].serial == serial
  }

  lemma {:induction false} OfOnly(pages: seq<Page>, own: uint32, serial: uint32)
    requires Only(pages, own)
    ensures OfSerial(pages, serial) == if own == serial then pages else []
  {
    if pages != [] {
      OfOnly(pages[1..], own, serial);
    }
  }

  lemma {:induction false} PacketOnly(p: Packet, serial: uint32, index: uint32, first: bool)
    ensures Only(PagesFor(p, serial, index, first), serial)
    decreases |p.payload|
  {
    PagesUnfold(p, serial, index, first);
    hide PagesFor, Lacing, Full, PacketPageType, IndexAt;
    var pages := PagesFor(p, serial, index, first);
    if |p.payload| >= MAX_PAYLOAD {
      PacketOnly(p.(payload := p.payload[MAX_PAYLOAD..]), serial, IndexAt(index, 1), false);
      assert pages == [pages[0]] + pages[1..];
    }
  }

  ghost predicate DistinctSerials(streams: seq<Stream>) {
    forall i, j :: 0 <= i < j < |streams| ==> streams[i].serial != streams[j].serial
  }

  /** One list of pages per stream, each with the stream's serial only. */
  ghost predicate PartsOf(parts: seq<seq<Page>>, streams: seq<Stream>) {
    |parts| == |streams| && forall i :: 0 <= i < |streams| ==> Only(parts[i], streams[i].serial)
  }

  lemma {:induction false} OfAbsent(parts: seq<seq<Page>>, streams: seq<Stream>, serial: uint32)
    requires PartsOf(parts, streams) && !SerialInUse(streams, serial)
    ensures OfSerial(Flatten(parts), serial) == []
    decreases |parts|
  {
    if parts != [] {
      hide OfSerial, Only;
      assert Only(parts[0], streams[0].serial);
      OfOnly(parts[0], streams[0].serial, serial);
      OfAbsent(parts[1..], streams[1..], serial);
      OfSerialConcat(parts[0], Flatten(parts[1..]), serial);
    }
  }

  /** Interleaved in any list of parts, a stream finds its own part. */
  lemma {:induction false} OfParts(parts: seq<seq<Page>>, streams: seq<Stream>, i: nat)
    requires PartsOf(parts, streams) && DistinctSerials(streams) && i < |streams|
    ensures OfSerial(Flatten(parts), streams[i].serial) == parts[i]
    decreases |parts|
  {
    hide OfSerial, Only;
    var serial := streams[i].serial;
    assert Only(parts[0], streams[0].serial);
    OfOnly(parts[0], streams[0].serial, serial);
    OfSerialConcat(parts[0], Flatten(parts[1..]), serial);
    if i == 0 {
      OfAbsent(parts[1..], streams[1..], serial);
      assert parts[0] + [] == parts[0];
    } else {
      OfParts(parts[1..], streams[1..], i - 1);
      assert streams[1..][i - 1] == streams[i] && parts[1..][i - 1] == parts[i];
      assert [] + parts[i] == parts[i];
    }
  }
}
