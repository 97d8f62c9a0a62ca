/** What holds of every file written by any run of NewTrack, WriteRTP and Close (section 4 of
    RFC 3533, sections 3 and 4 of RFC 7845). */
module OggRuns {
  import opened Bits
  import opened Bytes
  import opened OggMux
  import opened OggPage
  import opened OggPaging
  import opened OggStream
  import OggReader
  import Opus
  import OpusTags

  function Samples(payload: seq<byte>): nat {
    match Opus.SampleCount(payload)
    case Ok(n) => n
    case Err(_) => 0
  }

  /** How long the packets last, in samples at 48 kHz. */
  function Duration(packets: seq<Packet>): nat {
    if packets == [] then 0
    else Duration(packets[..|packets| - 1]) + Samples(packets[|packets| - 1].payload)
  }

  /** Audio packets, each with the running sum of the durations as its granule position. */
  ghost predicate Audio(packets: seq<Packet>) {
    forall k :: 0 <= k < |packets| ==>
      && packets[k].headerType == 0 && Opus.SampleCount(packets[k].payload).Ok?
      && packets[k].granule == Duration(packets[..k + 1]) % UINT64_LIMIT
  }

  /** A stream whose headers have been written. */
  ghost predicate StreamOk(s: Stream) {
    && |s.packets| >= 2 && s.packets[0] == IdPacket(s) && s.packets[1] == TagsPacket(s)
    && Audio(s.packets[2..]) && s.granule == Duration(s.packets[2..]) % UINT64_LIMIT
  }

  ghost predicate KnownSerials(st: State) {
    forall k :: 0 <= k < |st.pages| ==> SerialInUse(st.streams, st.pages[k].serial)
  }

  ghost predicate ShortIds(streams: seq<Stream>) {
    forall i :: 0 <= i < |streams| ==> |streams[i].id| < MAX_PAYLOAD
  }

  /** The pages of every stream are those of its packets. */
  ghost predicate Separated(st: State) {
    forall i :: 0 <= i < |st.streams| ==>
      OfSerial(st.pages, st.streams[i].serial) == Logical(st.streams[i].packets, st.streams[i].serial, 0)
  }

  ghost predicate Idle(s: Stream) { s.packets == [] && s.granule == 0 }

  ghost predicate Progress(st: State) {
    if st.started then
      HeaderPages(st.streams) <= st.pages && forall i :: 0 <= i < |st.streams| ==> StreamOk(st.streams[i])
    else st.pages == [] && forall i :: 0 <= i < |st.streams| ==> Idle(st.streams[i])
  }

  /** What every state of an open writer satisfies. */
  ghost predicate Invariant(st: State) {
    && DistinctSerials(st.streams) && ShortIds(st.streams) && KnownSerials(st)
    && Separated(st) && Progress(st) && AllWellFormed(st.pages)
  }

  lemma TrackAdded(st: State, ssrc: uint32, c: TrackConfig, drawn: uint32, utf8: seq<byte> -> bool)
    requires Invariant(st) && st.open
    ensures Invariant(AddTrack(st, ssrc, c, drawn, utf8).0)
  {
    hide Opus.IdHeader, OpusTags.HeaderBytes, OpusTags.ValidTags, HeaderPages;
  }

  // Starting.

  lemma HeadersSeparate(streams: seq<Stream>, i: nat)
    requires DistinctSerials(streams) && ShortIds(streams) && i < |streams|
    ensures OfSerial(HeaderPages(streams), streams[i].serial) ==
            Logical(Begun(streams[i]).packets, streams[i].serial, 0)
  {
    hide *;
    var s := streams[i];
    var ids, tags := IdParts(streams), TagParts(streams);
    HeaderPartsOf(streams);
    OfSerialConcat(Flatten(ids), Flatten(tags), s.serial);
    OfParts(ids, streams, i);
    OfParts(tags, streams, i);
    HeaderPartsAt(streams, i);
    BegunLogical(s);
  }

  lemma HeaderPartsOf(streams: seq<Stream>)
    ensures PartsOf(IdParts(streams), streams) && PartsOf(TagParts(streams), streams)
    ensures HeaderPages(streams) == Flatten(IdParts(streams)) + Flatten(TagParts(streams))
  {
    hide PagesFor, Only;
    forall i | 0 <= i < |streams|
      ensures Only(IdParts(streams)[i], streams[i].serial) && Only(TagParts(streams)[i], streams[i].serial)
    {
      PacketOnly(IdPacket(streams[i]), streams[i].serial, 0, true);
      PacketOnly(TagsPacket(streams[i]), streams[i].serial, 1, true);
    }
  }

  lemma HeaderPartsAt(streams: seq<Stream>, i: nat)
    requires i < |streams| && ShortIds(streams)
    ensures IdParts(streams)[i] == PagesFor(IdPacket(streams[i]), streams[i].serial, 0, true)
    ensures TagParts(streams)[i] == PagesFor(TagsPacket(streams[i]), streams[i].serial, 1, true)
    ensures |streams[i].id| < MAX_PAYLOAD
  {
    hide PagesFor;
  }

  lemma BegunLogical(s: Stream)
    requires |s.id| < MAX_PAYLOAD
    ensures Logical(Begun(s).packets, s.serial, 0) ==
            PagesFor(IdPacket(s), s.serial, 0, true) + PagesFor(TagsPacket(s), s.serial, 1, true)
  {
    var id, tags := PagesFor(IdPacket(s), s.serial, 0, true), PagesFor(TagsPacket(s), s.serial, 1, true);
    assert |id| == 1 && IndexAt(0, 1) == 1;
    hide PagesFor, IndexAt;
    var packets := Begun(s).packets;
    assert packets[1..] == [TagsPacket(s)] && [TagsPacket(s)][1..] == [];
    LogicalUnfold(packets, s.serial, 0);
    LogicalUnfold(packets[1..], s.serial, 1);
    LogicalUnfold([], s.serial, IndexAt(1, |tags|));
    assert tags + [] == tags;
  }

  lemma {:induction false} PartsKnown(parts: seq<seq<Page>>, streams: seq<Stream>, k: nat)
    requires PartsOf(parts, streams) && k < |Flatten(parts)|
    ensures SerialInUse(streams, Flatten(parts)[k].serial)
    decreases |parts|
  {
    if k < |parts[0]| {
      assert Flatten(parts)[k] == parts[0][k];
      assert Only(parts[0], streams[0].serial);
    } else {
      assert Flatten(parts)[k] == Flatten(parts[1..])[k - |parts[0]|];
      PartsKnown(parts[1..], streams[1..], k - |parts[0]|);
      var i :| 0 <= i < |streams[1..]| && streams[1..][i].serial == Flatten(parts)[k].serial;
      assert streams[i + 1].serial == Flatten(parts)[k].serial;
    }
  }

  lemma {:induction false} PartsWellFormed(parts: seq<seq<Page>>)
    requires forall i :: 0 <= i < |parts| ==> AllWellFormed(parts[i])
    ensures AllWellFormed(Flatten(parts))
  {
    if parts != [] {
      hide WellFormed;
      PartsWellFormed(parts[1..]);
      assert AllWellFormed(parts[0]);
    }
  }

  lemma HeadersWellFormed(streams: seq<Stream>)
    ensures AllWellFormed(HeaderPages(streams))
  {
    hide PagesFor, AllWellFormed;
    var ids, tags := IdParts(streams), TagParts(streams);
    forall i | 0 <= i < |streams|
      ensures AllWellFormed(ids[i]) && AllWellFormed(tags[i])
    {
      PacketWellFormed(IdPacket(streams[i]), streams[i].serial, 0, true);
      PacketWellFormed(TagsPacket(streams[i]), streams[i].serial, 1, true);
    }
    PartsWellFormed(ids);
    PartsWellFormed(tags);
    ConcatWellFormed(Flatten(ids), Flatten(tags));
  }

  lemma ConcatWellFormed(a: seq<Page>, b: seq<Page>)
    requires AllWellFormed(a) && AllWellFormed(b)
    ensures AllWellFormed(a + b)
  {}

  /** The header pages depend on the identity of the streams only. */
  lemma SameHeaders(a: seq<Stream>, b: seq<Stream>)
    requires |a| == |b|
    requires forall i :: 0 <= i < |a| ==> a[i].serial == b[i].serial && a[i].id == b[i].id && a[i].tags == b[i].tags
    ensures HeaderPages(a) == HeaderPages(b)
  {
    hide PagesFor;
    forall i | 0 <= i < |a|
      ensures IdParts(a)[i] == IdParts(b)[i] && TagParts(a)[i] == TagParts(b)[i]
    {
      assert IdPacket(a[i]) == IdPacket(b[i]) && TagsPacket(a[i]) == TagsPacket(b[i]);
    }
    assert IdParts(a) == IdParts(b) && TagParts(a) == TagParts(b);
  }

  lemma Started(st: State)
    requires Invariant(st)
    ensures Invariant(Start(st)) && Start(st).started && Start(st).open == st.open
  {
    hide HeaderPages, OfSerial, Logical, IdPacket, TagsPacket, AllWellFormed, Duration, SerialInUse, StreamOk;
    if !st.started {
      var r := Start(st);
      StartedParts(st);
      SameHeaders(st.streams, r.streams);
      HeadersWellFormed(st.streams);
      forall i | 0 <= i < |r.streams|
        ensures OfSerial(r.pages, r.streams[i].serial) == Logical(r.streams[i].packets, r.streams[i].serial, 0)
      {
        HeadersSeparate(st.streams, i);
      }
      forall k | 0 <= k < |r.pages|
        ensures SerialInUse(r.streams, r.pages[k].serial)
      {
        HeadersKnown(st.streams, k);
        SameSerials(st.streams, r.streams, r.pages[k].serial);
      }
      forall i | 0 <= i < |r.streams|
        ensures StreamOk(r.streams[i])
      {
        NewStreamOk(st.streams[i]);
      }
    }
  }

  lemma StartedParts(st: State)
    requires !st.started && Progress(st)
    ensures var r := Start(st);
            && r.started && r.open == st.open && r.pages == HeaderPages(st.streams) && |r.streams| == |st.streams|
            && forall i :: 0 <= i < |r.streams| ==> Idle(st.streams[i]) && r.streams[i] == Begun(st.streams[i])
  {
    hide HeaderPages;
    assert [] + HeaderPages(st.streams) == HeaderPages(st.streams);
  }

  lemma NewStreamOk(s: Stream)
    requires Idle(s)
    ensures StreamOk(Begun(s))
  {
    assert Begun(s).packets[2..] == [];
  }

  lemma HeadersKnown(streams: seq<Stream>, k: nat)
    requires k < |HeaderPages(streams)|
    ensures SerialInUse(streams, HeaderPages(streams)[k].serial)
  {
    hide SerialInUse, IdParts, TagParts, PartsOf;
    HeaderPartsOf(streams);
    var ids, tags := Flatten(IdParts(streams)), Flatten(TagParts(streams));
    if k < |ids| {
      PartsKnown(IdParts(streams), streams, k);
    } else {
      PartsKnown(TagParts(streams), streams, k - |ids|);
    }
  }

  lemma SameSerials(a: seq<Stream>, b: seq<Stream>, serial: uint32)
    requires |a| == |b| && forall i :: 0 <= i < |a| ==> a[i].serial == b[i].serial
    ensures SerialInUse(a, serial) == SerialInUse(b, serial)
  {
    if SerialInUse(a, serial) {
      var i :| 0 <= i < |a| && a[i].serial == serial;
      assert b[i].serial == serial;
    }
  }

  // Writing.

  /** One more audio packet on the i-th track. */
  lemma PacketPut(st: State, i: nat, payload: seq<byte>)
    requires Invariant(st) && st.started && i < |st.streams| && Opus.SampleCount(payload).Ok?
    ensures var (r, err) := WriteOpus(st, i, payload);
            Invariant(r) && r.started && r.open == st.open && err == None
  {
    hide *;
    var granule := (st.streams[i].granule + Samples(payload)) % UINT64_LIMIT;
    var p := Packet(payload, 0, granule);
    InvariantParts(st);
    WrittenIs(st, i, payload);
    PutKeepsStreams(st, i, p, granule);
    PutKnown(st, i, p, granule);
    PutProgress(st, i, payload);
    PutWellFormed(st, i, p, granule);
    forall j | 0 <= j < |st.streams|
      ensures OfSerial(PutPacket(st, i, p, granule).pages, PutPacket(st, i, p, granule).streams[j].serial) ==
              Logical(PutPacket(st, i, p, granule).streams[j].packets, PutPacket(st, i, p, granule).streams[j].serial, 0)
    {
      PutSeparated(st, i, p, granule, j);
    }
    InvariantFrom(st, PutPacket(st, i, p, granule));
  }

  lemma InvariantParts(st: State)
    requires Invariant(st)
    ensures DistinctSerials(st.streams) && ShortIds(st.streams) && KnownSerials(st)
    ensures Separated(st) && Progress(st) && AllWellFormed(st.pages)
  {}

  lemma InvariantFrom(st: State, r: State)
    requires Invariant(st) && |r.streams| == |st.streams|
    requires forall j :: 0 <= j < |r.streams| ==>
               && r.streams[j].serial == st.streams[j].serial && r.streams[j].id == st.streams[j].id
               && OfSerial(r.pages, r.streams[j].serial) == Logical(r.streams[j].packets, r.streams[j].serial, 0)
    requires KnownSerials(r) && Progress(r) && AllWellFormed(r.pages)
    ensures Invariant(r)
  {
    hide KnownSerials, Progress, AllWellFormed, OfSerial, Logical;
  }

  lemma WrittenIs(st: State, i: nat, payload: seq<byte>)
    requires i < |st.streams| && Opus.SampleCount(payload).Ok?
    ensures var granule := (st.streams[i].granule + Samples(payload)) % UINT64_LIMIT;
            WriteOpus(st, i, payload) == (PutPacket(st, i, Packet(payload, 0, granule), granule), None)
  {
    hide PutPacket, Opus.SampleCount;
  }

  lemma PutProgress(st: State, i: nat, payload: seq<byte>)
    requires Progress(st) && st.started && i < |st.streams| && Opus.SampleCount(payload).Ok?
    ensures var granule := (st.streams[i].granule + Samples(payload)) % UINT64_LIMIT;
            Progress(PutPacket(st, i, Packet(payload, 0, granule), granule))
  {
    hide *;
    var granule := (st.streams[i].granule + Samples(payload)) % UINT64_LIMIT;
    var p := Packet(payload, 0, granule);
    var r := PutPacket(st, i, p, granule);
    ProgressParts(st);
    PutKeepsStreams(st, i, p, granule);
    StreamExtended(st.streams[i], payload);
    SameHeaders(st.streams, r.streams);
    assert st.pages <= r.pages;
    ProgressFrom(r);
  }

  lemma ProgressParts(st: State)
    requires Progress(st) && st.started
    ensures HeaderPages(st.streams) <= st.pages && forall i :: 0 <= i < |st.streams| ==> StreamOk(st.streams[i])
  {
    hide StreamOk, HeaderPages;
  }

  lemma ProgressFrom(st: State)
    requires st.started && HeaderPages(st.streams) <= st.pages
    requires forall i :: 0 <= i < |st.streams| ==> StreamOk(st.streams[i])
    ensures Progress(st)
  {
    hide StreamOk, HeaderPages;
  }

  lemma PutWellFormed(st: State, i: nat, p: Packet, granule: uint64)
    requires AllWellFormed(st.pages) && i < |st.streams|
    ensures AllWellFormed(PutPacket(st, i, p, granule).pages)
  {
    hide *;
    PutKeepsStreams(st, i, p, granule);
    PacketWellFormed(p, st.streams[i].serial, NextIndex(st.streams[i]), true);
    ConcatWellFormed(st.pages, PagesFor(p, st.streams[i].serial, NextIndex(st.streams[i]), true));
  }

  lemma PutKeepsStreams(st: State, i: nat, p: Packet, granule: uint64)
    requires i < |st.streams|
    ensures var r := PutPacket(st, i, p, granule);
            && |r.streams| == |st.streams| && r.started == st.started && r.open == st.open
            && r.streams[i] == st.streams[i].(packets := st.streams[i].packets + [p], granule := granule)
            && (forall j :: 0 <= j < |r.streams| && j != i ==> r.streams[j] == st.streams[j])
            && r.pages == st.pages + PagesFor(p, st.streams[i].serial, NextIndex(st.streams[i]), true)
  {
    hide PagesFor, Logical;
  }

  lemma StreamExtended(s: Stream, payload: seq<byte>)
    requires StreamOk(s) && Opus.SampleCount(payload).Ok?
    ensures var granule := (s.granule + Samples(payload)) % UINT64_LIMIT;
            StreamOk(s.(packets := s.packets + [Packet(payload, 0, granule)], granule := granule))
  {
    var granule := (s.granule + Samples(payload)) % UINT64_LIMIT;
    var p := Packet(payload, 0, granule);
    var audio := s.packets[2..];
    assert (s.packets + [p])[2..] == audio + [p];
    hide Audio, Duration, Samples, Opus.SampleCount;
    AudioExtended(audio, p, s.granule);
  }

  lemma AudioExtended(audio: seq<Packet>, p: Packet, granule: uint64)
    requires Audio(audio) && granule == Duration(audio) % UINT64_LIMIT && Opus.SampleCount(p.payload).Ok?
    requires p.headerType == 0 && p.granule == (granule + Samples(p.payload)) % UINT64_LIMIT
    ensures Audio(audio + [p]) && p.granule == Duration(audio + [p]) % UINT64_LIMIT
  {
    DurationSnoc(audio, p);
    hide Opus.SampleCount, Duration, Samples;
    AddModulo(Duration(audio), Samples(p.payload));
    forall k | 0 <= k < |audio| + 1
      ensures (audio + [p])[k].granule == Duration((audio + [p])[..k + 1]) % UINT64_LIMIT
    {
      if k < |audio| {
        assert (audio + [p])[..k + 1] == audio[..k + 1];
      } else {
        assert (audio + [p])[..k + 1] == audio + [p];
      }
    }
  }

  lemma DurationSnoc(audio: seq<Packet>, p: Packet)
    ensures Duration(audio + [p]) == Duration(audio) + Samples(p.payload)
  {
    hide Samples;
    assert (audio + [p])[..|audio|] == audio;
  }

  lemma AddModulo(x: nat, y: nat)
    ensures (x % UINT64_LIMIT + y) % UINT64_LIMIT == (x + y) % UINT64_LIMIT
  {}

  lemma PutSeparated(st: State, i: nat, p: Packet, granule: uint64, j: nat)
    requires DistinctSerials(st.streams) && Separated(st) && i < |st.streams| && j < |st.streams|
    ensures var r := PutPacket(st, i, p, granule);
            OfSerial(r.pages, r.streams[j].serial) == Logical(r.streams[j].packets, r.streams[j].serial, 0)
  {
    PutKeepsStreams(st, i, p, granule);
    assert i != j ==> st.streams[i].serial != st.streams[j].serial;
    hide OfSerial, Logical, PagesFor, PutPacket, IndexAt;
    var s, t := st.streams[i], st.streams[j];
    var more := PagesFor(p, s.serial, NextIndex(s), true);
    PacketOnly(p, s.serial, NextIndex(s), true);
    OfOnly(more, s.serial, t.serial);
    OfSerialConcat(st.pages, more, t.serial);
    if i == j {
      LogicalAppend(s.packets, p, s.serial, 0);
    } else {
      assert Logical(t.packets, t.serial, 0) + [] == Logical(t.packets, t.serial, 0);
    }
  }

  lemma PutKnown(st: State, i: nat, p: Packet, granule: uint64)
    requires KnownSerials(st) && i < |st.streams|
    ensures KnownSerials(PutPacket(st, i, p, granule))
  {
    PutKeepsStreams(st, i, p, granule);
    hide PagesFor, NextIndex, PutPacket;
    var s, r := st.streams[i], PutPacket(st, i, p, granule);
    PacketOnly(p, s.serial, NextIndex(s), true);
    forall k | 0 <= k < |r.pages|
      ensures SerialInUse(r.streams, r.pages[k].serial)
    {
      if k < |st.pages| {
        assert r.pages[k] == st.pages[k];
        SameSerials(st.streams, r.streams, r.pages[k].serial);
      } else {
        assert r.streams[i].serial == r.pages[k].serial;
      }
    }
  }

  lemma Written(st: State, i: nat, packet: Option<Rtp>)
    requires Invariant(st) && i < |st.streams|
    ensures Invariant(WriteRtp(st, i, packet).0) && WriteRtp(st, i, packet).0.open == st.open
  {
    hide Invariant, Start, Opus.SampleCount, PutPacket;
    Started(st);
    if packet.Some? && packet.value.opus.Opus? && Opus.SampleCount(packet.value.opus.payload).Ok? {
      PacketPut(Start(st), i, packet.value.opus.payload);
    }
  }

  // Whole runs.

  lemma {:induction false} ClosedStays(st: State, ops: seq<Op>, seekable: bool, utf8: seq<byte> -> bool)
    requires !st.open && FeasibleRun(st, ops, seekable, utf8)
    ensures Run(st, ops, seekable, utf8) == st
    decreases |ops|
  {
    hide OpusTags.ValidTags, Opus.IdHeader, OpusTags.HeaderBytes;
    if ops != [] {
      ClosedStays(st, ops[1..], seekable, utf8);
    }
  }

  /** Whatever is called, in whatever order: an open writer satisfies the invariant, and a closed
      one is what Close makes of a state that does. */
  lemma {:induction false} RunInvariant(st: State, ops: seq<Op>, seekable: bool, utf8: seq<byte> -> bool)
    returns (last: State)
    requires Invariant(st) && st.open && FeasibleRun(st, ops, seekable, utf8)
    ensures last.open && Invariant(last)
    ensures var end := Run(st, ops, seekable, utf8);
            if end.open then end == last else last.started && end == Close(last, seekable)
    decreases |ops|
  {
    hide *;
    last := st;
    RunUnfold(st, ops, seekable, utf8);
    if ops != [] {
      var next := Step(st, ops[0], seekable, utf8);
      StepInvariant(st, ops[0], seekable, utf8);
      if next.open {
        last := RunInvariant(next, ops[1..], seekable, utf8);
      } else {
        ClosedStays(next, ops[1..], seekable, utf8);
        last := Start(st);
      }
    }
  }

  lemma RunUnfold(st: State, ops: seq<Op>, seekable: bool, utf8: seq<byte> -> bool)
    requires FeasibleRun(st, ops, seekable, utf8)
    ensures ops == [] ==> Run(st, ops, seekable, utf8) == st
    ensures ops != [] ==>
              && Feasible(st, ops[0])
              && FeasibleRun(Step(st, ops[0], seekable, utf8), ops[1..], seekable, utf8)
              && Run(st, ops, seekable, utf8) == Run(Step(st, ops[0], seekable, utf8), ops[1..], seekable, utf8)
  {
    hide Step, Feasible;
  }

  lemma StepInvariant(st: State, op: Op, seekable: bool, utf8: seq<byte> -> bool)
    requires Invariant(st) && st.open && Feasible(st, op)
    ensures var next := Step(st, op, seekable, utf8);
            if next.open then Invariant(next)
            else
              var last := Start(st);
              last.open && last.started && Invariant(last) && next == Close(last, seekable)
  {
    Started(st);
    if op.NewTrack? {
      TrackAdded(st, op.ssrc, op.config, op.drawn, utf8);
    }
    if op.Write? {
      Written(st, op.track, op.packet);
    }
    hide Invariant, WriteRtp, MarkAll, HeaderPages, AllBegun, OpusTags.ValidTags, Opus.IdHeader, OpusTags.HeaderBytes;
  }

  lemma NewFileInvariant()
    ensures Invariant(NEW_FILE)
  {}
}
