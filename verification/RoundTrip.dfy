/** Writing and reading back: for every track set and every run of calls, the reader finds the
    tracks and returns, on each of them, exactly the units that fit its size limit. */
module RoundTrip {
  import opened Bits
  import opened Bytes
  import opened Channels
  import opened EsStream
  import opened H26x
  import opened Packet
  import opened Packetizer
  import Pes
  import Psi
  import opened Tracks
  import TsReader
  import opened TsWriter

  /** The unit a call should come back as. */
  function UnitOf(call: Call): Unit {
    Unit(call.pts, call.dts, IsRandomAccess(call.codec, call.au), WithAud(call.codec, call.au))
  }

  /** The reader tests its size limit on continuation packets only. */
  predicate SizeOk(tracks: seq<Track>, call: Call, maxAu: nat)
    requires tracks != []
  {
    |WithAud(call.codec, call.au)| <= maxAu ||
    |PesBytes(call)| <= PAYLOAD_SIZE - MinField(JobFor(tracks, call), true)
  }

  /** Between two units: the counter fits, and nothing is held unless a unit is collected. */
  predicate Boundary(s: Es, cc: byte) {
    cc < 16 && s.cc < 16 && (s.hasCc ==> NextCounter(s.cc) == cc) && (!s.collecting ==> s.buf == [])
  }

  /** The state in which a unit's bytes `buf` have been collected, last counter `cc`. */
  function Started(lastTs: int64, call: Call, cc: byte, buf: seq<byte>): Es {
    var dts := Pes.Extend(lastTs, Pes.Low33(call.dts));
    Es(buf, true, true, cc, Pes.Extend(dts, Pes.Low33(call.pts)), dts, IsRandomAccess(call.codec, call.au), dts)
  }

  function HeaderLen(call: Call): (n: nat)
    ensures 14 <= n <= 19
  {
    |Pes.HeaderBytes(Pes.VIDEO_STREAM, call.pts, call.dts)|
  }

  /** The first packet of a unit always holds the whole PES header. */
  lemma FirstTaken(tracks: seq<Track>, call: Call)
    requires tracks != []
    ensures var n := Taken(JobFor(tracks, call), true, PesBytes(call));
            && HeaderLen(call) <= n <= |PesBytes(call)|
            && (n == |PesBytes(call)| <==> |PesBytes(call)| <= PAYLOAD_SIZE - MinField(JobFor(tracks, call), true))
  {
    hide Pes.HeaderBytes, WithAud;
  }

  /** A unit-start packet finishes what was collected and starts the new unit. */
  lemma StartPacket(s: Es, call: Call, p: EsPacket, maxAu: nat, n: nat)
    requires p.unitStart && HeaderLen(call) <= n <= |PesBytes(call)| && p.payload == PesBytes(call)[..n]
    requires p.rai == IsRandomAccess(call.codec, call.au)
    ensures Handle(s, p, maxAu) ==
            (Started(s.lastTs, call, p.cc, WithAud(call.codec, call.au)[..n - HeaderLen(call)]), Finish(Admit(s, p)).1)
  {
    hide Pes.HeaderBytes, Pes.ParseHeader, WithAud, IsRandomAccess, Pes.Extend, Pes.Low33;
    var header := Pes.HeaderBytes(Pes.VIDEO_STREAM, call.pts, call.dts);
    var data := WithAud(call.codec, call.au)[..n - |header|];
    assert p.payload == header + data;
    Pes.HeaderRoundTrip(Pes.VIDEO_STREAM, call.pts, call.dts, data);
    assert p.payload[|header|..] == data;
  }

  /** What continuation packets with the right counters do to a stream. */
  function Continued(s: Es, payload: seq<byte>, cc: byte, maxAu: nat): Es {
    if !s.collecting then s.(cc := cc)
    else if |s.buf + payload| <= maxAu then s.(buf := s.buf + payload, cc := cc)
    else Discard(s).(cc := cc)
  }

  lemma {:induction false} ContinuationRun(s: Es, job: Job, cc: byte, payload: seq<byte>, maxAu: nat)
    requires s.hasCc && s.cc < 16 && NextCounter(s.cc) == cc && payload != []
    requires !s.collecting ==> s.buf == []
    ensures var chunks := Chunks(job, cc, false, payload);
            HandleAll(s, chunks, maxAu) == (Continued(s, payload, CounterAt(cc, |chunks| - 1), maxAu), [])
    decreases |payload|
  {
    var chunks := Chunks(job, cc, false, payload);
    var n := Taken(job, false, payload);
    var last := CounterAt(cc, |chunks| - 1);
    ChunksUnfold(job, cc, payload);
    ContinuationPacket(s, chunks[0], maxAu);
    ContinuedTwice(s, payload, n, cc, last, maxAu);
    CounterStart(cc);
    hide *;
    HandleAllUnfold(s, chunks, maxAu);
    var t := Continued(s, payload[..n], cc, maxAu);
    if n == |payload| {
      assert payload[..n] == payload;
      HandleNone(t, maxAu);
      assert AsSeq<Unit>(None) + [] == [];
    } else {
      ContinuationRun(t, job, NextCounter(cc), payload[n..], maxAu);
      CounterStep(cc, |chunks| - 2);
      assert AsSeq<Unit>(None) + [] == [];
    }
  }

  lemma ChunksUnfold(job: Job, cc: byte, payload: seq<byte>)
    requires payload != [] && cc < 16
    ensures var n, chunks := Taken(job, false, payload), Chunks(job, cc, false, payload);
            && 0 < n <= |payload| && NextCounter(cc) < 16
            && chunks[0] == EsPacket(job.pid, false, cc, false, payload[..n])
            && chunks[1..] == (if n == |payload| then [] else Chunks(job, NextCounter(cc), false, payload[n..]))
            && AsSeq<Unit>(None) == []
  {
    hide FieldTotal;
  }

  lemma ContinuedTwice(s: Es, payload: seq<byte>, n: nat, cc: byte, last: byte, maxAu: nat)
    requires n <= |payload| && (!s.collecting ==> s.buf == [])
    ensures var t := Continued(s, payload[..n], cc, maxAu);
            && t.hasCc == s.hasCc && t.cc == cc && (!t.collecting ==> t.buf == [])
            && Continued(t, payload[n..], last, maxAu) == Continued(s, payload, last, maxAu)
  {
    assert payload[..n] + payload[n..] == payload;
    ConcatAssoc(s.buf, payload[..n], payload[n..]);
  }

  lemma ContinuationPacket(s: Es, p: EsPacket, maxAu: nat)
    requires s.hasCc && s.cc < 16 && p.cc == NextCounter(s.cc) && !p.unitStart
    requires !s.collecting ==> s.buf == []
    ensures Handle(s, p, maxAu) == (Continued(s, p.payload, p.cc, maxAu), None)
  {}

  /** The state after all packets of a unit. */
  function AfterUnit(tracks: seq<Track>, lastTs: int64, call: Call, cc: byte, maxAu: nat): Es
    requires tracks != []
  {
    var full := Started(lastTs, call, cc, WithAud(call.codec, call.au));
    if SizeOk(tracks, call, maxAu) then full else Discard(full)
  }

  /** One whole unit: the unit before it comes out, and it is held itself if it fits. */
  lemma UnitRun(s: Es, tracks: seq<Track>, call: Call, cc: byte, maxAu: nat)
    requires tracks != [] && Boundary(s, cc)
    ensures var chunks := UnitChunks(tracks, call, cc);
            && HandleAll(s, chunks, maxAu) ==
               (AfterUnit(tracks, s.lastTs, call, CounterAt(cc, |chunks| - 1), maxAu), AsSeq(Finish(s).1))
            && Boundary(HandleAll(s, chunks, maxAu).0, CounterAt(cc, |chunks|))
  {
    assert cc < 16;
    hide *;
    var job, payload := JobFor(tracks, call), PesBytes(call);
    var n := Taken(job, true, payload);
    var chunks := UnitChunks(tracks, call, cc);
    FirstTaken(tracks, call);
    UnitChunksUnfold(tracks, call, cc);
    StartPacket(s, call, chunks[0], maxAu, n);
    AdmitInOrder(s, chunks[0]);
    HandleAllUnfold(s, chunks, maxAu);
    var last := CounterAt(cc, |chunks| - 1);
    StartedFields(s.lastTs, call, cc, n);
    var t := Started(s.lastTs, call, cc, WithAud(call.codec, call.au)[..n - HeaderLen(call)]);
    AfterUnitIs(tracks, s.lastTs, call, cc, n, last, maxAu);
    LastCounter(cc, |chunks|);
    CounterStart(cc);
    if n != |payload| {
      ContinuationRun(t, job, NextCounter(cc), payload[n..], maxAu);
      CounterStep(cc, |chunks| - 2);
    } else {
      HandleNone(t, maxAu);
    }
    assert AsSeq(Finish(s).1) + [] == AsSeq(Finish(s).1);
    BoundaryAfter(tracks, s.lastTs, call, last, CounterAt(cc, |chunks|), maxAu);
  }

  lemma UnitChunksUnfold(tracks: seq<Track>, call: Call, cc: byte)
    requires tracks != [] && cc < 16
    ensures var chunks, payload := UnitChunks(tracks, call, cc), PesBytes(call);
            var n := Taken(JobFor(tracks, call), true, payload);
            && cc < 16 && NextCounter(cc) < 16
            && n <= |payload|
            && chunks[0] == EsPacket(call.pid, true, cc, IsRandomAccess(call.codec, call.au), payload[..n])
            && chunks[1..] == if n == |payload| then []
                              else Chunks(JobFor(tracks, call), NextCounter(cc), false, payload[n..])
  {
    hide PesBytes, FieldTotal, IsRandomAccess;
  }

  lemma HandleAllUnfold(s: Es, ps: seq<EsPacket>, maxAu: nat)
    requires ps != []
    ensures var (t, unit) := Handle(s, ps[0], maxAu);
            var (end, rest) := HandleAll(t, ps[1..], maxAu);
            HandleAll(s, ps, maxAu) == (end, AsSeq(unit) + rest)
  {}

  lemma HandleNone(s: Es, maxAu: nat)
    ensures HandleAll(s, [], maxAu) == (s, [])
  {}

  lemma StartedFields(lastTs: int64, call: Call, cc: byte, n: nat)
    requires HeaderLen(call) <= n <= |PesBytes(call)|
    ensures n - HeaderLen(call) <= |WithAud(call.codec, call.au)|
    ensures var t := Started(lastTs, call, cc, WithAud(call.codec, call.au)[..n - HeaderLen(call)]);
            t.collecting && t.hasCc && t.cc == cc
  {
    DataOf(call, n);
  }

  /** The state reached by the packets of a unit is the one AfterUnit describes. */
  lemma AfterUnitIs(tracks: seq<Track>, lastTs: int64, call: Call, cc: byte, n: nat, last: byte, maxAu: nat)
    requires tracks != [] && HeaderLen(call) <= n <= |PesBytes(call)|
    requires n == |PesBytes(call)| <==> |PesBytes(call)| <= PAYLOAD_SIZE - MinField(JobFor(tracks, call), true)
    ensures n - HeaderLen(call) <= |WithAud(call.codec, call.au)|
    ensures var t := Started(lastTs, call, cc, WithAud(call.codec, call.au)[..n - HeaderLen(call)]);
            AfterUnit(tracks, lastTs, call, last, maxAu) ==
            if n == |PesBytes(call)| then t.(cc := last) else Continued(t, PesBytes(call)[n..], last, maxAu)
  {
    hide PesBytes, HeaderLen, WithAud, Pes.Extend, Pes.Low33, IsRandomAccess, MinField, JobFor;
    DataOf(call, n);
  }

  lemma BoundaryAfter(tracks: seq<Track>, lastTs: int64, call: Call, last: byte, cc: byte, maxAu: nat)
    requires tracks != [] && last < 16 && NextCounter(last) == cc < 16
    ensures Boundary(AfterUnit(tracks, lastTs, call, last, maxAu), cc)
  {
    hide WithAud, SizeOk, Pes.Extend, Pes.Low33, IsRandomAccess, NextCounter;
  }

  lemma AdmitInOrder(s: Es, p: EsPacket)
    requires Boundary(s, p.cc)
    ensures Finish(Admit(s, p)).1 == Finish(s).1
  {}

  lemma LastCounter(cc: byte, n: nat)
    requires n > 0 && cc < 16
    ensures CounterAt(cc, n - 1) < 16 && NextCounter(CounterAt(cc, n - 1)) == CounterAt(cc, n) < 16
  {
    hide NextCounter;
    CounterThenNext(cc, n - 1);
  }

  /** A unit's bytes: what the first packet brings and what the others bring. */
  lemma DataOf(call: Call, n: nat)
    requires HeaderLen(call) <= n <= |PesBytes(call)|
    ensures var data := WithAud(call.codec, call.au);
            && |PesBytes(call)| == HeaderLen(call) + |data|
            && data[..n - HeaderLen(call)] + PesBytes(call)[n..] == data
            && (n == |PesBytes(call)| ==> data[..n - HeaderLen(call)] == data)
  {
    hide Pes.HeaderBytes, WithAud;
  }

  // One stream, one run.

  /** The time conditions on the calls of one track: see Pes.Follows; and PTS and DTS are less
      than 2^32 apart. */
  predicate Timed(lastTs: int64, calls: seq<Call>)
    decreases |calls|
  {
    calls == [] ||
    (&& Pes.Follows(lastTs, calls[0].dts)
     && -Pes.WRAP / 2 < calls[0].pts - calls[0].dts < Pes.WRAP / 2
     && Timed(calls[0].dts, calls[1..]))
  }

  ghost predicate NonEmptyUnits(calls: seq<Call>) {
    forall i :: 0 <= i < |calls| ==> calls[i].au != []
  }

  function Expected(tracks: seq<Track>, calls: seq<Call>, maxAu: nat): seq<Unit>
    requires tracks != []
  {
    if calls == [] then []
    else (if SizeOk(tracks, calls[0], maxAu) then [UnitOf(calls[0])] else []) + Expected(tracks, calls[1..], maxAu)
  }

  /** The unit that the next unit start, or the end of the input, will bring out. */
  lemma HeldUnit(tracks: seq<Track>, lastTs: int64, call: Call, last: byte, maxAu: nat)
    requires tracks != [] && call.au != [] && lastTs < Pes.EXTENDABLE && Timed(lastTs, [call])
    ensures var s := AfterUnit(tracks, lastTs, call, last, maxAu);
            && AsSeq(Finish(s).1) == (if SizeOk(tracks, call, maxAu) then [UnitOf(call)] else [])
            && s.lastTs == call.dts && 0 <= call.dts < Pes.EXTENDABLE
  {
    hide WithAud, SizeOk, IsRandomAccess, Pes.Extend;
    WithAudNonEmpty(call.codec, call.au);
    Pes.ExtendFollows(lastTs, call.dts);
    Pes.FollowsBound(lastTs, call.dts);
    Pes.ExtendExact(call.dts, call.pts);
  }

  lemma WithAudNonEmpty(codec: Codec, au: seq<byte>)
    requires au != []
    ensures WithAud(codec, au) != []
  {}

  /** Whatever the stream holds first, then every unit that fits, each exactly as written. */
  lemma {:induction false} StreamRoundTrip(s: Es, tracks: seq<Track>, calls: seq<Call>, cc: byte, maxAu: nat)
    requires tracks != [] && Boundary(s, cc) && s.lastTs < Pes.EXTENDABLE
    requires Timed(s.lastTs, calls) && NonEmptyUnits(calls)
    ensures StreamUnits(s, ChunkRun(tracks, calls, cc), maxAu) == AsSeq(Finish(s).1) + Expected(tracks, calls, maxAu)
    decreases |calls|
  {
    hide Handle, Finish, AfterUnit, UnitChunks, SizeOk, CounterAt, Pes.Follows, Boundary;
    if calls == [] {
      HandleNone(s, maxAu);
      assert [] + AsSeq(Finish(s).1) == AsSeq(Finish(s).1) + [];
    } else {
      var call, chunks := calls[0], UnitChunks(tracks, calls[0], cc);
      var next := CounterAt(cc, |chunks|);
      var t := AfterUnit(tracks, s.lastTs, call, CounterAt(cc, |chunks| - 1), maxAu);
      UnitRun(s, tracks, call, cc, maxAu);
      assert Timed(s.lastTs, [call]);
      HeldUnit(tracks, s.lastTs, call, CounterAt(cc, |chunks| - 1), maxAu);
      StreamRoundTrip(t, tracks, calls[1..], next, maxAu);
      var rest := ChunkRun(tracks, calls[1..], next);
      HandleAllConcat(s, chunks, rest, maxAu);
      var (end, units) := HandleAll(t, rest, maxAu);
      ConcatAssoc(AsSeq(Finish(s).1), units, AsSeq(Finish(end).1));
    }
  }

  // The tables.

  lemma PatFound(c: Config) returns (section: seq<byte>)
    requires Configures(c)
    ensures c.patRaw == [0] + section && Psi.Announced(section)
    ensures TsReader.PmtPidIn(section) == Some(PMT_PID)
  {
    hide Psi.SectionBytes, Psi.PatPrograms, Psi.PatData, Psi.Announced, Psi.ParseSectionBytes;
    var programs := [Psi.PatProgram(1, PMT_PID)];
    var s := Psi.PatSection(1, programs);
    section := Psi.SectionBytes(s);
    Psi.SectionRoundTrip(s, []);
    assert section + [] == section;
    Psi.PatRoundTrip(programs);
  }

  lemma PmtFound(c: Config) returns (section: seq<byte>)
    requires Configures(c)
    ensures c.pmtRaw == [0] + section && Psi.Announced(section)
    ensures TsReader.TracksIn(section) == Some(c.tracks)
  {
    hide Psi.SectionBytes, Psi.PmtTable, Psi.PmtData, Psi.Announced, Psi.ParseSectionBytes, DistinctPids, TracksOf;
    var s := Psi.PmtSection(1, PmtTable(c.tracks));
    section := Psi.SectionBytes(s);
    Psi.SectionRoundTrip(s, []);
    assert section + [] == section;
    assert forall i :: 0 <= i < |c.tracks| ==> ValidPid(c.tracks[i].pid);
    Psi.PmtRoundTrip(1, PmtTable(c.tracks));
    TracksRoundTrip(c.tracks);
  }

  /** A table in a packet of its own comes out of the assembler with that packet. */
  lemma TableFed(a: Psi.Assembly, raw: seq<byte>, section: seq<byte>, pad: seq<byte>)
    requires raw == [0] + section && Psi.Announced(section)
    ensures Psi.Feed(a, true, raw + pad) == (Psi.Assembly(section + pad, false), Some(section))
  {
    assert (raw + pad)[1..] == section + pad;
    Psi.CollectPrefix(section, pad, section + pad);
  }

  /** The reader's search succeeds on the first two packets of a run. */
  lemma TablesFound(c: Config, cc: map<uint16, byte>, rest: seq<seq<byte>>)
    requires Configures(c) && Ready(c) && CountersValid(cc)
    ensures TsReader.FindTracks(TsReader.NEW_SEARCH, PsiPackets(c, cc) + rest) == Ok((c.tracks, rest))
  {
    hide *;
    var pkts := PsiPackets(c, cc) + rest;
    TwoPackets(c, cc, rest);
    var st := TsReader.NEW_SEARCH;
    PatPacketStep(c, Counter(cc, PID_PAT));
    TsReader.FindTracksUnfold(st, pkts);
    var next := TsReader.SearchStep(st, pkts[0]).0;
    PmtPacketStep(c, Counter(cc, PMT_PID), next);
    TsReader.FindTracksUnfold(next, pkts[1..]);
  }

  lemma TwoPackets(c: Config, cc: map<uint16, byte>, rest: seq<seq<byte>>)
    requires Ready(c) && CountersValid(cc)
    ensures Counter(cc, PID_PAT) < 16 && Counter(cc, PMT_PID) < 16 && c.tracks != []
    ensures var pkts := PsiPackets(c, cc) + rest;
            && |c.patRaw| <= PAYLOAD_SIZE && |c.pmtRaw| <= PAYLOAD_SIZE
            && |pkts| >= 2
            && pkts[0] == PsiPacket(PID_PAT, Counter(cc, PID_PAT), c.patRaw)
            && pkts[1..][0] == PsiPacket(PMT_PID, Counter(cc, PMT_PID), c.pmtRaw)
            && pkts[1..][1..] == rest
  {
    hide PsiPacket;
  }

  lemma PatPacketStep(c: Config, cc: byte)
    requires Configures(c) && |c.patRaw| <= PAYLOAD_SIZE && cc < 16
    ensures var (next, found) := TsReader.SearchStep(TsReader.NEW_SEARCH, PsiPacket(PID_PAT, cc, c.patRaw));
            found == None && next.havePat && next.pmtPid == PMT_PID
  {
    var st := TsReader.NEW_SEARCH;
    assert !st.havePat && PID_PAT == 0;
    hide *;
    var section := PatFound(c);
    PsiPacketOpened(PID_PAT, cc, c.patRaw);
    TsReader.SearchStepIs(st, PsiPacket(PID_PAT, cc, c.patRaw));
    TableFed(st.pat, c.patRaw, section, Stuffing(PAYLOAD_SIZE - |c.patRaw|));
  }

  lemma PmtPacketStep(c: Config, cc: byte, st: TsReader.Search)
    requires Configures(c) && |c.pmtRaw| <= PAYLOAD_SIZE && cc < 16 && st.havePat && st.pmtPid == PMT_PID
    ensures TsReader.SearchStep(st, PsiPacket(PMT_PID, cc, c.pmtRaw)).1 == Some(c.tracks)
  {
    assert 0 < PMT_PID < 0x2000;
    hide *;
    var section := PmtFound(c);
    PsiPacketOpened(PMT_PID, cc, c.pmtRaw);
    TsReader.SearchStepIs(st, PsiPacket(PMT_PID, cc, c.pmtRaw));
    TableFed(st.pmt, c.pmtRaw, section, Stuffing(PAYLOAD_SIZE - |c.pmtRaw|));
  }

  // The whole run.

  ghost predicate WholePackets(pkts: seq<seq<byte>>) {
    forall i :: 0 <= i < |pkts| ==> |pkts[i]| == PACKET_SIZE
  }

  lemma {:induction false} PacketizeWhole(job: Job, cc: byte, first: bool, payload: seq<byte>)
    ensures WholePackets(Packetize(job, cc, first, payload))
    decreases |payload|
  {
    hide PesPacket, FieldTotal;
    var n := Taken(job, first, payload);
    if n != |payload| {
      PacketizeWhole(job, NextCounter(cc), false, payload[n..]);
    }
  }

  lemma {:induction false} WrittenWhole(c: Config, st: State, calls: seq<Call>)
    requires Ready(c)
    ensures WholePackets(WriteAll(c, st, calls).1)
    decreases |calls|
  {
    if calls != [] {
      hide Write, WholePackets;
      WriteWhole(c, st, calls[0]);
      WrittenWhole(c, Write(c, st, calls[0]).0, calls[1..]);
      WholeConcat(Write(c, st, calls[0]).1, WriteAll(c, Write(c, st, calls[0]).0, calls[1..]).1);
    }
  }

  lemma WriteAllUnfold(c: Config, st: State, calls: seq<Call>)
    requires Ready(c) && calls != []
    ensures var (st1, now) := Write(c, st, calls[0]);
            var (end, later) := WriteAll(c, st1, calls[1..]);
            WriteAll(c, st, calls) == (end, now + later)
  {}

  lemma WholeConcat(a: seq<seq<byte>>, b: seq<seq<byte>>)
    requires WholePackets(a) && WholePackets(b)
    ensures WholePackets(a + b)
  {}

  lemma WriteWhole(c: Config, st: State, call: Call)
    requires Ready(c)
    ensures WholePackets(Write(c, st, call).1)
  {
    hide Packetize, PsiPacket, PesBytes, JobFor, CallError, Advance, CounterAt;
    if CallError(c.tracks, call) == None {
      var m := MaybePsi(c, st, call.dts);
      assert WholePackets(m.1);
      PacketizeWhole(JobFor(c.tracks, call), Counter(m.0.cc, call.pid), true, PesBytes(call));
    }
  }

  ghost predicate SomeAccepted(tracks: seq<Track>, calls: seq<Call>) {
    exists i :: 0 <= i < |calls| && CallError(tracks, calls[i]) == None
  }

  /** A run that writes anything begins with the two tables. */
  lemma {:induction false} TablesFirst(c: Config, calls: seq<Call>)
    requires Ready(c) && SomeAccepted(c.tracks, calls)
    ensures var pkts := WriteAll(c, INITIAL, calls).1;
            |pkts| >= 2 && pkts == PsiPackets(c, map[]) + pkts[2..]
    decreases |calls|
  {
    hide CallError, PsiPacket, UnitPackets, Counter;
    WriteAllUnfold(c, INITIAL, calls);
    hide Write, WriteAll;
    if CallError(c.tracks, calls[0]) == None {
      assert PsiDue(None, calls[0].dts);
    } else {
      var i :| 0 <= i < |calls| && CallError(c.tracks, calls[i]) == None;
      assert calls[1..][i - 1] == calls[i];
      TablesFirst(c, calls[1..]);
      assert [] + WriteAll(c, INITIAL, calls[1..]).1 == WriteAll(c, INITIAL, calls[1..]).1;
    }
  }

  /** Accepted units are not empty. */
  lemma {:induction false} SentNonEmpty(tracks: seq<Track>, calls: seq<Call>, pid: uint16)
    requires PidsInRange(tracks)
    ensures NonEmptyUnits(Sent(tracks, calls, pid))
  {
    hide CallError;
    if calls != [] {
      SentNonEmpty(tracks, calls[1..], pid);
      if CallError(tracks, calls[0]) == None {
        AcceptedPid(tracks, calls[0]);
      }
    }
  }

  /** The time conditions, track by track. */
  ghost predicate AllTimed(tracks: seq<Track>, calls: seq<Call>) {
    forall i :: 0 <= i < |tracks| ==> Timed(-1, Sent(tracks, calls, tracks[i].pid))
  }

  /** Muxing any run of calls and demuxing the bytes: the reader finds exactly the writer's tracks
      and returns on each track, in order and up to io.EOF, exactly the units sent on it that fit
      its size limit, with their data, both timestamps and random access flag. */
  lemma MuxDemux(tracks: seq<Track>, calls: seq<Call>, maxAu: nat)
    requires ValidTracks(tracks) && SomeAccepted(tracks, calls) && AllTimed(tracks, calls)
    ensures var pkts := WriteAll(ConfigFor(tracks), INITIAL, calls).1;
            && |pkts| >= 2
            && TsReader.Packets(Flatten(pkts)) == pkts
            && TsReader.FindTracks(TsReader.NEW_SEARCH, pkts) == Ok((tracks, pkts[2..]))
            && forall i :: 0 <= i < |tracks| ==>
                 Of(TsReader.AllUnits(tracks, TsReader.NewStreams(|tracks|), maxAu, pkts[2..]), tracks[i])
                 == Expected(tracks, Sent(tracks, calls, tracks[i].pid), maxAu)
  {
    hide *;
    var c := ConfigFor(tracks);
    var pkts := WriteAll(c, INITIAL, calls).1;
    var es := TsReader.NewStreams(|tracks|);
    NoneCounted(|tracks|);
    WrittenWhole(c, INITIAL, calls);
    TablesFirst(c, calls);
    TablesFound(c, map[], pkts[2..]);
    WholeLengths(pkts);
    TsReader.PacketsOfStream(pkts);
    TracksNotEmpty(tracks);
    forall i | 0 <= i < |tracks|
      ensures Of(TsReader.AllUnits(tracks, es, maxAu, pkts[2..]), tracks[i]) ==
              Expected(tracks, Sent(tracks, calls, tracks[i].pid), maxAu)
    {
      TrackRoundTrip(c, calls, maxAu, i);
    }
  }

  const ONE_TRACK: seq<Track> := [Track(256, H264)]

  /** A delimiter and a byte. */
  const SMALL := Call(256, H264, 0, 0, [0, 0, 1, 9, 1, 1])

  /** The size limit is no limit for a unit that fits one packet: here one byte is allowed. */
  lemma OversizedReturned()
    ensures ValidTracks(ONE_TRACK) && |WithAud(SMALL.codec, SMALL.au)| > 1
    ensures var pkts := WriteAll(ConfigFor(ONE_TRACK), INITIAL, [SMALL]).1;
            && |pkts| >= 2
            && Of(TsReader.AllUnits(ONE_TRACK, TsReader.NewStreams(|ONE_TRACK|), 1, pkts[2..]), ONE_TRACK[0])
               == [UnitOf(SMALL)]
  {
    hide *;
    SmallCall();
    SmallExpected();
    MuxDemux(ONE_TRACK, [SMALL], 1);
  }

  lemma SmallCall()
    ensures ValidTracks(ONE_TRACK) && |ONE_TRACK| == 1
    ensures SomeAccepted(ONE_TRACK, [SMALL]) && AllTimed(ONE_TRACK, [SMALL])
    ensures Sent(ONE_TRACK, [SMALL], ONE_TRACK[0].pid) == [SMALL]
  {
    assert ONE_TRACK[0] in ONE_TRACK;
    assert CallError(ONE_TRACK, [SMALL][0]) == None;
    assert [SMALL][1..] == [] && Sent(ONE_TRACK, [], 256) == [];
    assert Timed(0, []) && Timed(-1, [SMALL]);
  }

  lemma SmallExpected()
    ensures ONE_TRACK != [] && |WithAud(SMALL.codec, SMALL.au)| > 1
    ensures Expected(ONE_TRACK, [SMALL], 1) == [UnitOf(SMALL)]
  {
    hide StartsWithAud, IsRandomAccess, Pes.HeaderBytes;
    assert |Aud(H264)| == 6 && |WithAud(H264, SMALL.au)| <= 12;
    assert |PesBytes(SMALL)| <= 31 && SizeOk(ONE_TRACK, SMALL, 1);
    assert [SMALL][1..] == [] && Expected(ONE_TRACK, [], 1) == [];
  }

  lemma NoneCounted(n: nat)
    ensures CountersValid(map[]) && |TsReader.NewStreams(n)| == n
  {}

  lemma TracksNotEmpty(tracks: seq<Track>)
    requires ValidTracks(tracks)
    ensures tracks != []
  {}

  lemma WholeLengths(pkts: seq<seq<byte>>)
    requires WholePackets(pkts)
    ensures forall i :: 0 <= i < |pkts| ==> |pkts[i]| == PACKET_SIZE
  {}

  lemma TrackRoundTrip(c: Config, calls: seq<Call>, maxAu: nat, i: nat)
    requires Configures(c) && Ready(c) && SomeAccepted(c.tracks, calls) && AllTimed(c.tracks, calls)
    requires i < |c.tracks| && |WriteAll(c, INITIAL, calls).1| >= 2
    ensures Of(TsReader.AllUnits(c.tracks, TsReader.NewStreams(|c.tracks|), maxAu,
                                 WriteAll(c, INITIAL, calls).1[2..]), c.tracks[i]) ==
            Expected(c.tracks, Sent(c.tracks, calls, c.tracks[i].pid), maxAu)
  {
    hide *;
    FreshTrack(c, i);
    TrackTimed(c.tracks, calls, i);
    var pid, es := c.tracks[i].pid, TsReader.NewStreams(|c.tracks|);
    var pkts := WriteAll(c, INITIAL, calls).1;
    TablesFirst(c, calls);
    PsiForPid(c, map[], pid);
    ForPidConcat(PsiPackets(c, map[]), pkts[2..], pid);
    assert [] + ForPid(pkts[2..], pid) == ForPid(pkts[2..], pid);
    WrittenForPid(c, INITIAL, calls, pid);
    AllUnitsProject(c.tracks, es, maxAu, pkts[2..], i);
    var sent := Sent(c.tracks, calls, pid);
    SentNonEmpty(c.tracks, calls, pid);
    StreamRoundTrip(NEW_ES, c.tracks, sent, 0, maxAu);
    NothingHeld(Expected(c.tracks, sent, maxAu));
  }

  /** Before the first packet of a track. */
  lemma FreshTrack(c: Config, i: nat)
    requires Configures(c) && i < |c.tracks|
    ensures PidsInRange(c.tracks) && DistinctPids(c.tracks) && ValidPid(c.tracks[i].pid) && c.tracks != []
    ensures INITIAL.cc == map[] && CountersValid(map[]) && Counter(map[], c.tracks[i].pid) == 0
    ensures Boundary(NEW_ES, 0) && Finish(NEW_ES).1 == None && -1 < Pes.EXTENDABLE
    ensures NEW_ES.lastTs == -1 && !NEW_ES.collecting && NEW_ES.buf == []
    ensures |TsReader.NewStreams(|c.tracks|)| == |c.tracks| && TsReader.NewStreams(|c.tracks|)[i] == NEW_ES
  {}

  lemma TrackTimed(tracks: seq<Track>, calls: seq<Call>, i: nat)
    requires AllTimed(tracks, calls) && i < |tracks|
    ensures Timed(-1, Sent(tracks, calls, tracks[i].pid))
  {}

  lemma NothingHeld(units: seq<Unit>)
    ensures AsSeq<Unit>(None) + units == units
  {}
}
