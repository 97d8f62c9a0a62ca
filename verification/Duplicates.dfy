/** Duplicate packets (section 2.4.3.3 of ISO/IEC 13818-1): repeating packets of a written stream
    changes nothing that the reader returns. */
module Duplicates {
  import opened Bits
  import opened Bytes
  import opened Channels
  import opened EsStream
  import opened H26x
  import opened Packet
  import opened Packetizer
  import Pes
  import opened RoundTrip
  import opened Tracks
  import TsReader
  import opened TsWriter

  /** A packet that starts a unit with a timestamp; only these move the reference for unwrapping. */
  predicate Timestamped(p: EsPacket) {
    var h := Pes.ParseHeader(p.payload);
    p.unitStart && h.Ok? && h.value.pts.Some?
  }

  function NextTs(lastTs: int64, p: EsPacket): int64 {
    if Timestamped(p) then Pes.Extend(lastTs, Pes.WireDts(Pes.ParseHeader(p.payload).value)) else lastTs
  }

  /** Handling a packet again right after itself changes nothing, if and only if the decoding time
      it was given is not negative and leaves room to extend from. */
  lemma HandledTwice(s: Es, p: EsPacket, maxAu: nat)
    requires p.cc < 16 && (!s.collecting ==> s.buf == [])
    ensures var t := Handle(s, p, maxAu).0;
            && t.lastTs == NextTs(s.lastTs, p) && (!t.collecting ==> t.buf == [])
            && (Handle(t, p, maxAu) == (t, None) <==>
                (Timestamped(p) ==> 0 <= NextTs(s.lastTs, p) < Pes.EXTENDABLE))
  {
    hide Pes.ParseHeader, Pes.Extend, Pes.WireDts;
    if Timestamped(p) {
      ExtendedTwice(s.lastTs, Pes.WireDts(Pes.ParseHeader(p.payload).value));
    }
  }

  /** A decoding time before 0 is taken for another one the second time. */
  lemma RepeatedNegative(call: Call, cc: byte, maxAu: nat)
    requires call.dts == -1 && cc < 16
    ensures var p := EsPacket(call.pid, true, cc, IsRandomAccess(call.codec, call.au), PesBytes(call));
            var t := Handle(NEW_ES.(lastTs := 5), p, maxAu).0;
            t.dts == -1 && Handle(t, p, maxAu) != (t, None)
  {
    var p := EsPacket(call.pid, true, cc, IsRandomAccess(call.codec, call.au), PesBytes(call));
    var s := NEW_ES.(lastTs := 5);
    BackBelowZero();
    WholeHeader(call);
    hide Pes.Extend, Pes.Low33, PesBytes, IsRandomAccess, WithAud, HeaderLen, Pes.ParseHeader, Pes.WireDts;
    StartPacket(s, call, p, maxAu, |PesBytes(call)|);
    HandledTwice(s, p, maxAu);
  }

  lemma BackBelowZero()
    ensures Pes.Extend(5, Pes.Low33(-1)) == -1
  {}

  lemma WholeHeader(call: Call)
    ensures HeaderLen(call) <= |PesBytes(call)| && PesBytes(call)[..|PesBytes(call)|] == PesBytes(call)
    ensures Pes.ParseHeader(PesBytes(call)).Ok? && Pes.ParseHeader(PesBytes(call)).value.pts.Some?
  {
    hide Pes.HeaderBytes, Pes.ParseHeader, WithAud;
    Pes.HeaderRoundTrip(Pes.VIDEO_STREAM, call.pts, call.dts, WithAud(call.codec, call.au));
  }

  lemma ExtendedTwice(reference: int64, ts: Pes.Ts33)
    ensures var once := Pes.Extend(reference, ts);
            Pes.Extend(once, ts) == once <==> 0 <= once < Pes.EXTENDABLE
  {
    var once := Pes.Extend(reference, ts);
    Pes.ExtendCongruent(reference, ts);
    if once >= 0 {
      hide Pes.Extend;
      Pes.ExtendExact(once, once);
    }
  }

  /** Every packet that sets a decoding time sets one that is stable under repetition. */
  predicate Settled(lastTs: int64, ps: seq<EsPacket>)
    decreases |ps|
  {
    ps == [] ||
    (&& ps[0].cc < 16 && (Timestamped(ps[0]) ==> 0 <= NextTs(lastTs, ps[0]) < Pes.EXTENDABLE)
     && Settled(NextTs(lastTs, ps[0]), ps[1..]))
  }

  function Times<T>(x: T, n: nat): (s: seq<T>)
    ensures |s| == n
  {
    seq(n, i => x)
  }

  /** Every element followed by as many repetitions as `extra` says. */
  function Repeated<T>(xs: seq<T>, extra: seq<nat>): seq<T>
    requires |extra| == |xs|
  {
    if xs == [] then [] else [xs[0]] + Times(xs[0], extra[0]) + Repeated(xs[1..], extra[1..])
  }

  lemma {:induction false} TimesHandled(t: Es, p: EsPacket, n: nat, maxAu: nat)
    requires Handle(t, p, maxAu) == (t, None)
    ensures HandleAll(t, Times(p, n), maxAu) == (t, [])
  {
    hide Handle;
    if n > 0 {
      TimesHandled(t, p, n - 1, maxAu);
      assert Times(p, n)[1..] == Times(p, n - 1);
      assert AsSeq<Unit>(None) + [] == [];
    }
  }

  /** On one stream, repetitions of packets are not noticeable. */
  lemma {:induction false} RepeatsIgnored(s: Es, ps: seq<EsPacket>, extra: seq<nat>, maxAu: nat)
    requires |extra| == |ps| && Settled(s.lastTs, ps) && (!s.collecting ==> s.buf == [])
    ensures HandleAll(s, Repeated(ps, extra), maxAu) == HandleAll(s, ps, maxAu)
    decreases |ps|
  {
    if ps != [] {
      var p := ps[0];
      HandledTwice(s, p, maxAu);
      hide Handle, NextTs, Timestamped, Times;
      var (t, unit) := Handle(s, p, maxAu);
      var again, rest := Times(p, extra[0]), Repeated(ps[1..], extra[1..]);
      RepeatsIgnored(t, ps[1..], extra[1..], maxAu);
      TimesHandled(t, p, extra[0], maxAu);
      HandleAllOne(s, p, maxAu);
      HandleAllConcat(s, [p], again, maxAu);
      HandleAllConcat(s, [p] + again, rest, maxAu);
      assert AsSeq(unit) + [] == AsSeq(unit);
      hide HandleAll;
      HandleAllUnfold(s, ps, maxAu);
    }
  }

  /** On any input, a track whose packets arrive with repetitions returns the same units. */
  lemma TrackRepeats(
    tracks: seq<Track>, maxAu: nat, pkts: seq<seq<byte>>, arrived: seq<seq<byte>>, extra: seq<nat>, i: nat)
    requires DistinctPids(tracks) && i < |tracks| && Settled(-1, ForPid(pkts, tracks[i].pid))
    requires |extra| == |ForPid(pkts, tracks[i].pid)|
    requires ForPid(arrived, tracks[i].pid) == Repeated(ForPid(pkts, tracks[i].pid), extra)
    ensures Of(TsReader.AllUnits(tracks, TsReader.NewStreams(|tracks|), maxAu, arrived), tracks[i]) ==
            Of(TsReader.AllUnits(tracks, TsReader.NewStreams(|tracks|), maxAu, pkts), tracks[i])
  {
    hide *;
    NewStreamsAre(|tracks|);
    var es, sent := TsReader.NewStreams(|tracks|), ForPid(pkts, tracks[i].pid);
    AllUnitsProject(tracks, es, maxAu, arrived, i);
    AllUnitsProject(tracks, es, maxAu, pkts, i);
    RepeatsIgnored(NEW_ES, sent, extra, maxAu);
    SameUnits(NEW_ES, ForPid(arrived, tracks[i].pid), sent, maxAu);
  }

  lemma NewStreamsAre(n: nat)
    ensures |TsReader.NewStreams(n)| == n && forall i :: 0 <= i < n ==> TsReader.NewStreams(n)[i] == NEW_ES
    ensures NEW_ES.lastTs == -1 && !NEW_ES.collecting && NEW_ES.buf == []
  {}

  // All tracks together.

  /** A usable packet that equals the last one of its PID. */
  predicate Repetition(last: map<uint16, EsPacket>, pkt: seq<byte>) {
    var p := Packetizer.Usable(pkt);
    p.Some? && p.value.pid in last && last[p.value.pid] == p.value
  }

  function Remember(last: map<uint16, EsPacket>, pkt: seq<byte>): map<uint16, EsPacket> {
    var p := Packetizer.Usable(pkt);
    if p.Some? then last[p.value.pid := p.value] else last
  }

  /** `pkts` is `arrived` without some packets that repeat the one before them on their PID. */
  predicate Thinned(last: map<uint16, EsPacket>, arrived: seq<seq<byte>>, pkts: seq<seq<byte>>)
    decreases |arrived|
  {
    if arrived == [] then pkts == []
    else
      || (Repetition(last, arrived[0]) && Thinned(last, arrived[1..], pkts))
      || (pkts != [] && pkts[0] == arrived[0] && Thinned(Remember(last, arrived[0]), arrived[1..], pkts[1..]))
  }

  /** A track that gets the packets of its PID; of two tracks with one PID only the later does. */
  predicate Live(tracks: seq<Track>, i: nat)
    requires i < |tracks|
  {
    LastIndex(tracks, tracks[i].pid) == i
  }

  /** Handling the last packet of a stream again would change nothing. */
  ghost predicate Quiet(tracks: seq<Track>, es: seq<Es>, maxAu: nat, last: map<uint16, EsPacket>)
    requires |es| == |tracks|
  {
    forall i :: 0 <= i < |tracks| && Live(tracks, i) ==>
      && (!es[i].collecting ==> es[i].buf == [])
      && (tracks[i].pid in last ==> Handle(es[i], last[tracks[i].pid], maxAu) == (es[i], None))
  }

  ghost predicate AllSettled(tracks: seq<Track>, es: seq<Es>, pkts: seq<seq<byte>>)
    requires |es| == |tracks|
  {
    forall i :: 0 <= i < |tracks| && Live(tracks, i) ==> Settled(es[i].lastTs, ForPid(pkts, tracks[i].pid))
  }

  lemma RepetitionSkipped(tracks: seq<Track>, es: seq<Es>, maxAu: nat, last: map<uint16, EsPacket>, pkt: seq<byte>)
    requires |es| == |tracks| && Quiet(tracks, es, maxAu, last) && Repetition(last, pkt)
    ensures TsReader.Demux(tracks, es, maxAu, pkt) == (es, None)
  {
    hide Handle, Packetizer.Usable, LastIndex;
    var p := Packetizer.Usable(pkt).value;
    var i := LastIndex(tracks, p.pid);
    if i >= 0 {
      assert Live(tracks, i) && tracks[i].pid == p.pid;
      assert es[i := es[i]] == es;
    }
  }

  /** A packet that is kept leaves its stream quiet and the others as they were. */
  lemma KeptStep(
    tracks: seq<Track>, es: seq<Es>, maxAu: nat, last: map<uint16, EsPacket>, pkts: seq<seq<byte>>)
    requires |es| == |tracks| && Quiet(tracks, es, maxAu, last) && AllSettled(tracks, es, pkts) && pkts != []
    ensures var next := TsReader.Demux(tracks, es, maxAu, pkts[0]).0;
            Quiet(tracks, next, maxAu, Remember(last, pkts[0])) && AllSettled(tracks, next, pkts[1..])
  {
    hide Handle, Packetizer.Usable, LastIndex, Settled, ForPid, NextTs, Timestamped;
    var next, now := TsReader.Demux(tracks, es, maxAu, pkts[0]).0, Remember(last, pkts[0]);
    var p := Packetizer.Usable(pkts[0]);
    forall i | 0 <= i < |tracks| && Live(tracks, i)
      ensures Settled(next[i].lastTs, ForPid(pkts[1..], tracks[i].pid)) && (!next[i].collecting ==> next[i].buf == [])
      ensures tracks[i].pid in now ==> Handle(next[i], now[tracks[i].pid], maxAu) == (next[i], None)
    {
      ForPidHead(pkts, tracks[i].pid);
      if p.Some? && p.value.pid == tracks[i].pid {
        SettledHead(es[i].lastTs, p.value, ForPid(pkts[1..], tracks[i].pid));
        HandledTwice(es[i], p.value, maxAu);
      }
    }
  }

  lemma ForPidHead(pkts: seq<seq<byte>>, pid: uint16)
    requires pkts != []
    ensures var p := Packetizer.Usable(pkts[0]);
            ForPid(pkts, pid) ==
            if p.Some? && p.value.pid == pid then [p.value] + ForPid(pkts[1..], pid) else ForPid(pkts[1..], pid)
  {
    hide Packetizer.Usable;
    assert [] + ForPid(pkts[1..], pid) == ForPid(pkts[1..], pid);
  }

  lemma SettledHead(lastTs: int64, p: EsPacket, ps: seq<EsPacket>)
    requires Settled(lastTs, [p] + ps)
    ensures p.cc < 16 && (Timestamped(p) ==> 0 <= NextTs(lastTs, p) < Pes.EXTENDABLE)
    ensures Settled(NextTs(lastTs, p), ps)
  {
    hide NextTs, Timestamped;
    assert ([p] + ps)[1..] == ps && ([p] + ps)[0] == p;
  }

  lemma {:induction false} ThinnedSame(
    tracks: seq<Track>, es: seq<Es>, maxAu: nat, last: map<uint16, EsPacket>, arrived: seq<seq<byte>>,
    pkts: seq<seq<byte>>)
    requires |es| == |tracks| && Quiet(tracks, es, maxAu, last) && AllSettled(tracks, es, pkts)
    requires Thinned(last, arrived, pkts)
    ensures TsReader.DemuxAll(tracks, es, maxAu, arrived) == TsReader.DemuxAll(tracks, es, maxAu, pkts)
    decreases |arrived|
  {
    hide Quiet, AllSettled, TsReader.Demux, Repetition, Remember;
    if arrived != [] {
      if Repetition(last, arrived[0]) && Thinned(last, arrived[1..], pkts) {
        RepetitionSkipped(tracks, es, maxAu, last, arrived[0]);
        ThinnedSame(tracks, es, maxAu, last, arrived[1..], pkts);
        var (end, units) := TsReader.DemuxAll(tracks, es, maxAu, arrived[1..]);
        assert [] + units == units;
      } else {
        KeptStep(tracks, es, maxAu, last, pkts);
        var next := TsReader.Demux(tracks, es, maxAu, pkts[0]).0;
        ThinnedSame(tracks, next, maxAu, Remember(last, pkts[0]), arrived[1..], pkts[1..]);
      }
    }
  }

  /** On any input: taking away packets that repeat the one before them on their PID leaves the
      whole sequence of returned units as it is, if the decoding times can be extended from. */
  lemma RepetitionsIgnored(tracks: seq<Track>, maxAu: nat, arrived: seq<seq<byte>>, pkts: seq<seq<byte>>)
    requires Thinned(map[], arrived, pkts)
    requires forall i :: 0 <= i < |tracks| ==> Settled(-1, ForPid(pkts, tracks[i].pid))
    ensures TsReader.AllUnits(tracks, TsReader.NewStreams(|tracks|), maxAu, arrived) ==
            TsReader.AllUnits(tracks, TsReader.NewStreams(|tracks|), maxAu, pkts)
  {
    hide Handle, Settled, ForPid, Thinned, LastIndex, TsReader.DemuxAll, TsReader.Flush;
    var es := TsReader.NewStreams(|tracks|);
    NewStreamsAre(|tracks|);
    forall i | 0 <= i < |tracks|
      ensures Settled(es[i].lastTs, ForPid(pkts, tracks[i].pid))
    {}
    ThinnedSame(tracks, es, maxAu, map[], arrived, pkts);
  }

  // Written streams are settled.

  lemma {:induction false} ContinuationsSettled(lastTs: int64, ps: seq<EsPacket>)
    requires forall i :: 0 <= i < |ps| ==> ps[i].cc < 16 && !ps[i].unitStart
    ensures forall rest :: Settled(lastTs, rest) ==> Settled(lastTs, ps + rest)
    decreases |ps|
  {
    if ps == [] {
      assert forall rest: seq<EsPacket> :: ps + rest == rest;
    } else {
      ContinuationsSettled(lastTs, ps[1..]);
      assert forall rest: seq<EsPacket> :: (ps + rest)[1..] == ps[1..] + rest;
    }
  }

  lemma {:induction false} RunSettled(lastTs: int64, tracks: seq<Track>, calls: seq<Call>, cc: byte)
    requires tracks != [] && cc < 16 && lastTs < Pes.EXTENDABLE && Timed(lastTs, calls)
    ensures Settled(lastTs, ChunkRun(tracks, calls, cc))
    decreases |calls|
  {
    hide *;
    if calls == [] {
      NothingSettled(lastTs, tracks, cc);
    } else {
      var call, chunks := calls[0], UnitChunks(tracks, calls[0], cc);
      var next := CounterAt(cc, |chunks|);
      TimedFirst(lastTs, calls, cc, |chunks|);
      RunSettled(call.dts, tracks, calls[1..], next);
      UnitStartTs(lastTs, tracks, call, cc);
      UnitContinues(tracks, call, cc);
      var rest := ChunkRun(tracks, calls[1..], next);
      ContinuationsSettled(call.dts, chunks[1..]);
      ChunkRunIs(tracks, calls, cc);
      assert (chunks + rest)[1..] == chunks[1..] + rest;
      SettledFirst(lastTs, chunks + rest);
    }
  }

  lemma NothingSettled(lastTs: int64, tracks: seq<Track>, cc: byte)
    requires tracks != []
    ensures Settled(lastTs, ChunkRun(tracks, [], cc))
  {}

  lemma TimedFirst(lastTs: int64, calls: seq<Call>, cc: byte, n: nat)
    requires calls != [] && Timed(lastTs, calls)
    ensures Pes.Follows(lastTs, calls[0].dts) && 0 <= calls[0].dts < Pes.EXTENDABLE
    ensures Timed(calls[0].dts, calls[1..]) && CounterAt(cc, n) < 16
  {}

  lemma ChunkRunIs(tracks: seq<Track>, calls: seq<Call>, cc: byte)
    requires tracks != [] && calls != []
    ensures var chunks := UnitChunks(tracks, calls[0], cc);
            ChunkRun(tracks, calls, cc) == chunks + ChunkRun(tracks, calls[1..], CounterAt(cc, |chunks|))
  {}

  lemma SettledFirst(lastTs: int64, ps: seq<EsPacket>)
    requires ps != [] && ps[0].cc < 16 && 0 <= NextTs(lastTs, ps[0]) < Pes.EXTENDABLE
    requires Settled(NextTs(lastTs, ps[0]), ps[1..])
    ensures Settled(lastTs, ps)
  {}

  /** The first packet of a unit carries its decoding time. */
  lemma UnitStartTs(lastTs: int64, tracks: seq<Track>, call: Call, cc: byte)
    requires tracks != [] && cc < 16 && lastTs < Pes.EXTENDABLE && Pes.Follows(lastTs, call.dts)
    ensures NextTs(lastTs, UnitChunks(tracks, call, cc)[0]) == call.dts
  {
    hide *;
    var payload := PesBytes(call);
    var n := Taken(JobFor(tracks, call), true, payload);
    FirstTaken(tracks, call);
    UnitChunksUnfold(tracks, call, cc);
    HeaderTs(lastTs, call, n, UnitChunks(tracks, call, cc)[0]);
  }

  lemma HeaderTs(lastTs: int64, call: Call, n: nat, p: EsPacket)
    requires lastTs < Pes.EXTENDABLE && Pes.Follows(lastTs, call.dts)
    requires HeaderLen(call) <= n <= |PesBytes(call)| && p.payload == PesBytes(call)[..n] && p.unitStart
    ensures NextTs(lastTs, p) == call.dts
  {
    hide Pes.HeaderBytes, Pes.ParseHeader, WithAud, Pes.Extend, Pes.Low33;
    var header := Pes.HeaderBytes(Pes.VIDEO_STREAM, call.pts, call.dts);
    var data := WithAud(call.codec, call.au)[..n - |header|];
    assert p.payload == header + data;
    Pes.HeaderRoundTrip(Pes.VIDEO_STREAM, call.pts, call.dts, data);
    Pes.ExtendFollows(lastTs, call.dts);
  }

  lemma UnitContinues(tracks: seq<Track>, call: Call, cc: byte)
    requires tracks != [] && cc < 16
    ensures var chunks := UnitChunks(tracks, call, cc);
            && chunks[0].cc < 16
            && forall i :: 0 <= i < |chunks[1..]| ==> chunks[1..][i].cc < 16 && !chunks[1..][i].unitStart
  {
    hide Chunks, PesBytes;
    PesBytesNonEmpty(call);
    ChunksExact(JobFor(tracks, call), cc, true, PesBytes(call));
  }

  lemma WrittenSettled(c: Config, calls: seq<Call>, i: nat)
    requires Configures(c) && Ready(c) && AllTimed(c.tracks, calls) && i < |c.tracks|
    ensures Settled(-1, ForPid(WriteAll(c, INITIAL, calls).1, c.tracks[i].pid))
  {
    hide *;
    FreshTrack(c, i);
    TrackTimed(c.tracks, calls, i);
    WrittenForPid(c, INITIAL, calls, c.tracks[i].pid);
    RunSettled(-1, c.tracks, Sent(c.tracks, calls, c.tracks[i].pid), 0);
  }

  /** A written stream of which packets arrive again behind themselves on their PID returns the
      same sequence of units, over all tracks. */
  lemma WrittenRepetitionsIgnored(tracks: seq<Track>, calls: seq<Call>, maxAu: nat, arrived: seq<seq<byte>>)
    requires ValidTracks(tracks) && AllTimed(tracks, calls)
    requires Thinned(map[], arrived, WriteAll(ConfigFor(tracks), INITIAL, calls).1)
    ensures TsReader.AllUnits(tracks, TsReader.NewStreams(|tracks|), maxAu, arrived) ==
            TsReader.AllUnits(tracks, TsReader.NewStreams(|tracks|), maxAu, WriteAll(ConfigFor(tracks), INITIAL, calls).1)
  {
    hide *;
    var c := ConfigFor(tracks);
    NewStreamsAre(|tracks|);
    forall i | 0 <= i < |tracks|
      ensures Settled(NEW_ES.lastTs, ForPid(WriteAll(c, INITIAL, calls).1, tracks[i].pid))
    {
      WrittenSettled(c, calls, i);
    }
    RepetitionsIgnored(tracks, maxAu, arrived, WriteAll(c, INITIAL, calls).1);
  }

  /** Let every track's packets arrive in their order, each any number of times in a row, in any
      interleaving with other packets: the reader returns what it returns without repetitions. */
  lemma DuplicatesIgnored(tracks: seq<Track>, calls: seq<Call>, maxAu: nat, arrived: seq<seq<byte>>, extra: seq<seq<nat>>)
    requires ValidTracks(tracks) && AllTimed(tracks, calls) && |extra| == |tracks|
    requires forall i :: 0 <= i < |tracks| ==>
               var sent := ForPid(WriteAll(ConfigFor(tracks), INITIAL, calls).1, tracks[i].pid);
               |extra[i]| == |sent| && ForPid(arrived, tracks[i].pid) == Repeated(sent, extra[i])
    ensures forall i :: 0 <= i < |tracks| ==>
              Of(TsReader.AllUnits(tracks, TsReader.NewStreams(|tracks|), maxAu, arrived), tracks[i])
              == Expected(tracks, Sent(tracks, calls, tracks[i].pid), maxAu)
  {
    hide *;
    var c := ConfigFor(tracks);
    NoneCounted(|tracks|);
    TracksNotEmpty(tracks);
    forall i | 0 <= i < |tracks|
      ensures Of(TsReader.AllUnits(tracks, TsReader.NewStreams(|tracks|), maxAu, arrived), tracks[i]) ==
              Expected(tracks, Sent(tracks, calls, tracks[i].pid), maxAu)
    {
      var sent := ForPid(WriteAll(c, INITIAL, calls).1, tracks[i].pid);
      assert |extra[i]| == |sent| && ForPid(arrived, tracks[i].pid) == Repeated(sent, extra[i]);
      TrackDuplicates(c, calls, maxAu, arrived, extra[i], i);
    }
  }

  lemma TrackDuplicates(c: Config, calls: seq<Call>, maxAu: nat, arrived: seq<seq<byte>>, extra: seq<nat>, i: nat)
    requires Configures(c) && Ready(c) && AllTimed(c.tracks, calls) && i < |c.tracks|
    requires |extra| == |ForPid(WriteAll(c, INITIAL, calls).1, c.tracks[i].pid)|
    requires ForPid(arrived, c.tracks[i].pid) ==
             Repeated(ForPid(WriteAll(c, INITIAL, calls).1, c.tracks[i].pid), extra)
    ensures Of(TsReader.AllUnits(c.tracks, TsReader.NewStreams(|c.tracks|), maxAu, arrived), c.tracks[i]) ==
            Expected(c.tracks, Sent(c.tracks, calls, c.tracks[i].pid), maxAu)
  {
    hide *;
    FreshTrack(c, i);
    var pid, es := c.tracks[i].pid, TsReader.NewStreams(|c.tracks|);
    var pkts, sent := WriteAll(c, INITIAL, calls).1, Sent(c.tracks, calls, pid);
    WrittenSettled(c, calls, i);
    TrackRepeats(c.tracks, maxAu, pkts, arrived, extra, i);
    TrackTimed(c.tracks, calls, i);
    SentNonEmpty(c.tracks, calls, pid);
    WrittenForPid(c, INITIAL, calls, pid);
    AllUnitsProject(c.tracks, es, maxAu, pkts, i);
    StreamRoundTrip(NEW_ES, c.tracks, sent, 0, maxAu);
    NothingHeld(Expected(c.tracks, sent, maxAu));
  }

  lemma SameUnits(s: Es, ps: seq<EsPacket>, qs: seq<EsPacket>, maxAu: nat)
    requires HandleAll(s, ps, maxAu) == HandleAll(s, qs, maxAu)
    ensures StreamUnits(s, ps, maxAu) == StreamUnits(s, qs, maxAu)
  {}
}
