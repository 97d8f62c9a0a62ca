/** Why a gap must be noticed: a written stream from which 16 packets in a row are lost, and of
    which a reader returns a unit that was never written. */
module Splice {
  import opened Bits
  import opened Bytes
  import opened Channels
  import opened EsStream
  import opened H26x
  import opened Loss
  import opened Packet
  import opened Packetizer
  import Pes
  import opened RoundTrip
  import opened Tracks
  import TsReader
  import opened TsWriter

  /** Where a unit goes on after m full continuation packets. */
  lemma {:induction false} ChunksDrop(job: Job, cc: byte, payload: seq<byte>, m: nat)
    requires |payload| > PAYLOAD_SIZE * m && cc < 16
    ensures |Chunks(job, cc, false, payload)| > m
    ensures Chunks(job, cc, false, payload)[m..] ==
            Chunks(job, CounterAt(cc, m), false, payload[PAYLOAD_SIZE * m..])
    decreases m
  {
    hide *;
    var chunks := Chunks(job, cc, false, payload);
    if m == 0 {
      CounterStart(cc);
      assert payload[0..] == payload && chunks[0..] == chunks;
    } else {
      FullContinuation(job, payload);
      ChunksUnfold(job, cc, payload);
      CounterStep(cc, m - 1);
      var rest := payload[PAYLOAD_SIZE..];
      ChunksDrop(job, NextCounter(cc), rest, m - 1);
      DropTwice(chunks, payload, m);
    }
  }

  lemma FullContinuation(job: Job, payload: seq<byte>)
    requires |payload| > PAYLOAD_SIZE
    ensures Taken(job, false, payload) == PAYLOAD_SIZE
  {}

  lemma DropTwice(chunks: seq<EsPacket>, payload: seq<byte>, m: nat)
    requires 0 < m <= |chunks| && |payload| > PAYLOAD_SIZE * m
    ensures PAYLOAD_SIZE * m == PAYLOAD_SIZE + PAYLOAD_SIZE * (m - 1)
    ensures chunks[1..][m - 1..] == chunks[m..]
    ensures payload[PAYLOAD_SIZE..][PAYLOAD_SIZE * (m - 1)..] == payload[PAYLOAD_SIZE * m..]
  {}

  const LOST: nat := 16

  /** The bytes that 16 full packets carry. */
  const HOLE: nat := 2944

  /** What a unit becomes when 16 full packets behind the first one are lost. */
  function Spliced(data: seq<byte>, at: nat): seq<byte>
    requires at + HOLE <= |data|
  {
    data[..at] + data[at + HOLE..]
  }

  /** The first packet of a unit, then those behind 16 lost ones. */
  function WithHole(tracks: seq<Track>, call: Call, cc: byte): seq<EsPacket>
    requires tracks != [] && |UnitChunks(tracks, call, cc)| > LOST + 1
  {
    UnitChunks(tracks, call, cc)[..1] + UnitChunks(tracks, call, cc)[LOST + 1..]
  }

  lemma LongUnit(tracks: seq<Track>, call: Call, cc: byte) returns (n: nat)
    requires tracks != [] && cc < 16 && |WithAud(call.codec, call.au)| > HOLE + PAYLOAD_SIZE
    ensures HeaderLen(call) <= n < |PesBytes(call)| - HOLE && n - HeaderLen(call) + HOLE < |WithAud(call.codec, call.au)|
    ensures var chunks, payload := UnitChunks(tracks, call, cc), PesBytes(call);
            && |chunks| > LOST + 1
            && chunks[0] == EsPacket(call.pid, true, cc, IsRandomAccess(call.codec, call.au), payload[..n])
            && chunks[LOST + 1..] ==
               Chunks(JobFor(tracks, call), CounterAt(NextCounter(cc), LOST), false, payload[n + HOLE..])
  {
    hide *;
    var job, payload := JobFor(tracks, call), PesBytes(call);
    n := Taken(job, true, payload);
    FirstTaken(tracks, call);
    FirstAtMost(job, payload);
    UnitChunksUnfold(tracks, call, cc);
    DataOf(call, n);
    HoleIs();
    ChunksDrop(job, NextCounter(cc), payload[n..], LOST);
    var chunks := UnitChunks(tracks, call, cc);
    assert payload[n..][HOLE..] == payload[n + HOLE..];
    assert chunks[1..][LOST..] == chunks[LOST + 1..];
  }

  lemma FirstAtMost(job: Job, payload: seq<byte>)
    ensures Taken(job, true, payload) <= PAYLOAD_SIZE
  {}

  lemma HoleIs()
    ensures HOLE == PAYLOAD_SIZE * LOST && LOST == 16 && HOLE == 2944 && PAYLOAD_SIZE == 184
  {}

  /** A stream that gets the unit with the hole, and then another unit, returns the spliced one. */
  lemma HoleUnnoticed(tracks: seq<Track>, call: Call, next: Call, maxAu: nat) returns (at: nat, unit: Unit)
    requires tracks != [] && |WithAud(call.codec, call.au)| > HOLE + PAYLOAD_SIZE
    requires |WithAud(call.codec, call.au)| <= maxAu
    ensures |UnitChunks(tracks, call, 0)| > LOST + 1 && at + HOLE < |WithAud(call.codec, call.au)|
    ensures var cc := CounterAt(0, |UnitChunks(tracks, call, 0)|);
            HandleAll(NEW_ES, WithHole(tracks, call, 0) + UnitChunks(tracks, next, cc), maxAu).1 == [unit]
    ensures unit.data == Spliced(WithAud(call.codec, call.au), at)
  {
    hide *;
    var payload, data := PesBytes(call), WithAud(call.codec, call.au);
    var chunks, job := UnitChunks(tracks, call, 0), JobFor(tracks, call);
    var n := LongUnit(tracks, call, 0);
    at := n - HeaderLen(call);
    var rest := payload[n + HOLE..];
    var tail := chunks[LOST + 1..];
    var t := Started(-1, call, 0, data[..at]);
    RoundOfCounters(|tail|);
    FreshStream();
    StartPacket(NEW_ES, call, chunks[0], maxAu, n);
    StartedFields(-1, call, 0, n);
    FinishFresh(chunks[0]);
    HandleAllOne(NEW_ES, chunks[0], maxAu);
    assert chunks[..1] == [chunks[0]];
    ContinuationRun(t, job, 1, rest, maxAu);
    HandleAllConcat(NEW_ES, chunks[..1], tail, maxAu);
    var held := HandleAll(t, tail, maxAu).0;
    SplicedState(call, n, t, rest, CounterAt(1, |tail| - 1), maxAu);
    UnitRun(held, tracks, next, CounterAt(0, |chunks|), maxAu);
    HandleAllConcat(NEW_ES, WithHole(tracks, call, 0), UnitChunks(tracks, next, CounterAt(0, |chunks|)), maxAu);
    WithHoleIs(tracks, call, 0);
    unit := Finish(held).1.value;
  }

  lemma WithHoleIs(tracks: seq<Track>, call: Call, cc: byte)
    requires tracks != [] && |UnitChunks(tracks, call, cc)| > LOST + 1
    ensures WithHole(tracks, call, cc) == UnitChunks(tracks, call, cc)[..1] + UnitChunks(tracks, call, cc)[LOST + 1..]
  {
    hide UnitChunks;
  }

  lemma RoundOfCounters(m: nat)
    requires m > 0
    ensures NextCounter(0) == 1 && CounterAt(1, LOST) == 1 && CounterAt(1, m - 1) < 16
    ensures NextCounter(CounterAt(1, m - 1)) == CounterAt(0, m + LOST + 1) < 16
  {
    NextAsInt(CounterAt(1, m - 1));
  }

  lemma FreshStream()
    ensures NEW_ES.lastTs == -1 && AsSeq<Unit>(None) == [] && AsSeq<Unit>(None) + [] == []
  {}

  lemma FinishFresh(p: EsPacket)
    ensures Finish(Admit(NEW_ES, p)).1 == None
  {}

  lemma SplicedState(call: Call, n: nat, t: Es, rest: seq<byte>, last: byte, maxAu: nat)
    requires HeaderLen(call) <= n && n + HOLE < |PesBytes(call)| && rest == PesBytes(call)[n + HOLE..] && last < 16
    requires n - HeaderLen(call) + HOLE < |WithAud(call.codec, call.au)| <= maxAu
    requires t == Started(-1, call, 0, WithAud(call.codec, call.au)[..n - HeaderLen(call)])
    ensures var held := Continued(t, rest, last, maxAu);
            && Finish(held).1.Some? && Boundary(held, NextCounter(last))
            && AsSeq(Finish(held).1) == [Finish(held).1.value]
            && Finish(held).1.value.data == Spliced(WithAud(call.codec, call.au), n - HeaderLen(call))
  {
    TailOfData(call, n);
    hide WithAud, PesBytes, HeaderLen, IsRandomAccess, Pes.Extend, Pes.Low33, NextCounter;
  }

  lemma TailOfData(call: Call, n: nat)
    requires HeaderLen(call) <= n && n + HOLE < |PesBytes(call)|
    requires n - HeaderLen(call) + HOLE < |WithAud(call.codec, call.au)|
    ensures PesBytes(call)[n + HOLE..] == WithAud(call.codec, call.au)[n - HeaderLen(call) + HOLE..]
  {
    hide Pes.HeaderBytes, WithAud;
  }

  // The written run.

  /** Losing the 16 packets behind the tables and the first packet of the first unit. */
  function Gap(n: nat): (keep: seq<bool>)
    ensures |keep| == n
  {
    seq(n, k => k < 3 || k >= 3 + LOST)
  }

  ghost predicate AllAre(keep: seq<bool>, flag: bool) {
    forall k :: 0 <= k < |keep| ==> keep[k] == flag
  }

  lemma {:induction false} DeliveredAll<T>(xs: seq<T>, keep: seq<bool>)
    requires |keep| == |xs| && AllAre(keep, true)
    ensures Delivered(xs, keep) == xs
  {
    if xs != [] {
      DeliveredAll(xs[1..], keep[1..]);
      assert [xs[0]] + xs[1..] == xs;
    }
  }

  lemma {:induction false} DeliveredNothing<T>(xs: seq<T>, keep: seq<bool>)
    requires |keep| == |xs| && AllAre(keep, false)
    ensures Delivered(xs, keep) == []
  {
    if xs != [] {
      DeliveredNothing(xs[1..], keep[1..]);
    }
  }

  lemma DeliveredGap<T>(xs: seq<T>)
    requires |xs| >= 3 + LOST
    ensures Delivered(xs, Gap(|xs|)) == xs[..3] + xs[3 + LOST..]
  {
    hide *;
    var keep := Gap(|xs|);
    GapParts(|xs|);
    var a, b, c := xs[..3], xs[3..3 + LOST], xs[3 + LOST..];
    Cut(xs, 0, 3, 3 + LOST);
    assert xs == xs[..3 + LOST] + c;
    DeliveredConcat(a + b, c, keep);
    DeliveredConcat(a, b, keep[..3 + LOST]);
    DeliveredAll(a, keep[..3 + LOST][..3]);
    DeliveredNothing(b, keep[..3 + LOST][3..]);
    DeliveredAll(c, keep[3 + LOST..]);
    assert a + [] == a;
  }

  lemma GapParts(n: nat)
    requires n >= 3 + LOST
    ensures LOST == 16
    ensures var keep := Gap(n);
            && AllAre(keep[..3 + LOST][..3], true) && AllAre(keep[..3 + LOST][3..], false)
            && AllAre(keep[3 + LOST..], true)
  {}

  /** The packets of the first call, as the writer writes and the reader sees them. */
  lemma FirstWritten(c: Config, call: Call) returns (unit: seq<seq<byte>>)
    requires Ready(c) && PidsInRange(c.tracks) && CallError(c.tracks, call) == None
    ensures c.tracks != []
    ensures var (st1, now) := Write(c, INITIAL, call);
            && now == PsiPackets(c, map[]) + unit && |PsiPackets(c, map[])| == 2
            && CountersValid(st1.cc) && |unit| == |UnitChunks(c.tracks, call, 0)|
            && Counter(st1.cc, call.pid) == CounterAt(0, |unit|)
            && forall i :: 0 <= i < |unit| ==>
                 Packetizer.Usable(unit[i]) == Some(UnitChunks(c.tracks, call, 0)[i]) &&
                 UnitChunks(c.tracks, call, 0)[i].pid == call.pid
  {
    hide CallError, MaybePsi, PsiPackets, IsRandomAccess, PcrFor, Packetize, Chunks, PesBytes, Advance, CounterAt, Counter,
      CountersValid, PidsInRange, Packetizer.Usable, ForPid;
    AcceptedPid(c.tracks, call);
    NoneCounted(0);
    FirstTables(c, call);
    var m := MaybePsi(c, INITIAL, call.dts);
    unit := UnitPackets(c.tracks, m.0, call);
    WriteForPid(c, INITIAL, call, call.pid);
    UnitParts(c.tracks, m.0, call);
    PesBytesNonEmpty(call);
    PacketizeUsable(JobFor(c.tracks, call), 0, true, PesBytes(call));
    ChunksExact(JobFor(c.tracks, call), 0, true, PesBytes(call));
  }

  lemma FirstTables(c: Config, call: Call)
    requires Ready(c) && ValidPid(call.pid)
    ensures MaybePsi(c, INITIAL, call.dts).1 == PsiPackets(c, map[]) && |PsiPackets(c, map[])| == 2
    ensures Counter(MaybePsi(c, INITIAL, call.dts).0.cc, call.pid) == 0 && INITIAL.cc == map[]
    ensures Counter(INITIAL.cc, call.pid) == 0
  {
    hide PsiPacket;
  }

  lemma UnitParts(tracks: seq<Track>, st: State, call: Call)
    requires tracks != []
    ensures UnitPackets(tracks, st, call) == Packetize(JobFor(tracks, call), Counter(st.cc, call.pid), true, PesBytes(call))
    ensures UnitChunks(tracks, call, 0) == Chunks(JobFor(tracks, call), 0, true, PesBytes(call))
  {
    hide Packetize, Chunks, PesBytes, JobFor;
  }

  lemma SecondWritten(c: Config, st: State, next: Call)
    requires Ready(c) && PidsInRange(c.tracks) && CountersValid(st.cc) && CallError(c.tracks, next) == None
    ensures ForPid(WriteAll(c, st, [next]).1, next.pid) == UnitChunks(c.tracks, next, Counter(st.cc, next.pid))
  {
    hide *;
    AcceptedPid(c.tracks, next);
    WrittenForPid(c, st, [next], next.pid);
    OneSent(c.tracks, next, Counter(st.cc, next.pid));
  }

  lemma OneSent(tracks: seq<Track>, next: Call, cc: byte)
    requires tracks != [] && CallError(tracks, next) == None
    ensures ChunkRun(tracks, Sent(tracks, [next], next.pid), cc) == UnitChunks(tracks, next, cc)
  {
    hide UnitChunks, CallError, CounterAt;
    assert [next][1..] == [] && Sent(tracks, [], next.pid) == [];
    assert Sent(tracks, [next], next.pid) == [next];
    assert ChunkRun(tracks, [], CounterAt(cc, |UnitChunks(tracks, next, cc)|)) == [];
    assert UnitChunks(tracks, next, cc) + [] == UnitChunks(tracks, next, cc);
  }

  /** What is left of two written units on the wire. */
  lemma HoleOnWire(c: Config, call: Call, next: Call)
    requires Ready(c) && PidsInRange(c.tracks) && next.pid == call.pid
    requires CallError(c.tracks, call) == None && CallError(c.tracks, next) == None
    requires |UnitChunks(c.tracks, call, 0)| > LOST + 1
    ensures var pkts := WriteAll(c, INITIAL, [call, next]).1;
            && |pkts| >= 3 + LOST
            && ForPid((pkts[..3] + pkts[3 + LOST..])[2..], call.pid) ==
               WithHole(c.tracks, call, 0) +
               UnitChunks(c.tracks, next, CounterAt(0, |UnitChunks(c.tracks, call, 0)|))
  {
    hide *;
    var calls, pid := [call, next], call.pid;
    var unit := FirstWritten(c, call);
    var (st1, now) := Write(c, INITIAL, call);
    WriteAllUnfold(c, INITIAL, calls);
    assert calls[1..] == [next];
    var tables, later, pkts := PsiPackets(c, map[]), WriteAll(c, st1, [next]).1, WriteAll(c, INITIAL, calls).1;
    SecondWritten(c, st1, next);
    LostIs();
    HoleCut(tables, unit, later);
    var chunks := UnitChunks(c.tracks, call, 0);
    ForPidOfUsable(unit[..1], chunks[..1], pid, pid);
    ForPidOfUsable(unit[LOST + 1..], chunks[LOST + 1..], pid, pid);
    ForPidConcat(unit[..1] + unit[LOST + 1..], later, pid);
    ForPidConcat(unit[..1], unit[LOST + 1..], pid);
    WithHoleIs(c.tracks, call, 0);
  }

  lemma LostIs()
    ensures LOST == 16
  {}

  lemma HoleCut<T>(tables: seq<T>, unit: seq<T>, later: seq<T>)
    requires |tables| == 2 && |unit| > LOST + 1
    ensures var pkts := tables + unit + later;
            && |pkts| >= 3 + LOST
            && (pkts[..3] + pkts[3 + LOST..])[2..] == unit[..1] + unit[LOST + 1..] + later
  {
    var pkts := tables + unit + later;
    assert pkts[..3] == tables + unit[..1];
    assert pkts[3 + LOST..] == unit[LOST + 1..] + later;
  }

  /** The unit of the example: 4000 bytes without a zero among them. */
  function LongUnitCall(): (call: Call)
    ensures |call.au| == 4000 && call.au != [] && call.pid == 256 && call.codec == H264
  {
    Call(256, H264, 0, 0, seq(4000, i => 1))
  }

  function ShortUnitCall(): (call: Call)
    ensures |call.au| == 1 && call.au != [] && call.pid == 256 && call.codec == H264
  {
    Call(256, H264, 3600, 3600, [1])
  }

  /** Sixteen losses in a row, one round of the counter: a unit comes out that was never written. */
  lemma SixteenLost() returns (unit: Unit)
    ensures ValidTracks([Track(256, H264)])
    ensures var tracks := [Track(256, H264)];
            var calls := [LongUnitCall(), ShortUnitCall()];
            var pkts := WriteAll(ConfigFor(tracks), INITIAL, calls).1;
            var got := Delivered(pkts, Gap(|pkts|));
            && AllTimed(tracks, calls) && |got| >= 2
            && Of(TsReader.DemuxAll(tracks, TsReader.NewStreams(1), TsReader.DEFAULT_MAX_AU, got[2..]).1, tracks[0])
               == [unit]
            && !Matches(unit, calls[0]) && !Matches(unit, calls[1])
  {
    hide *;
    var track := Track(256, H264);
    var tracks, call, next := [track], LongUnitCall(), ShortUnitCall();
    OneTrack(track, call, next);
    var c := ConfigFor(tracks);
    var maxAu := TsReader.DEFAULT_MAX_AU;
    DataLengths(call, next);
    var at;
    at, unit := HoleUnnoticed(tracks, call, next, maxAu);
    HoleOnWire(c, call, next);
    var pkts := WriteAll(c, INITIAL, [call, next]).1;
    DeliveredGap(pkts);
    var got := Delivered(pkts, Gap(|pkts|));
    LostIs();
    NewStream(track);
    DemuxProjects(tracks, TsReader.NewStreams(1), maxAu, got[2..], 0);
    SplicedMatches(unit, call, next, at);
  }

  lemma NewStream(track: Track)
    ensures |TsReader.NewStreams(1)| == 1 && TsReader.NewStreams(1)[0] == NEW_ES && DistinctPids([track])
  {}

  lemma OneTrack(track: Track, call: Call, next: Call)
    requires track == Track(256, H264) && call == LongUnitCall() && next == ShortUnitCall()
    ensures ValidTracks([track]) && PidsInRange([track])
    ensures CallError([track], call) == None && CallError([track], next) == None && AllTimed([track], [call, next])
  {
    assert track in [track];
    assert [call, next][1..] == [next] && [next][1..] == [];
    assert Sent([track], [], 256) == [] && Sent([track], [next], 256) == [next];
    assert Sent([track], [call, next], 256) == [call, next];
    assert Timed(3600, []) && Timed(0, [next]) && Timed(-1, [call, next]);
  }

  lemma DataLengths(call: Call, next: Call)
    requires |call.au| == 4000 && call.codec == H264 && |next.au| == 1 && next.codec == H264
    ensures HOLE + PAYLOAD_SIZE < |WithAud(call.codec, call.au)| <= TsReader.DEFAULT_MAX_AU
    ensures |WithAud(next.codec, next.au)| <= 7
  {
    hide StartsWithAud;
    assert |Aud(H264)| <= 6;
  }

  lemma SplicedMatches(unit: Unit, call: Call, next: Call, at: nat)
    requires at + HOLE < |WithAud(call.codec, call.au)| && HOLE + PAYLOAD_SIZE < |WithAud(call.codec, call.au)|
    requires unit.data == Spliced(WithAud(call.codec, call.au), at) && |WithAud(next.codec, next.au)| <= 7
    ensures !Matches(unit, call) && !Matches(unit, next)
  {
    hide WithAud, IsRandomAccess, Pes.Low33;
    assert |unit.data| == |WithAud(call.codec, call.au)| - HOLE;
  }
}
