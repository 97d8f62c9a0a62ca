/** A multiplexed run taken apart: what a reader does on one stream depends only on the usable
    packets with that stream's PID, and in a written run these are the packets of its units. */
module Channels {
  import opened Bits
  import opened Bytes
  import opened EsStream
  import opened Packet
  import opened Packetizer
  import opened Tracks
  import TsReader
  import opened TsWriter

  /** The usable packets with one PID, as handleES gets them. */
  function ForPid(pkts: seq<seq<byte>>, pid: uint16): seq<EsPacket> {
    if pkts == [] then []
    else
      var p := Packetizer.Usable(pkts[0]);
      (if p.Some? && p.value.pid == pid then [p.value] else []) + ForPid(pkts[1..], pid)
  }

  lemma {:induction false} ForPidConcat(a: seq<seq<byte>>, b: seq<seq<byte>>, pid: uint16)
    ensures ForPid(a + b, pid) == ForPid(a, pid) + ForPid(b, pid)
  {
    hide Packetizer.Usable;
    if a == [] {
      assert a + b == b;
      assert [] + ForPid(b, pid) == ForPid(b, pid);
    } else {
      assert (a + b)[1..] == a[1..] + b;
      ForPidConcat(a[1..], b, pid);
      var p := Packetizer.Usable(a[0]);
      ConcatAssoc(if p.Some? && p.value.pid == pid then [p.value] else [], ForPid(a[1..], pid), ForPid(b, pid));
    }
  }

  /** The units of one track, in order. */
  function Of(units: seq<TsReader.TrackUnit>, track: Track): seq<Unit> {
    if units == [] then []
    else (if units[0].track == track then [units[0].unit] else []) + Of(units[1..], track)
  }

  lemma {:induction false} OfConcat(a: seq<TsReader.TrackUnit>, b: seq<TsReader.TrackUnit>, track: Track)
    ensures Of(a + b, track) == Of(a, track) + Of(b, track)
  {
    if a == [] {
      assert a + b == b;
      assert [] + Of(b, track) == Of(b, track);
    } else {
      assert (a + b)[1..] == a[1..] + b;
      OfConcat(a[1..], b, track);
      ConcatAssoc(if a[0].track == track then [a[0].unit] else [], Of(a[1..], track), Of(b, track));
    }
  }

  function AsSeq<T>(x: Option<T>): seq<T> {
    if x.Some? then [x.value] else []
  }

  /** All units of one stream, the flush at the end of the input included. */
  function StreamUnits(s: Es, ps: seq<EsPacket>, maxAu: nat): seq<Unit> {
    var (end, units) := HandleAll(s, ps, maxAu);
    units + AsSeq(Finish(end).1)
  }

  lemma DistinctIndex(tracks: seq<Track>, i: nat, pid: uint16)
    requires DistinctPids(tracks) && i < |tracks|
    ensures LastIndex(tracks, pid) == i <==> tracks[i].pid == pid
  {
    hide LastIndex;
    var j := LastIndex(tracks, pid);
    assert j < i ==> tracks[i].pid != pid;
  }

  /** Up to the flush, each stream lives on its own packets only. */
  lemma {:induction false} DemuxProjects(tracks: seq<Track>, es: seq<Es>, maxAu: nat, pkts: seq<seq<byte>>, i: nat)
    requires DistinctPids(tracks) && |es| == |tracks| && i < |tracks|
    ensures var (end, units) := TsReader.DemuxAll(tracks, es, maxAu, pkts);
            (end[i], Of(units, tracks[i])) == HandleAll(es[i], ForPid(pkts, tracks[i].pid), maxAu)
    decreases |pkts|
  {
    hide Handle, Packetizer.Usable, LastIndex;
    if pkts != [] {
      var (next, unit) := TsReader.Demux(tracks, es, maxAu, pkts[0]);
      var (end, rest) := TsReader.DemuxAll(tracks, next, maxAu, pkts[1..]);
      DemuxProjects(tracks, next, maxAu, pkts[1..], i);
      OfConcat(AsSeq(unit), rest, tracks[i]);
      DemuxStep(tracks, es, maxAu, pkts[0], i);
      var p := Packetizer.Usable(pkts[0]);
      var own := if p.Some? && p.value.pid == tracks[i].pid then [p.value] else [];
      HandleAllConcat(es[i], own, ForPid(pkts[1..], tracks[i].pid), maxAu);
    }
  }

  lemma DemuxStep(tracks: seq<Track>, es: seq<Es>, maxAu: nat, pkt: seq<byte>, i: nat)
    requires DistinctPids(tracks) && |es| == |tracks| && i < |tracks|
    ensures var (next, unit) := TsReader.Demux(tracks, es, maxAu, pkt);
            var p := Packetizer.Usable(pkt);
            var own := if p.Some? && p.value.pid == tracks[i].pid then [p.value] else [];
            (next[i], Of(AsSeq(unit), tracks[i])) == HandleAll(es[i], own, maxAu)
  {
    hide Handle, Packetizer.Usable, LastIndex;
    var p := Packetizer.Usable(pkt);
    if p.Some? {
      DistinctIndex(tracks, i, p.value.pid);
      var j := LastIndex(tracks, p.value.pid);
      if j >= 0 {
        assert tracks[j] == tracks[i] <==> j == i;
        if j == i {
          HandleAllOne(es[i], p.value, maxAu);
        }
        OfOne(TsReader.Demux(tracks, es, maxAu, pkt).1, tracks[i]);
      }
    }
  }

  lemma HandleAllOne(s: Es, p: EsPacket, maxAu: nat)
    ensures HandleAll(s, [p], maxAu) == (Handle(s, p, maxAu).0, AsSeq(Handle(s, p, maxAu).1))
  {
    hide Handle;
    var (t, unit) := Handle(s, p, maxAu);
    assert [p][1..] == [] && HandleAll(t, [], maxAu) == (t, []);
    assert AsSeq(unit) + [] == AsSeq(unit);
  }

  lemma OfOne(unit: Option<TsReader.TrackUnit>, track: Track)
    ensures Of(AsSeq(unit), track) == if unit.Some? && unit.value.track == track then [unit.value.unit] else []
  {
    if unit.Some? {
      assert AsSeq(unit)[1..] == [];
    }
  }

  lemma {:induction false} FlushProjects(tracks: seq<Track>, es: seq<Es>, from: nat, i: nat)
    requires DistinctPids(tracks) && |es| == |tracks| && i < |tracks| && from <= |es|
    ensures Of(TsReader.Flush(tracks, es, from), tracks[i]) == if from <= i then AsSeq(Finish(es[i]).1) else []
    decreases |es| - from
  {
    hide Finish;
    if from < |es| {
      FlushProjects(tracks, es, from + 1, i);
      var unit := Finish(es[from]).1;
      var first := if unit.Some? then [TsReader.TrackUnit(tracks[from], unit.value)] else [];
      OfConcat(first, TsReader.Flush(tracks, es, from + 1), tracks[i]);
      assert tracks[from] == tracks[i] <==> from == i;
    }
  }

  /** What a reader returns on one track is decided by that track's packets. */
  lemma AllUnitsProject(tracks: seq<Track>, es: seq<Es>, maxAu: nat, pkts: seq<seq<byte>>, i: nat)
    requires DistinctPids(tracks) && |es| == |tracks| && i < |tracks|
    ensures Of(TsReader.AllUnits(tracks, es, maxAu, pkts), tracks[i]) ==
            StreamUnits(es[i], ForPid(pkts, tracks[i].pid), maxAu)
  {
    hide Finish;
    var (end, units) := TsReader.DemuxAll(tracks, es, maxAu, pkts);
    DemuxProjects(tracks, es, maxAu, pkts, i);
    FlushProjects(tracks, end, 0, i);
    OfConcat(units, TsReader.Flush(tracks, end, 0), tracks[i]);
  }

  // The written side.

  /** The accepted calls on one PID. */
  function Sent(tracks: seq<Track>, calls: seq<Call>, pid: uint16): seq<Call> {
    if calls == [] then []
    else
      (if calls[0].pid == pid && CallError(tracks, calls[0]) == None then [calls[0]] else []) +
      Sent(tracks, calls[1..], pid)
  }

  function UnitChunks(tracks: seq<Track>, call: Call, cc: byte): (chunks: seq<EsPacket>)
    requires tracks != []
    ensures |chunks| > 0
  {
    Chunks(JobFor(tracks, call), cc, true, PesBytes(call))
  }

  /** The packets of a sequence of units, with running counters. */
  function ChunkRun(tracks: seq<Track>, calls: seq<Call>, cc: byte): seq<EsPacket>
    requires tracks != []
  {
    if calls == [] then []
    else
      var chunks := UnitChunks(tracks, calls[0], cc);
      chunks + ChunkRun(tracks, calls[1..], CounterAt(cc, |chunks|))
  }

  lemma {:induction false} ForPidOfUsable(pkts: seq<seq<byte>>, chunks: seq<EsPacket>, pid: uint16, other: uint16)
    requires |pkts| == |chunks| && forall i :: 0 <= i < |pkts| ==> Packetizer.Usable(pkts[i]) == Some(chunks[i])
    requires forall i :: 0 <= i < |chunks| ==> chunks[i].pid == other
    ensures ForPid(pkts, pid) == if pid == other then chunks else []
  {
    hide Packetizer.Usable;
    if pkts != [] {
      assert Packetizer.Usable(pkts[0]) == Some(chunks[0]) && chunks[0].pid == other;
      ForPidOfUsable(pkts[1..], chunks[1..], pid, other);
    }
  }

  lemma UnitForPid(tracks: seq<Track>, st: State, call: Call, pid: uint16)
    requires tracks != [] && call.pid < 0x2000 && CountersValid(st.cc)
    ensures |UnitPackets(tracks, st, call)| == |UnitChunks(tracks, call, Counter(st.cc, call.pid))|
    ensures ForPid(UnitPackets(tracks, st, call), pid) ==
            if pid == call.pid then UnitChunks(tracks, call, Counter(st.cc, call.pid)) else []
  {
    hide Packetize, Chunks, Packetizer.Usable, ForPid, PesBytes;
    var job, cc, payload := JobFor(tracks, call), Counter(st.cc, call.pid), PesBytes(call);
    PesBytesNonEmpty(call);
    PacketizeUsable(job, cc, true, payload);
    ChunksExact(job, cc, true, payload);
    ForPidOfUsable(Packetize(job, cc, true, payload), Chunks(job, cc, true, payload), pid, call.pid);
  }

  lemma PesBytesNonEmpty(call: Call)
    ensures PesBytes(call) != []
  {}

  lemma PsiForPid(c: Config, cc: map<uint16, byte>, pid: uint16)
    requires Ready(c) && CountersValid(cc) && ValidPid(pid)
    ensures ForPid(PsiPackets(c, cc), pid) == []
  {
    hide PsiPacket, ForPid;
    var pkts := PsiPackets(c, cc);
    PsiPacketForPid(PID_PAT, Counter(cc, PID_PAT), c.patRaw, pid);
    PsiPacketForPid(PMT_PID, Counter(cc, PMT_PID), c.pmtRaw, pid);
    assert pkts == [pkts[0]] + [pkts[1]];
    ForPidConcat([pkts[0]], [pkts[1]], pid);
  }

  lemma PsiPacketForPid(own: uint16, cc: byte, section: seq<byte>, pid: uint16)
    requires |section| <= PAYLOAD_SIZE && cc < 16 && own < 0x2000 && pid != own
    ensures ForPid([PsiPacket(own, cc, section)], pid) == []
  {
    hide PsiPacket, Opened;
    PsiPacketOpened(own, cc, section);
    var pkt := PsiPacket(own, cc, section);
    assert Packetizer.Usable(pkt).Some? && Packetizer.Usable(pkt).value.pid == own;
    hide Packetizer.Usable;
    assert [pkt][1..] == [];
  }

  lemma AdvanceValid(cc: map<uint16, byte>, pid: uint16, n: nat)
    requires CountersValid(cc)
    ensures CountersValid(Advance(cc, pid, n))
  {}

  lemma MaybePsiForPid(c: Config, st: State, dts: int64, pid: uint16)
    requires Ready(c) && CountersValid(st.cc) && ValidPid(pid)
    ensures var (st1, psi) := MaybePsi(c, st, dts);
            ForPid(psi, pid) == [] && CountersValid(st1.cc) && Counter(st1.cc, pid) == Counter(st.cc, pid)
  {
    hide PsiPackets;
    PsiForPid(c, st.cc, pid);
    AdvanceValid(st.cc, PID_PAT, 1);
    AdvanceValid(Advance(st.cc, PID_PAT, 1), PMT_PID, 1);
  }

  lemma AcceptedPid(tracks: seq<Track>, call: Call)
    requires PidsInRange(tracks) && CallError(tracks, call) == None
    ensures ValidPid(call.pid) && call.pid < 0x2000 && call.au != [] && Track(call.pid, call.codec) in tracks
  {
    var t :| t in tracks && t == Track(call.pid, call.codec);
    var i :| 0 <= i < |tracks| && tracks[i] == t;
    assert ValidPid(tracks[i].pid);
  }

  /** On the wire, the usable packets of a PID are exactly those of the units sent on it. */
  lemma {:induction false} WrittenForPid(c: Config, st: State, calls: seq<Call>, pid: uint16)
    requires Ready(c) && PidsInRange(c.tracks) && CountersValid(st.cc) && ValidPid(pid)
    ensures ForPid(WriteAll(c, st, calls).1, pid) ==
            ChunkRun(c.tracks, Sent(c.tracks, calls, pid), Counter(st.cc, pid))
    decreases |calls|
  {
    if calls != [] {
      hide ForPid, UnitChunks, MaybePsi, Packetize, UnitPackets, CallError, Counter, Advance, CountersValid, ValidPid,
        CounterAt;
      var call := calls[0];
      WriteForPid(c, st, call, pid);
      var (st1, now) := Write(c, st, call);
      hide Write, Ready, PidsInRange;
      var (end, later) := WriteAll(c, st1, calls[1..]);
      WrittenForPid(c, st1, calls[1..], pid);
      ForPidConcat(now, later, pid);
      var rest := Sent(c.tracks, calls[1..], pid);
      if CallError(c.tracks, call) == None && call.pid == pid {
        assert Sent(c.tracks, calls, pid) == [call] + rest;
        assert ([call] + rest)[1..] == rest;
      } else {
        assert Sent(c.tracks, calls, pid) == rest;
        assert [] + ForPid(later, pid) == ForPid(later, pid);
      }
    }
  }

  /** One call adds its unit's packets to its own PID and nothing to the others. */
  lemma WriteForPid(c: Config, st: State, call: Call, pid: uint16)
    requires Ready(c) && PidsInRange(c.tracks) && CountersValid(st.cc) && ValidPid(pid)
    ensures var (st1, now) := Write(c, st, call);
            var own := CallError(c.tracks, call) == None && call.pid == pid;
            var chunks := if own then UnitChunks(c.tracks, call, Counter(st.cc, pid)) else [];
            && CountersValid(st1.cc)
            && ForPid(now, pid) == chunks
            && Counter(st1.cc, pid) == if own then CounterAt(Counter(st.cc, pid), |chunks|) else Counter(st.cc, pid)
  {
    hide CallError, MaybePsi, UnitPackets, UnitChunks, Advance, CounterAt, Counter, CountersValid, ForPid, PidsInRange;
    if CallError(c.tracks, call) == None {
      AcceptedPid(c.tracks, call);
      var m := MaybePsi(c, st, call.dts);
      var unit := UnitPackets(c.tracks, m.0, call);
      MaybePsiForPid(c, st, call.dts, pid);
      MaybePsiForPid(c, st, call.dts, call.pid);
      UnitForPid(c.tracks, m.0, call, pid);
      ForPidConcat(m.1, unit, pid);
      AdvanceValid(m.0.cc, call.pid, |unit|);
      CounterAdvanced(m.0.cc, call.pid, |unit|, pid);
    } else {
      NoPackets(pid);
    }
  }

  lemma NoPackets(pid: uint16)
    ensures ForPid([], pid) == []
  {}

  lemma CounterAdvanced(cc: map<uint16, byte>, pid: uint16, n: nat, other: uint16)
    ensures Counter(Advance(cc, pid, n), other) ==
            if other == pid then CounterAt(Counter(cc, pid), n) else Counter(cc, other)
  {}
}
