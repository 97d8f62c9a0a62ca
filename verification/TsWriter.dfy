/** mpegts/writer.go: muxing access units into a single-program transport stream. The sink never
    fails; `written` records one entry per packet handed to it. */
module TsWriter {
  import opened Bits
  import opened Bytes
  import opened H26x
  import opened Packet
  import opened Packetizer
  import Pes
  import Psi
  import opened Tracks

  const PID_PAT: uint16 := 0
  const PMT_PID: uint16 := 0x1000
  const PSI_INTERVAL: int := 9000
  const PCR_DELAY: int := 63000
  const MIN_PID: uint16 := 0x0020
  const MAX_PID: uint16 := 0x1FFE

  datatype Error =
    | NoTracks | PidInUse | InvalidPid | UnknownPid | CodecMismatch | EmptyAccessUnit
    | PsiTooLarge | PsiSection(psi: Psi.Error)

  /** One WriteH264 or WriteH265 call. */
  datatype Call = Call(pid: uint16, codec: Codec, pts: int64, dts: int64, au: seq<byte>)

  /** What a writer remembers between calls: counters, and the DTS of the latest tables. */
  datatype State = State(cc: map<uint16, byte>, psi: Option<int64>)

  const INITIAL := State(map[], None)

  predicate ValidPid(pid: uint16) {
    MIN_PID <= pid <= MAX_PID && pid != PMT_PID
  }

  ghost predicate DistinctPids(tracks: seq<Track>) {
    forall i, j :: 0 <= i < j < |tracks| ==> tracks[i].pid != tracks[j].pid
  }

  /** The track lists NewWriter accepts: at most 33 streams fit the one packet of a PMT. */
  ghost predicate ValidTracks(tracks: seq<Track>) {
    0 < |tracks| <= 33 && DistinctPids(tracks) && PidsInRange(tracks)
  }

  ghost predicate PidsInRange(tracks: seq<Track>) {
    forall i :: 0 <= i < |tracks| ==> ValidPid(tracks[i].pid)
  }

  function PmtTable(tracks: seq<Track>): Psi.Pmt
    requires tracks != []
  {
    Psi.Pmt(tracks[0].pid, StreamsOf(tracks))
  }

  /** A configured writer: its tracks and the two marshaled tables. */
  datatype Config = Config(tracks: seq<Track>, patRaw: seq<byte>, pmtRaw: seq<byte>)

  predicate Ready(c: Config) {
    c.tracks != [] && |c.patRaw| <= PAYLOAD_SIZE && |c.pmtRaw| <= PAYLOAD_SIZE
  }

  /** The configuration NewWriter ends with. */
  ghost predicate Configures(c: Config) {
    && ValidTracks(c.tracks)
    && Psi.Marshal(Psi.PatSection(1, [Psi.PatProgram(1, PMT_PID)])) == Ok(c.patRaw)
    && Psi.Marshal(Psi.PmtSection(1, PmtTable(c.tracks))) == Ok(c.pmtRaw)
  }

  /** The configuration for a track list. */
  ghost function ConfigFor(tracks: seq<Track>): (c: Config)
    requires ValidTracks(tracks)
    ensures c.tracks == tracks && Configures(c) && Ready(c)
  {
    hide Psi.Marshal, PmtTable, DistinctPids, PidsInRange;
    MarshaledTables(tracks);
    Config(tracks, Psi.Marshal(Psi.PatSection(1, [Psi.PatProgram(1, PMT_PID)])).value,
           Psi.Marshal(Psi.PmtSection(1, PmtTable(tracks))).value)
  }

  lemma ConfiguresOnce(c: Config)
    requires Configures(c)
    ensures c == ConfigFor(c.tracks)
  {
    hide Psi.Marshal, PmtTable, DistinctPids, PidsInRange;
  }

  function Counter(cc: map<uint16, byte>, pid: uint16): byte {
    if pid in cc then cc[pid] else 0
  }

  function Advance(cc: map<uint16, byte>, pid: uint16, n: nat): map<uint16, byte> {
    cc[pid := CounterAt(Counter(cc, pid), n)]
  }

  predicate CountersValid(cc: map<uint16, byte>) {
    forall pid :: pid in cc ==> cc[pid] < 16
  }

  /** maybeWritePSI writes unless tables are recent; the difference is an int64. */
  predicate PsiDue(psi: Option<int64>, dts: int64) {
    !(psi.Some? && dts >= psi.value && Wrap64(dts - psi.value) < PSI_INTERVAL)
  }

  function PsiPackets(c: Config, cc: map<uint16, byte>): seq<seq<byte>>
    requires Ready(c)
  {
    [PsiPacket(PID_PAT, Counter(cc, PID_PAT), c.patRaw), PsiPacket(PMT_PID, Counter(cc, PMT_PID), c.pmtRaw)]
  }

  function MaybePsi(c: Config, st: State, dts: int64): (State, seq<seq<byte>>)
    requires Ready(c)
  {
    if PsiDue(st.psi, dts) then
      (State(Advance(Advance(st.cc, PID_PAT, 1), PMT_PID, 1), Some(dts)), PsiPackets(c, st.cc))
    else (st, [])
  }

  /** The clock reference of a unit, in uint64 arithmetic. */
  function PcrFor(dts: int64): uint64 {
    var base := Wrap64(dts - PCR_DELAY);
    (if base > 0 then base else 0) * 300 % UINT64_LIMIT
  }

  function JobFor(tracks: seq<Track>, call: Call): Job
    requires tracks != []
  {
    var withPcr := call.pid == tracks[0].pid;
    Job(call.pid, IsRandomAccess(call.codec, call.au), withPcr, if withPcr then PcrFor(call.dts) else 0)
  }

  function PesBytes(call: Call): seq<byte> {
    Pes.HeaderBytes(Pes.VIDEO_STREAM, call.pts, call.dts) + WithAud(call.codec, call.au)
  }

  function CallError(tracks: seq<Track>, call: Call): Option<Error> {
    if forall t :: t in tracks ==> t.pid != call.pid then Some(UnknownPid)
    else if Track(call.pid, call.codec) !in tracks then Some(CodecMismatch)
    else if call.au == [] then Some(EmptyAccessUnit)
    else None
  }

  /** The packets of the unit itself, once tables have been taken care of. */
  function UnitPackets(tracks: seq<Track>, st: State, call: Call): seq<seq<byte>>
    requires tracks != []
  {
    Packetize(JobFor(tracks, call), Counter(st.cc, call.pid), true, PesBytes(call))
  }

  /** One call: the new state and the packets it writes. A rejected call changes nothing. */
  function Write(c: Config, st: State, call: Call): (State, seq<seq<byte>>)
    requires Ready(c)
  {
    if CallError(c.tracks, call).Some? then (st, [])
    else
      var (st1, psi) := MaybePsi(c, st, call.dts);
      var unit := UnitPackets(c.tracks, st1, call);
      (st1.(cc := Advance(st1.cc, call.pid, |unit|)), psi + unit)
  }

  /** A whole run. */
  function WriteAll(c: Config, st: State, calls: seq<Call>): (State, seq<seq<byte>>)
    requires Ready(c)
    decreases |calls|
  {
    if calls == [] then (st, [])
    else
      var (st1, now) := Write(c, st, calls[0]);
      var (end, later) := WriteAll(c, st1, calls[1..]);
      (end, now + later)
  }

  /** The part of a segment list that is still to be copied. */
  function Rest(segs: seq<seq<byte>>, segIdx: nat, segOff: nat): seq<byte>
    requires segIdx < |segs| ==> segOff <= |segs[segIdx]|
  {
    if segIdx < |segs| then segs[segIdx][segOff..] + Flatten(segs[segIdx + 1..]) else []
  }

  class Writer {
    var tracks: seq<Track>
    var byPid: map<uint16, Track>
    var cc: map<uint16, byte>
    var pcrPid: uint16
    var psiWritten: bool
    var lastPsiDts: int64
    var patRaw: seq<byte>
    var pmtRaw: seq<byte>
    const pkt: array<byte>
    var written: seq<seq<byte>>

    ghost predicate TracksIndexed()
      reads this`tracks, this`byPid
    {
      && (forall t :: t in tracks ==> t.pid in byPid && byPid[t.pid] == t)
      && (forall pid :: pid in byPid ==> byPid[pid].pid == pid && byPid[pid] in tracks)
    }

    ghost predicate Valid()
      reads this
    {
      && Ready(Setup()) && TracksIndexed() && pcrPid == tracks[0].pid
      && pkt.Length == PACKET_SIZE && CountersValid(cc)
    }

    function Setup(): Config
      reads this`tracks, this`patRaw, this`pmtRaw
    {
      Config(tracks, patRaw, pmtRaw)
    }

    function Abstract(): State
      reads this`cc, this`psiWritten, this`lastPsiDts
    {
      State(cc, if psiWritten then Some(lastPsiDts) else None)
    }

    constructor ()
      ensures fresh(pkt) && pkt.Length == PACKET_SIZE && written == [] && tracks == []
      ensures Abstract() == INITIAL && TracksIndexed()
    {
      tracks, byPid, cc := [], map[], map[];
      pcrPid, psiWritten, lastPsiDts := 0, false, 0;
      patRaw, pmtRaw := [], [];
      pkt := new byte[PACKET_SIZE](_ => 0);
      written := [];
    }

    /** withTrack. */
    method AddTrack(t: Track) returns (err: Option<Error>)
      requires TracksIndexed()
      modifies this`tracks, this`byPid
      ensures TracksIndexed()
      ensures err == if !ValidPid(t.pid) then Some(InvalidPid)
                     else if exists u :: u in old(tracks) && u.pid == t.pid then Some(PidInUse)
                     else None
      ensures tracks == if err == None then old(tracks) + [t] else old(tracks)
    {
      if t.pid < MIN_PID || t.pid > MAX_PID || t.pid == PMT_PID {
        return Some(InvalidPid);
      }
      if t.pid in byPid {
        return Some(PidInUse);
      }
      tracks := tracks + [t];
      byPid := byPid[t.pid := t];
      err := None;
    }

    method NextCc(pid: uint16) returns (counter: byte)
      requires CountersValid(cc)
      modifies this`cc
      ensures counter == Counter(old(cc), pid) < 16
      ensures cc == Advance(old(cc), pid, 1) && CountersValid(cc)
    {
      counter := if pid in cc then cc[pid] else 0;
      cc := cc[pid := (counter + 1) % 16];
    }

    method WriteSection(pid: uint16, section: seq<byte>)
      requires |section| <= PAYLOAD_SIZE && pkt.Length == PACKET_SIZE && CountersValid(cc)
      modifies this`cc, this`written, pkt
      ensures written == old(written) + [PsiPacket(pid, Counter(old(cc), pid), section)]
      ensures cc == Advance(old(cc), pid, 1) && CountersValid(cc)
    {
      hide PsiPacket, HeaderBytes, CounterAt;
      var counter := NextCc(pid);
      var h := Header(false, true, false, pid, 0, false, true, counter);
      MarshalHeader(h, pkt);
      var n := |section|;
      ghost var header := pkt[..4];
      forall i | 0 <= i < n {
        pkt[4 + i] := section[i];
      }
      assert forall k :: 0 <= k < 4 ==> pkt[..4][k] == header[k];
      assert forall k :: 0 <= k < n ==> pkt[4..4 + n][k] == section[k];
      assert pkt[..4] == HeaderBytes(h) && pkt[4..4 + n] == section;
      ghost var filled := pkt[..4 + n];
      assert filled[..4] == HeaderBytes(h) && filled[4..] == section;
      Stuff(pkt, 4 + n, PACKET_SIZE);
      assert pkt[..4 + n] == filled;
      assert pkt[..4] == filled[..4] && pkt[4..4 + n] == filled[4..];
      AssemblePsiPacket(pkt[..], pid, counter, section);
      written := written + [pkt[..]];
    }

    method MaybeWritePsi(dts: int64)
      requires Ready(Setup())
      requires pkt.Length == PACKET_SIZE && CountersValid(cc)
      modifies this`cc, this`written, this`psiWritten, this`lastPsiDts, pkt
      ensures var (st, out) := MaybePsi(Setup(), old(Abstract()), dts);
              Abstract() == st && written == old(written) + out
      ensures CountersValid(cc)
    {
      hide PsiPacket, Advance, Counter, CountersValid;
      if psiWritten && dts >= lastPsiDts && Wrap64(dts - lastPsiDts) < PSI_INTERVAL {
        return;
      }
      WriteSection(PID_PAT, patRaw);
      WriteSection(PMT_PID, pmtRaw);
      CountersApart(old(cc), PID_PAT, PMT_PID, 1);
      assert written == old(written) + PsiPackets(Setup(), old(cc));
      psiWritten := true;
      lastPsiDts := dts;
    }

    /** The inner loop of writePES: fills the packet from `at` on. */
    method FillPacket(segs: seq<seq<byte>>, idx: nat, off: nat, at: nat) returns (segIdx: nat, segOff: nat)
      requires pkt.Length == PACKET_SIZE && at <= PACKET_SIZE
      requires idx <= |segs| && (idx < |segs| ==> off <= |segs[idx]|)
      requires |Rest(segs, idx, off)| >= PACKET_SIZE - at
      modifies pkt
      ensures segIdx <= |segs| && (segIdx < |segs| ==> segOff <= |segs[segIdx]|)
      ensures pkt[at..] == Rest(segs, idx, off)[..PACKET_SIZE - at]
      ensures pkt[..at] == old(pkt[..at])
      ensures Rest(segs, segIdx, segOff) == Rest(segs, idx, off)[PACKET_SIZE - at..]
      ensures forall k :: 0 <= k < at ==> pkt[k] == old(pkt[k])
    {
      hide Rest;
      segIdx, segOff := idx, off;
      var pos := at;
      while pos < PACKET_SIZE && segIdx < |segs|
        invariant at <= pos <= PACKET_SIZE
        invariant segIdx <= |segs| && (segIdx < |segs| ==> segOff <= |segs[segIdx]|)
        invariant pkt[at..pos] + Rest(segs, segIdx, segOff) == Rest(segs, idx, off)
        invariant forall k :: 0 <= k < at ==> pkt[k] == old(pkt[k])
        decreases |segs| - segIdx, PACKET_SIZE - pos
      {
        var seg := segs[segIdx];
        var n := if PACKET_SIZE - pos <= |seg| - segOff then PACKET_SIZE - pos else |seg| - segOff;
        ghost var done, piece := pkt[at..pos], seg[segOff..segOff + n];
        RestAdvances(segs, segIdx, segOff, n);
        ghost var before := pkt[..];
        CopyInto(pkt, pos, seg[segOff..segOff + n]);
        Appended(before, pkt[..], at, pos, piece);
        pos := pos + n;
        segOff := segOff + n;
        if segOff == |seg| {
          segIdx := segIdx + 1;
          segOff := 0;
        }
        ConcatAssoc(done, piece, Rest(segs, segIdx, segOff));
      }
      if segIdx == |segs| {
        RestDone(segs, segOff);
      }
      assert pos == PACKET_SIZE && pkt[at..pos] == pkt[at..];
      FilledUp(pkt[at..pos], Rest(segs, segIdx, segOff), Rest(segs, idx, off));
    }

    /** The body of the outer loop of writePES: one packet. */
    method WriteNextPacket(job: Job, first: bool, remaining: nat, segs: seq<seq<byte>>, idx: nat, off: nat)
      returns (segIdx: nat, segOff: nat, n: nat)
      requires pkt.Length == PACKET_SIZE && CountersValid(cc)
      requires idx <= |segs| && (idx < |segs| ==> off <= |segs[idx]|)
      requires remaining == |Rest(segs, idx, off)|
      modifies this`cc, this`written, pkt
      ensures segIdx <= |segs| && (segIdx < |segs| ==> segOff <= |segs[segIdx]|)
      ensures n == Taken(job, first, Rest(segs, idx, off))
      ensures Rest(segs, segIdx, segOff) == Rest(segs, idx, off)[n..]
      ensures written == old(written) + [PesPacket(job, Counter(old(cc), job.pid), first, Rest(segs, idx, off))]
      ensures Counter(old(cc), job.pid) < 16 && cc == Advance(old(cc), job.pid, 1) && CountersValid(cc)
    {
      hide PesPacket, Rest, FieldBytes, HeaderBytes, CounterAt, AdaptationBytes, Fits, Counter, Advance, CountersValid;
      var counter := NextCc(job.pid);
      var af := AdaptationField(false, job.rai && first, job.withPcr && first, job.pcr);
      var minAf := 0;
      if af.randomAccess || af.hasPcr {
        minAf := EncodedLen(af);
      }
      var afTotal := minAf;
      if remaining < PACKET_SIZE - 4 - minAf {
        afTotal := PACKET_SIZE - 4 - remaining;
      }
      assert af == FieldFor(job, first) && afTotal == FieldTotal(job, first, remaining);
      var h := Header(false, first, false, job.pid, 0, afTotal > 0, true, counter);
      assert h == PesPacketHeader(job, counter, first, afTotal);
      hide FieldFor, FieldTotal, MinField, EncodedLen, PesPacketHeader;
      MarshalHeader(h, pkt);
      if afTotal > 0 {
        MarshalAdaptation(af, pkt, 4, afTotal);
      }
      FieldBytesAre(job, first, afTotal);
      assert pkt[..4] == HeaderBytes(h) && pkt[4..4 + afTotal] == FieldBytes(job, first, afTotal);
      Cut(pkt[..], 0, 4, 4 + afTotal);
      segIdx, segOff := FillPacket(segs, idx, off, 4 + afTotal);
      AssemblePesPacket(job, counter, first, Rest(segs, idx, off), pkt[..]);
      n := PACKET_SIZE - 4 - afTotal;
      written := written + [pkt[..]];
    }

    /** Slices the concatenation of `segs` into packets. */
    method WritePes(job: Job, segs: seq<seq<byte>>)
      requires pkt.Length == PACKET_SIZE && CountersValid(cc)
      modifies this`cc, this`written, pkt
      ensures var pkts := Packetize(job, Counter(old(cc), job.pid), true, Flatten(segs));
              written == old(written) + pkts && cc == Advance(old(cc), job.pid, |pkts|)
      ensures CountersValid(cc)
    {
      hide *;
      var remaining: int := TotalLength(segs);
      var segIdx: nat, segOff: nat := 0, 0;
      var first := true;
      RestStart(segs);
      ghost var all := Packetize(job, Counter(cc, job.pid), true, Flatten(segs));
      ghost var sent := 0;
      while first || remaining > 0
        invariant segIdx <= |segs| && (segIdx < |segs| ==> segOff <= |segs[segIdx]|)
        invariant remaining == |Rest(segs, segIdx, segOff)| && CountersValid(cc)
        invariant first == (sent == 0) && sent <= |all|
        invariant sent < |all| <==> first || remaining > 0
        invariant sent < |all| ==> all[sent..] == Packetize(job, Counter(cc, job.pid), first, Rest(segs, segIdx, segOff))
        invariant written == old(written) + all[..sent]
        invariant cc == if sent == 0 then old(cc) else Advance(old(cc), job.pid, sent)
        decreases |all| - sent
      {
        ghost var before, counter, todo := cc, Counter(cc, job.pid), Rest(segs, segIdx, segOff);
        PacketizeUnfolds(job, counter, first, todo);
        var n;
        segIdx, segOff, n := WriteNextPacket(job, first, remaining, segs, segIdx, segOff);
        CountersRun(old(cc), before, job.pid, counter, sent);
        NextPart(all, sent);
        ConcatAssoc(old(written), all[..sent], [all[sent]]);
        remaining := remaining - n;
        first := false;
        sent := sent + 1;
        assert |all[sent..]| == |all| - sent;
      }
      assert all[..sent] == all;
    }

    method WriteAccessUnit(call: Call, aud: Option<seq<byte>>, randomAccess: bool) returns (err: Option<Error>)
      requires Ready(Setup()) && TracksIndexed() && pcrPid == tracks[0].pid
      requires pkt.Length == PACKET_SIZE && CountersValid(cc)
      requires randomAccess == IsRandomAccess(call.codec, call.au)
      requires aud == if call.au != [] && !StartsWithAud(call.codec, call.au) then Some(Aud(call.codec)) else None
      modifies this`cc, this`written, this`psiWritten, this`lastPsiDts, pkt
      ensures CountersValid(cc)
      ensures err == CallError(tracks, call)
      ensures var (st, out) := Write(Setup(), old(Abstract()), call);
              Abstract() == st && written == old(written) + out
    {
      hide Ready, TracksIndexed, CallError, IsRandomAccess, StartsWithAud, Aud, CountersValid, MaybePsi, Packetize, PesBytes,
        Pes.HeaderBytes, PcrFor, Flatten, Advance, Counter;
      AbstractParts();
      IndexedLookUp(call);
      if call.pid !in byPid {
        return Some(UnknownPid);
      }
      var track := byPid[call.pid];
      if track.codec != call.codec {
        return Some(CodecMismatch);
      }
      if |call.au| == 0 {
        return Some(EmptyAccessUnit);
      }
      MaybeWritePsi(call.dts);
      ghost var (st1, psi) := MaybePsi(Setup(), old(Abstract()), call.dts);
      var segs := [Pes.HeaderBytes(Pes.VIDEO_STREAM, call.pts, call.dts)];
      if aud != None {
        segs := segs + [aud.value];
      }
      segs := segs + [call.au];
      FlattenSegments(segs, call);
      var withPcr := call.pid == pcrPid;
      var pcr: uint64 := if withPcr then PcrFor(call.dts) else 0;
      var job := Job(call.pid, randomAccess, withPcr, pcr);
      AbstractParts();
      ghost var unit := Packetize(job, Counter(st1.cc, call.pid), true, PesBytes(call));
      WritePes(job, segs);
      ConcatAssoc(old(written), psi, unit);
      AbstractParts();
      err := None;
    }

    lemma IndexedLookUp(call: Call)
      requires TracksIndexed()
      ensures CallError(tracks, call) ==
              if call.pid !in byPid then Some(UnknownPid)
              else if byPid[call.pid].codec != call.codec then Some(CodecMismatch)
              else if call.au == [] then Some(EmptyAccessUnit)
              else None
    {
    }

    lemma AbstractParts()
      ensures Abstract() == State(cc, if psiWritten then Some(lastPsiDts) else None) && Setup().tracks == tracks
    {}

    /** An access unit delimiter is prepended where the unit does not start with one. */
    method WriteH264(pid: uint16, pts: int64, dts: int64, au: seq<byte>) returns (err: Option<Error>)
      requires Valid()
      modifies this`cc, this`written, this`psiWritten, this`lastPsiDts, pkt
      ensures Valid()
      ensures err == CallError(tracks, Call(pid, H264, pts, dts, au))
      ensures var (st, out) := Write(Setup(), old(Abstract()), Call(pid, H264, pts, dts, au));
              Abstract() == st && written == old(written) + out
    {
      hide StartsWithAud, Aud, IsRandomAccess, Write, CallError, Abstract, TracksIndexed, CountersValid;
      var aud := None;
      var starts := CheckAud(H264, au);
      if |au| > 0 && !starts {
        aud := Some(Aud(H264));
      }
      var randomAccess := CheckRandomAccess(H264, au);
      err := WriteAccessUnit(Call(pid, H264, pts, dts, au), aud, randomAccess);
    }

    method WriteH265(pid: uint16, pts: int64, dts: int64, au: seq<byte>) returns (err: Option<Error>)
      requires Valid()
      modifies this`cc, this`written, this`psiWritten, this`lastPsiDts, pkt
      ensures Valid()
      ensures err == CallError(tracks, Call(pid, H265, pts, dts, au))
      ensures var (st, out) := Write(Setup(), old(Abstract()), Call(pid, H265, pts, dts, au));
              Abstract() == st && written == old(written) + out
    {
      hide StartsWithAud, Aud, IsRandomAccess, Write, CallError, Abstract, TracksIndexed, CountersValid;
      var aud := None;
      var starts := CheckAud(H265, au);
      if |au| > 0 && !starts {
        aud := Some(Aud(H265));
      }
      var randomAccess := CheckRandomAccess(H265, au);
      err := WriteAccessUnit(Call(pid, H265, pts, dts, au), aud, randomAccess);
    }
  }

  method TotalLength(segs: seq<seq<byte>>) returns (n: nat)
    ensures n == |Flatten(segs)|
  {
    n := 0;
    for i := 0 to |segs|
      invariant n + |Flatten(segs[i..])| == |Flatten(segs)|
    {
      assert segs[i..][1..] == segs[i + 1..];
      n := n + |segs[i]|;
    }
  }

  /** Go's copy. */
  method CopyInto(buf: array<byte>, pos: nat, data: seq<byte>)
    requires pos + |data| <= buf.Length
    modifies buf
    ensures buf[..][pos..pos + |data|] == data
    ensures forall k :: 0 <= k < pos || pos + |data| <= k < buf.Length ==> buf[k] == old(buf[k])
  {
    forall i | 0 <= i < |data| {
      buf[pos + i] := data[i];
    }
  }

  lemma Appended(before: seq<byte>, now: seq<byte>, at: nat, pos: nat, piece: seq<byte>)
    requires |before| == |now| && at <= pos && pos + |piece| <= |now| && now[pos..pos + |piece|] == piece
    requires forall k :: at <= k < pos ==> now[k] == before[k]
    ensures now[at..pos + |piece|] == before[at..pos] + piece
  {
    assert now[at..pos] == before[at..pos];
    Cut(now, at, pos, pos + |piece|);
  }

  /** The error of the first track option that fails. */
  function OptionsError(done: seq<Track>, opts: seq<Track>): Option<Error>
    decreases |opts|
  {
    if opts == [] then None
    else if !ValidPid(opts[0].pid) then Some(InvalidPid)
    else if exists u :: u in done && u.pid == opts[0].pid then Some(PidInUse)
    else OptionsError(done + [opts[0]], opts[1..])
  }

  /** The options succeed exactly for distinct PIDs in range. */
  lemma {:induction false} OptionsSucceed(done: seq<Track>, opts: seq<Track>)
    requires DistinctPids(done) && PidsInRange(done)
    ensures OptionsError(done, opts) == None <==> DistinctPids(done + opts) && PidsInRange(done + opts)
    decreases |opts|
  {
    var all := done + opts;
    if opts == [] {
      assert all == done;
    } else {
      var t, next := opts[0], done + [opts[0]];
      assert all == next + opts[1..] && all[|done|] == t;
      if ValidPid(t.pid) {
        if u :| u in done && u.pid == t.pid {
          var j :| 0 <= j < |done| && done[j] == u;
          assert all[j].pid == all[|done|].pid;
        } else {
          OptionsSucceed(next, opts[1..]);
        }
      }
    }
  }

  method ApplyOptions(writer: Writer, opts: seq<Track>) returns (err: Option<Error>)
    requires writer.TracksIndexed() && writer.tracks == []
    modifies writer`tracks, writer`byPid
    ensures err == OptionsError([], opts)
    ensures err == None ==> writer.tracks == opts && writer.TracksIndexed()
  {
    for i := 0 to |opts|
      invariant writer.TracksIndexed() && writer.tracks == opts[..i]
      invariant OptionsError(opts[..i], opts[i..]) == OptionsError([], opts)
    {
      assert opts[i..][1..] == opts[i + 1..] && opts[..i] + [opts[i]] == opts[..i + 1];
      hide ValidPid;
      err := writer.AddTrack(opts[i]);
      if err.Some? {
        return;
      }
    }
    assert opts[..|opts|] == opts;
    err := None;
  }

  method NewWriter(opts: seq<Track>) returns (r: Result<Writer, Error>)
    ensures r.Ok? <==> ValidTracks(opts)
    ensures OptionsError([], opts).Some? ==> r == Err(OptionsError([], opts).value)
    ensures opts == [] ==> r == Err(NoTracks)
    ensures OptionsError([], opts) == None && |opts| > 33 ==>
              r == Err(if |opts| <= 201 then PsiTooLarge else PsiSection(Psi.SectionTooLong))
    ensures r.Ok? ==>
              var w := r.value;
              && fresh(w) && fresh(w.pkt) && w.Valid() && w.written == [] && w.Abstract() == INITIAL
              && w.tracks == opts && w.Setup() == ConfigFor(opts)
  {
    hide Psi.Marshal, Psi.PatSection, Psi.PmtSection, PmtTable, OptionsError, DistinctPids, PidsInRange, Counter, Ready;
    var writer := new Writer();
    NoPids();
    OptionsSucceed([], opts);
    assert [] + opts == opts;
    var err := ApplyOptions(writer, opts);
    if err.Some? {
      return Err(err.value);
    }
    if |writer.tracks| == 0 {
      return Err(NoTracks);
    }
    writer.pcrPid := writer.tracks[0].pid;
    var pat := Psi.MarshalPat(1, [Psi.PatProgram(1, PMT_PID)]);
    var pmt := Psi.MarshalPmt(1, PmtTable(writer.tracks));
    MarshaledTables(opts);
    if pat.Err? || pmt.Err? {
      return Err(PsiSection(Psi.SectionTooLong));
    }
    writer.patRaw, writer.pmtRaw := pat.value, pmt.value;
    if |writer.patRaw| > PAYLOAD_SIZE || |writer.pmtRaw| > PAYLOAD_SIZE {
      return Err(PsiTooLarge);
    }
    ConfiguresOnce(writer.Setup());
    r := Ok(writer);
  }

  lemma NoPids()
    ensures DistinctPids([]) && PidsInRange([])
  {}

  lemma MarshaledTables(tracks: seq<Track>)
    requires tracks != []
    ensures var pat := Psi.Marshal(Psi.PatSection(1, [Psi.PatProgram(1, PMT_PID)]));
            pat.Ok? && |pat.value| == 17
    ensures var pmt := Psi.Marshal(Psi.PmtSection(1, PmtTable(tracks)));
            && (pmt.Ok? ==> |pmt.value| == 17 + 5 * |tracks|)
            && (if |tracks| <= 201 then pmt.Ok? else pmt == Err(Psi.SectionTooLong))
  {
    hide Psi.SectionBytes, Psi.PatData, Psi.PmtData;
  }

  lemma FlattenSegments(segs: seq<seq<byte>>, call: Call)
    requires var header := Pes.HeaderBytes(Pes.VIDEO_STREAM, call.pts, call.dts);
             segs == if StartsWithAud(call.codec, call.au) then [header, call.au] else [header, Aud(call.codec), call.au]
    ensures Flatten(segs) == PesBytes(call)
  {
    hide Pes.HeaderBytes, StartsWithAud, Aud;
    var header := Pes.HeaderBytes(Pes.VIDEO_STREAM, call.pts, call.dts);
    assert Flatten([call.au]) == call.au + Flatten([]) == call.au;
    if StartsWithAud(call.codec, call.au) {
      assert segs[1..] == [call.au];
    } else {
      assert segs[1..] == [Aud(call.codec), call.au] && segs[1..][1..] == [call.au];
    }
  }

  lemma AssemblePsiPacket(pkt: seq<byte>, pid: uint16, cc: byte, section: seq<byte>)
    requires |section| <= PAYLOAD_SIZE && |pkt| == PACKET_SIZE
    requires pkt[..4] == HeaderBytes(Header(false, true, false, pid, 0, false, true, cc))
    requires pkt[4..4 + |section|] == section
    requires pkt[4 + |section|..] == Stuffing(PAYLOAD_SIZE - |section|)
    ensures pkt == PsiPacket(pid, cc, section)
  {
    hide HeaderBytes, Stuffing;
    Cut(pkt, 0, 4, 4 + |section|);
    Cut(pkt, 0, 4 + |section|, PACKET_SIZE);
  }

  lemma CountersApart(cc: map<uint16, byte>, a: uint16, b: uint16, n: nat)
    requires a != b
    ensures Counter(Advance(cc, a, n), b) == Counter(cc, b)
  {}

  lemma FieldBytesAre(job: Job, first: bool, afTotal: nat)
    requires afTotal > 0 ==> Fits(FieldFor(job, first), afTotal)
    ensures FieldBytes(job, first, afTotal) ==
            if afTotal > 0 then AdaptationBytes(FieldFor(job, first), afTotal) else []
  {}

  lemma AssemblePesPacket(job: Job, cc: byte, first: bool, payload: seq<byte>, pkt: seq<byte>)
    requires |pkt| == PACKET_SIZE
    requires var afTotal := FieldTotal(job, first, |payload|);
             && pkt[..4] == HeaderBytes(PesPacketHeader(job, cc, first, afTotal))
             && pkt[4..4 + afTotal] == FieldBytes(job, first, afTotal)
             && pkt[4 + afTotal..] == payload[..PAYLOAD_SIZE - afTotal]
    ensures pkt == PesPacket(job, cc, first, payload)
  {
    hide HeaderBytes, FieldBytes, FieldTotal;
    var afTotal := FieldTotal(job, first, |payload|);
    Cut(pkt, 0, 4, 4 + afTotal);
    Cut(pkt, 0, 4 + afTotal, PACKET_SIZE);
  }

  lemma PacketizeUnfolds(job: Job, cc: byte, first: bool, payload: seq<byte>)
    ensures var n, pkts := Taken(job, first, payload), Packetize(job, cc, first, payload);
            && n <= |payload|
            && pkts[0] == PesPacket(job, cc, first, payload)
            && pkts[1..] == if n == |payload| then [] else Packetize(job, NextCounter(cc), false, payload[n..])
  {}

  /** Counters after one more packet of a run that began with `start`. */
  lemma CountersRun(start: map<uint16, byte>, now: map<uint16, byte>, pid: uint16, counter: byte, sent: nat)
    requires now == if sent == 0 then start else Advance(start, pid, sent)
    requires counter == Counter(now, pid) < 16
    ensures Advance(now, pid, 1) == Advance(start, pid, sent + 1)
    ensures Counter(Advance(now, pid, 1), pid) == NextCounter(counter)
  {}

  lemma NextPart<T>(all: seq<T>, k: nat)
    requires k < |all|
    ensures all[..k] + [all[k]] == all[..k + 1] && all[k..][1..] == all[k + 1..]
  {}

  lemma RestStart(segs: seq<seq<byte>>)
    ensures Rest(segs, 0, 0) == Flatten(segs)
  {}

  lemma FilledUp(done: seq<byte>, rest: seq<byte>, all: seq<byte>)
    requires done + rest == all
    ensures done == all[..|done|] && rest == all[|done|..]
  {}

  lemma RestDone(segs: seq<seq<byte>>, off: nat)
    ensures Rest(segs, |segs|, off) == []
  {}

  lemma RestAdvances(segs: seq<seq<byte>>, idx: nat, off: nat, n: nat)
    requires idx < |segs| && off + n <= |segs[idx]|
    ensures var (i, o) := if off + n == |segs[idx]| then (idx + 1, 0) else (idx, off + n);
            Rest(segs, idx, off) == segs[idx][off..off + n] + Rest(segs, i, o)
  {
    hide *;
    var seg, more := segs[idx], Flatten(segs[idx + 1..]);
    RestWithin(segs, idx, off);
    RestWithin(segs, idx, off + n);
    RestAt(segs, idx + 1);
    SplitAt(seg, off, n);
    ConcatAssoc(seg[off..off + n], seg[off + n..], more);
    assert [] + more == more;
  }

  lemma RestWithin(segs: seq<seq<byte>>, idx: nat, off: nat)
    requires idx < |segs| && off <= |segs[idx]|
    ensures Rest(segs, idx, off) == segs[idx][off..] + Flatten(segs[idx + 1..])
  {}

  lemma SplitAt(s: seq<byte>, i: nat, n: nat)
    requires i + n <= |s|
    ensures s[i..] == s[i..i + n] + s[i + n..] && (i + n == |s| ==> s[i + n..] == [])
  {}

  lemma RestAt(segs: seq<seq<byte>>, idx: nat)
    requires idx <= |segs|
    ensures Rest(segs, idx, 0) == Flatten(segs[idx..])
  {
    if idx < |segs| {
      assert segs[idx..][1..] == segs[idx + 1..] && segs[idx][0..] == segs[idx];
    }
  }
}
