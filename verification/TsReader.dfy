/** mpegts/reader.go: finding the tables of a transport stream and demuxing its access units.
    The source is a finite byte string. */
module TsReader {
  import opened Bits
  import opened Bytes
  import opened EsStream
  import opened Packet
  import opened Packetizer
  import Psi
  import opened Tracks

  datatype Error = NoUsableProgram | InvalidMaxAuSize

  const DEFAULT_MAX_AU: nat := 0x40_0000

  /** The whole packets of a byte string; an incomplete one at the end is not read. */
  function Packets(src: seq<byte>): seq<seq<byte>> {
    if |src| < PACKET_SIZE then [] else [src[..PACKET_SIZE]] + Packets(src[PACKET_SIZE..])
  }

  lemma {:induction false} PacketsOfStream(pkts: seq<seq<byte>>)
    requires forall i :: 0 <= i < |pkts| ==> |pkts[i]| == PACKET_SIZE
    ensures Packets(Flatten(pkts)) == pkts
  {
    if pkts != [] {
      PacketsOfStream(pkts[1..]);
      assert Flatten(pkts)[PACKET_SIZE..] == Flatten(pkts[1..]);
    }
  }

  // Finding the tables.

  datatype Search = Search(havePat: bool, pmtPid: uint16, pat: Psi.Assembly, pmt: Psi.Assembly)

  const NEW_SEARCH := Search(false, 0, Psi.Assembly([], false), Psi.Assembly([], false))

  /** The PMT's PID, if the section is a program association table with a program. */
  function PmtPidIn(section: seq<byte>): Option<uint16> {
    match Psi.ParseSectionBytes(section)
    case Err(_) => None
    case Ok(s) =>
      if s.tableId != Psi.TABLE_PAT || Psi.PatPrograms(s.data) == [] then None
      else Some(Psi.PatPrograms(s.data)[0].pmtPid)
  }

  /** The supported tracks, if the section is a program map table. */
  function TracksIn(section: seq<byte>): Option<seq<Track>> {
    match Psi.ParseSectionBytes(section)
    case Err(_) => None
    case Ok(s) =>
      match Psi.PmtTable(s)
      case Err(_) => None
      case Ok(table) => Some(TracksOf(table.streams))
  }

  /** One packet of the search; tracks once a program map table has been read. */
  function SearchStep(st: Search, pkt: seq<byte>): (Search, Option<seq<Track>>) {
    match Opened(pkt)
    case None => (st, None)
    case Some(p) =>
      if p.header.pid == 0 && !st.havePat then
        var (pat, section) := Psi.Feed(st.pat, p.header.payloadUnitStart, p.payload);
        if section == None || PmtPidIn(section.value) == None then (st.(pat := pat), None)
        else (st.(pat := pat, havePat := true, pmtPid := PmtPidIn(section.value).value), None)
      else if st.havePat && p.header.pid == st.pmtPid then
        var (pmt, section) := Psi.Feed(st.pmt, p.header.payloadUnitStart, p.payload);
        (st.(pmt := pmt), if section == None then None else TracksIn(section.value))
      else (st, None)
  }

  /** readTables: the tracks of the first program and the packets after its table. */
  function FindTracks(st: Search, pkts: seq<seq<byte>>): Result<(seq<Track>, seq<seq<byte>>), Error>
    decreases |pkts|
  {
    if pkts == [] then Err(NoUsableProgram)
    else
      var (next, tracks) := SearchStep(st, pkts[0]);
      if tracks == None then FindTracks(next, pkts[1..])
      else if tracks.value == [] then Err(NoUsableProgram)
      else Ok((tracks.value, pkts[1..]))
  }

  // Demuxing.

  datatype TrackUnit = TrackUnit(track: Track, unit: Unit)

  function NewStreams(n: nat): seq<Es> {
    seq(n, i => NEW_ES)
  }

  /** handlePacket: packets of no stream, and unusable ones, change nothing. */
  function Demux(tracks: seq<Track>, es: seq<Es>, maxAu: nat, pkt: seq<byte>): (r: (seq<Es>, Option<TrackUnit>))
    requires |es| == |tracks|
    ensures |r.0| == |tracks|
  {
    match Usable(pkt)
    case None => (es, None)
    case Some(p) =>
      var i := LastIndex(tracks, p.pid);
      if i == -1 then (es, None)
      else
        var (s, unit) := Handle(es[i], p, maxAu);
        (es[i := s], if unit == None then None else Some(TrackUnit(tracks[i], unit.value)))
  }

  function DemuxAll(tracks: seq<Track>, es: seq<Es>, maxAu: nat, pkts: seq<seq<byte>>): (r: (seq<Es>, seq<TrackUnit>))
    requires |es| == |tracks|
    ensures |r.0| == |tracks|
    decreases |pkts|
  {
    if pkts == [] then (es, [])
    else
      var (next, unit) := Demux(tracks, es, maxAu, pkts[0]);
      var (end, rest) := DemuxAll(tracks, next, maxAu, pkts[1..]);
      (end, (if unit.Some? then [unit.value] else []) + rest)
  }

  /** What is still being accumulated when the input ends, stream by stream from `i` on. */
  function Flush(tracks: seq<Track>, es: seq<Es>, i: nat): seq<TrackUnit>
    requires |es| == |tracks| && i <= |es|
    decreases |es| - i
  {
    if i == |es| then []
    else
      var unit := Finish(es[i]).1;
      (if unit.Some? then [TrackUnit(tracks[i], unit.value)] else []) + Flush(tracks, es, i + 1)
  }

  /** Everything a reader returns from `pkts` on, up to io.EOF. */
  function AllUnits(tracks: seq<Track>, es: seq<Es>, maxAu: nat, pkts: seq<seq<byte>>): seq<TrackUnit>
    requires |es| == |tracks|
  {
    var (end, units) := DemuxAll(tracks, es, maxAu, pkts);
    units + Flush(tracks, end, 0)
  }

  ghost predicate AllTidy(es: seq<Es>, maxAu: nat) {
    forall i :: 0 <= i < |es| ==> Tidy(es[i], maxAu)
  }

  lemma UsableBounded(pkt: seq<byte>)
    requires |pkt| == PACKET_SIZE && Usable(pkt).Some?
    ensures Usable(pkt).value.cc < 16 && |Usable(pkt).value.payload| <= PAYLOAD_SIZE
  {
    hide ParseHeader, ParseAdaptation;
  }

  /** On any input whatever, a stream that does not collect holds nothing, and none holds more
      than the size limit or the payload of one packet. */
  lemma {:induction false} StreamsStayTidy(tracks: seq<Track>, es: seq<Es>, maxAu: nat, pkts: seq<seq<byte>>)
    requires |es| == |tracks| && AllTidy(es, maxAu)
    requires forall i :: 0 <= i < |pkts| ==> |pkts[i]| == PACKET_SIZE
    ensures AllTidy(DemuxAll(tracks, es, maxAu, pkts).0, maxAu)
    decreases |pkts|
  {
    hide Usable, Handle, Tidy, LastIndex;
    if pkts != [] {
      var p := Usable(pkts[0]);
      if p.Some? && LastIndex(tracks, p.value.pid) != -1 {
        UsableBounded(pkts[0]);
        HandleTidy(es[LastIndex(tracks, p.value.pid)], p.value, maxAu);
      }
      StreamsStayTidy(tracks, Demux(tracks, es, maxAu, pkts[0]).0, maxAu, pkts[1..]);
    }
  }

  datatype ReturnedUnit = ReturnedUnit(track: Track, unit: Returned)

  /** The stream map leads from each PID to its last stream. */
  ghost predicate IndexedBy(tracks: seq<Track>, order: seq<Stream>, streams: map<uint16, Stream>) {
    && |order| == |tracks|
    && (forall pid :: pid in streams <==> LastIndex(tracks, pid) >= 0)
    && (forall pid :: pid in streams ==> streams[pid] == order[LastIndex(tracks, pid)])
  }

  lemma IndexedAppend(tracks: seq<Track>, order: seq<Stream>, streams: map<uint16, Stream>, track: Track, stream: Stream)
    requires IndexedBy(tracks, order, streams)
    ensures IndexedBy(tracks + [track], order + [stream], streams[track.pid := stream])
  {
    LastIndexAppend(tracks, track);
    hide LastIndex;
  }

  /** A stream and its two buffers are what belongs to stream `i`. */
  ghost predicate OwnedAt(s: Stream, i: nat, owner: map<object, nat>)
    reads s
  {
    && s.Valid()
    && s in owner && s.buf.store in owner && s.out.store in owner
    && owner[s] == owner[s.buf.store] == owner[s.out.store] == i
  }

  class Reader {
    var rest: seq<byte>   // source bytes not read yet
    const pkt: array<byte>
    const maxAuSize: nat
    var pmtPid: uint16
    var tracks: seq<Track>
    var streams: map<uint16, Stream>
    var order: seq<Stream>
    var flushIdx: nat
    var eof: bool
    ghost var es: seq<Es>   // the states of the streams in `order`
    ghost var owner: map<object, nat>   // the stream each object belongs to

    /** Everything the reader owns besides itself. */
    ghost function Repr(): set<object>
      reads this`owner
    {
      owner.Keys + {pkt}
    }

    /** No two streams share an object, and none shares one with the packet buffer. */
    ghost predicate Separate()
      reads this`order, this`owner, order
    {
      this !in owner && pkt !in owner && forall i :: 0 <= i < |order| ==> OwnedAt(order[i], i, owner)
    }

    constructor (src: seq<byte>, max: nat)
      ensures Valid() && fresh(Repr()) && rest == src && maxAuSize == max
      ensures tracks == [] && es == [] && !eof && pmtPid == 0
    {
      rest, maxAuSize := src, max;
      pkt := new byte[PACKET_SIZE](_ => 0);
      pmtPid, tracks, streams, order := 0, [], map[], [];
      flushIdx, eof, es, owner := 0, false, [], map[];
    }

    /** readPAT. */
    method ReadPat(section: seq<byte>) returns (have: bool)
      requires Valid()
      modifies this`pmtPid
      ensures Valid()
      ensures have == PmtPidIn(section).Some?
      ensures pmtPid == if have then PmtPidIn(section).value else old(pmtPid)
    {
      hide Psi.ParseSectionBytes, Psi.PatPrograms, IndexedBy;
      var parsed := Psi.ParseSectionBytes(section);
      if parsed.Err? {
        return false;
      }
      var programs := Psi.ParsePat(parsed.value);
      if programs.Err? || |programs.value| == 0 {
        return false;
      }
      pmtPid := programs.value[0].pmtPid;
      have := true;
    }

    /** Adds a stream for a track; a PID announced twice belongs to the later one. */
    method AddStream(track: Track)
      requires Valid()
      modifies this`tracks, this`streams, this`order, this`es, this`owner
      ensures Valid() && fresh(Repr() - old(Repr()))
      ensures tracks == old(tracks) + [track] && es == old(es) + [NEW_ES]
    {
      hide LastIndex, IndexedBy, AllUnits, Flush, Valid, Separate, Packets, Contents;
      var stream := new Stream();
      ValidParts();
      Attach(stream);
      IndexedAppend(tracks, order, streams, track, stream);
      tracks := tracks + [track];
      streams := streams[track.pid := stream];
      order := order + [stream];
      es := es + [NEW_ES];
      ValidFrom();
    }

    lemma ValidParts()
      requires Valid()
      ensures Separate() && forall i :: 0 <= i < |order| ==> es[i] == order[i].State()
    {
      hide IndexedBy, OwnedAt;
    }

    lemma ValidFrom()
      requires pkt.Length == PACKET_SIZE && IndexedBy(tracks, order, streams) && this !in owner && pkt !in owner
      requires flushIdx <= |order| && (eof || flushIdx == 0) && |es| == |order|
      requires forall i :: 0 <= i < |order| ==> OwnedAt(order[i], i, owner) && es[i] == order[i].State()
      ensures Valid()
    {
      hide IndexedBy, OwnedAt;
    }

    ghost method Attach(stream: Stream)
      requires Valid() && stream.Valid()
      requires stream !in Repr() && stream.buf.store !in Repr() && stream.out.store !in Repr()
      modifies this`owner
      ensures forall o :: o in old(owner) ==> o in owner && owner[o] == old(owner)[o]
      ensures owner.Keys == old(owner.Keys) + {stream, stream.buf.store, stream.out.store}
      ensures OwnedAt(stream, |order|, owner) && this !in owner && pkt !in owner
      ensures forall i :: 0 <= i < |order| ==> OwnedAt(order[i], i, owner)
    {
      hide IndexedBy;
      assert forall i :: 0 <= i < |order| ==> OwnedAt(order[i], i, owner);
      owner := owner[stream := |order|][stream.buf.store := |order|][stream.out.store := |order|];
    }

    /** readPMT: true once a table has been read, whatever tracks it holds. */
    method ReadPmt(section: seq<byte>) returns (complete: bool)
      requires Valid() && tracks == []
      modifies this`tracks, this`streams, this`order, this`es, this`owner
      ensures Valid() && fresh(Repr() - old(Repr()))
      ensures complete == TracksIn(section).Some? && (!complete ==> owner == old(owner))
      ensures tracks == (if complete then TracksIn(section).value else []) && es == NewStreams(|tracks|)
    {
      hide Psi.ParseSectionBytes, Psi.PmtTable, TracksOf, Valid;
      var parsed := Psi.ParseSectionBytes(section);
      if parsed.Err? {
        return false;
      }
      var table := Psi.ParsePmt(parsed.value);
      if table.Err? {
        return false;
      }
      var all := table.value.streams;
      assert all[0..] == all;
      for i := 0 to |all|
        invariant Valid() && fresh(Repr() - old(Repr())) && es == NewStreams(|tracks|)
        invariant tracks + TracksOf(all[i..]) == TracksOf(all)
      {
        TracksUnfold(all[i..]);
        assert all[i..][1..] == all[i + 1..];
        var codec := CodecOf(all[i].streamType);
        if codec == None {
          continue;
        }
        ConcatAssoc(tracks, [Track(all[i].pid, codec.value)], TracksOf(all[i + 1..]));
        AddStream(Track(all[i].pid, codec.value));
      }
      TracksUnfold(all[|all|..]);
      assert tracks + [] == tracks;
      complete := true;
    }

    /** One packet of readTables. */
    method SearchPacket(havePat: bool, patAsm: Psi.SectionAssembler, pmtAsm: Psi.SectionAssembler)
      returns (have: bool, complete: bool)
      requires Valid() && tracks == [] && es == [] && patAsm != pmtAsm
      requires patAsm !in Repr() && pmtAsm !in Repr()
      modifies this`pmtPid, this`tracks, this`streams, this`order, this`es, this`owner, patAsm, pmtAsm
      ensures Valid() && fresh(Repr() - old(Repr()))
      ensures var (next, found) := SearchStep(old(Search(havePat, pmtPid, patAsm.State(), pmtAsm.State())), pkt[..]);
              && complete == found.Some?
              && tracks == (if complete then found.value else []) && es == NewStreams(|tracks|)
              && (!complete ==> owner == old(owner))
              && (!complete ==> next == Search(have, pmtPid, patAsm.State(), pmtAsm.State()))
    {
      hide Opened, PmtPidIn, TracksIn, Psi.Feed, Valid, SearchStep, IndexedBy, LastIndex;
      SearchStepIs(Search(havePat, pmtPid, patAsm.State(), pmtAsm.State()), pkt[..]);
      have, complete := havePat, false;
      var packet := Opened(pkt[..]);
      if packet == None {
        return;
      }
      var h, payload := packet.value.header, packet.value.payload;
      if h.pid == 0 && !havePat {
        var section := patAsm.FeedPayload(h.payloadUnitStart, payload);
        if section.Some? {
          have := ReadPat(section.value);
        }
      } else if havePat && h.pid == pmtPid {
        var section := pmtAsm.FeedPayload(h.payloadUnitStart, payload);
        if section.Some? {
          complete := ReadPmt(section.value);
        }
      }
    }

    /** readTables: reads packets until a program map table has been found. */
    method ReadTables() returns (err: Option<Error>)
      requires Valid() && tracks == [] && es == [] && !eof && pmtPid == 0
      modifies this, pkt
      ensures Valid() && fresh(Repr() - old(Repr()))
      ensures FindTracks(NEW_SEARCH, Packets(old(rest))).Err? ==>
                err == Some(FindTracks(NEW_SEARCH, Packets(old(rest))).error)
      ensures FindTracks(NEW_SEARCH, Packets(old(rest))).Ok? ==>
                && err == None && !eof
                && (tracks, Packets(rest)) == FindTracks(NEW_SEARCH, Packets(old(rest))).value
                && es == NewStreams(|tracks|)
    {
      hide Packets, Valid, SearchStep, FindTracks, IndexedBy, LastIndex;
      var havePat, complete := false, false;
      var patAsm := new Psi.SectionAssembler();
      var pmtAsm := new Psi.SectionAssembler();
      while true
        invariant Valid() && tracks == [] && es == [] && !eof && owner == old(owner)
        invariant patAsm !in Repr() && pmtAsm !in Repr() && fresh(patAsm) && fresh(pmtAsm) && patAsm != pmtAsm
        invariant FindTracks(Search(havePat, pmtPid, patAsm.State(), pmtAsm.State()), Packets(rest)) ==
                  FindTracks(NEW_SEARCH, Packets(old(rest)))
        decreases |rest|
      {
        PacketsUnfold(rest);
        FindTracksUnfold(Search(havePat, pmtPid, patAsm.State(), pmtAsm.State()), Packets(rest));
        var ok := ReadPacket();
        if !ok {
          return Some(NoUsableProgram);
        }
        havePat, complete := SearchPacket(havePat, patAsm, pmtAsm);
        if complete {
          return if tracks == [] then Some(NoUsableProgram) else None;
        }
      }
    }

    ghost predicate Valid()
      reads this, order, Repr()
      ensures Valid() ==>
                && this !in Repr() && IndexedBy(tracks, order, streams)
                && pkt.Length == PACKET_SIZE && |es| == |order| == |tracks|
                && flushIdx <= |order| && (eof || flushIdx == 0)
                && forall pid :: pid in streams <==> LastIndex(tracks, pid) >= 0
    {
      && pkt.Length == PACKET_SIZE && IndexedBy(tracks, order, streams) && Separate()
      && flushIdx <= |order| && (eof || flushIdx == 0)
      && |es| == |order| && forall i :: 0 <= i < |order| ==> es[i] == order[i].State()
    }

    /** The units this reader still has to return. */
    ghost function Pending(): seq<TrackUnit>
      requires |es| == |tracks| && flushIdx <= |es|
      reads this
    {
      if eof then Flush(tracks, es, flushIdx) else AllUnits(tracks, es, maxAuSize, Packets(rest))
    }

    method ReadPacket() returns (ok: bool)
      requires Valid()
      modifies this`rest, pkt
      ensures Valid()
      ensures ok <==> |old(rest)| >= PACKET_SIZE
      ensures ok ==> pkt[..] == old(rest)[..PACKET_SIZE] && rest == old(rest)[PACKET_SIZE..]
      ensures !ok ==> rest == []
    {
      hide LastIndex, AllUnits, Flush, IndexedBy;
      if |rest| < PACKET_SIZE {
        rest := [];
        return false;
      }
      forall i | 0 <= i < PACKET_SIZE {
        pkt[i] := rest[i];
      }
      rest := rest[PACKET_SIZE..];
      ok := true;
    }

    /** One stream of `order` takes one packet. */
    method HandleOne(i: nat, p: EsPacket) returns (unit: Option<Returned>)
      requires i < |order| && OwnedAt(order[i], i, owner)
      modifies this`owner, order[i], order[i].buf.store, order[i].out.store
      ensures OwnedAt(order[i], i, owner) && fresh(owner.Keys - old(owner.Keys)) && old(owner.Keys) <= owner.Keys
      ensures forall o :: o in old(owner) ==> owner[o] == old(owner)[o]
      ensures order[i].State() == Handle(old(order[i].State()), p, maxAuSize).0
      ensures unit.Some? <==> Handle(old(order[i].State()), p, maxAuSize).1.Some?
      ensures unit.Some? ==> Shows(unit.value, Handle(old(order[i].State()), p, maxAuSize).1.value)
    {
      hide Handle;
      unit := order[i].HandlePacket(p, maxAuSize);
      owner := owner[order[i].buf.store := i][order[i].out.store := i];
    }

    /** handleES: all other streams stay as they are. */
    method HandleEs(i: nat, p: EsPacket) returns (unit: Option<Returned>)
      requires Valid() && i < |order|
      modifies this`es, this`owner, Repr()
      ensures Valid() && fresh(Repr() - old(Repr()))
      ensures es == old(es)[i := Handle(old(es)[i], p, maxAuSize).0]
      ensures unit.Some? <==> Handle(old(es)[i], p, maxAuSize).1.Some?
      ensures unit.Some? ==> Shows(unit.value, Handle(old(es)[i], p, maxAuSize).1.value)
    {
      hide Handle, IndexedBy, AllUnits, Flush, LastIndex;
      unit := HandleOne(i, p);
      es := es[i := Handle(es[i], p, maxAuSize).0];
      forall j | 0 <= j < |order| && j != i
        ensures OwnedAt(order[j], j, owner) && order[j].State() == old(order[j].State())
      {
        assert old(OwnedAt(order[j], j, owner));
      }
    }

    /** Skips unusable packets and those of no stream. */
    method HandlePacket() returns (unit: Option<ReturnedUnit>)
      requires Valid()
      modifies this`es, this`owner, Repr()
      ensures Valid() && fresh(Repr() - old(Repr()))
      ensures es == Demux(tracks, old(es), maxAuSize, old(pkt[..])).0
      ensures unit.Some? <==> Demux(tracks, old(es), maxAuSize, old(pkt[..])).1.Some?
      ensures unit.Some? ==> ShowsUnit(unit.value, Demux(tracks, old(es), maxAuSize, old(pkt[..])).1.value)
    {
      hide Handle, Usable, Valid, Separate, IndexedBy, LastIndex;
      var p := Usable(pkt[..]);
      if p == None || p.value.pid !in streams {
        return None;
      }
      var i := LastIndex(tracks, p.value.pid);
      var returned := HandleEs(i, p.value);
      unit := if returned == None then None else Some(ReturnedUnit(tracks[i], returned.value));
    }

    method FinishStream(i: nat) returns (unit: Option<Returned>)
      requires Valid() && i < |order|
      modifies this`es, this`owner, Repr()
      ensures Valid() && fresh(Repr() - old(Repr()))
      ensures es == old(es)[i := Finish(old(es)[i]).0]
      ensures unit.Some? <==> Finish(old(es)[i]).1.Some?
      ensures unit.Some? ==> Shows(unit.value, Finish(old(es)[i]).1.value)
    {
      hide Finish, IndexedBy, AllUnits, Flush;
      unit := order[i].FinishUnit();
      es := es[i := Finish(es[i]).0];
      assert OwnedAt(order[i], i, owner);
      forall j | 0 <= j < |order| && j != i
        ensures OwnedAt(order[j], j, owner) && order[j].State() == old(order[j].State())
      {
        assert old(OwnedAt(order[j], j, owner));
      }
    }

    /** The next unit of the stream, or None for io.EOF. */
    method NextAccessUnit() returns (unit: Option<ReturnedUnit>)
      requires Valid()
      modifies this, Repr()
      ensures Valid() && fresh(Repr() - old(Repr()))
      ensures tracks == old(tracks)
      ensures unit == None <==> old(Pending()) == []
      ensures unit == None ==> Pending() == []
      ensures unit.Some? ==> ShowsUnit(unit.value, old(Pending())[0]) && Pending() == old(Pending())[1..]
    {
      hide Demux, DemuxAll, AllUnits, Flush, Packets, Finish, Separate, IndexedBy, OwnedAt, Valid, Pending, LastIndex;
      while true
        invariant Valid() && fresh(Repr() - old(Repr())) && tracks == old(tracks)
        invariant Pending() == old(Pending())
        decreases !eof, |rest|
      {
        if eof {
          unit := FlushNext();
          return;
        }
        PacketsUnfold(rest);
        AllUnitsUnfold(tracks, es, maxAuSize, Packets(rest));
        PendingIs();
        var ok := ReadPacket();
        if !ok {
          MarkEof();
          continue;
        }
        unit := HandlePacket();
        PendingIs();
        if unit.Some? {
          return;
        }
      }
    }

    lemma PendingIs()
      requires |es| == |tracks| && flushIdx <= |es|
      ensures Pending() == if eof then Flush(tracks, es, flushIdx) else AllUnits(tracks, es, maxAuSize, Packets(rest))
    {}

    method MarkEof()
      requires Valid() && !eof
      modifies this`eof
      ensures Valid() && Repr() == old(Repr()) && eof && Pending() == Flush(tracks, es, 0)
    {
      hide LastIndex, AllUnits, Flush, IndexedBy;
      eof := true;
    }

    /** The flushing loop at the end of the input. */
    method FlushNext() returns (unit: Option<ReturnedUnit>)
      requires Valid() && eof
      modifies this`es, this`flushIdx, this`owner, Repr()
      ensures Valid() && fresh(Repr() - old(Repr()))
      ensures unit == None <==> old(Pending()) == []
      ensures unit == None ==> Pending() == []
      ensures unit.Some? ==> ShowsUnit(unit.value, old(Pending())[0]) && Pending() == old(Pending())[1..]
    {
      hide Flush, Finish, Separate, IndexedBy, OwnedAt, LastIndex, AllUnits, Packets;
      while flushIdx < |order|
        invariant Valid() && fresh(Repr() - old(Repr()))
        invariant Pending() == old(Pending())
      {
        var i := flushIdx;
        FlushUnfolds(tracks, es, i, Finish(es[i]).0);
        flushIdx := flushIdx + 1;
        var returned := FinishStream(i);
        if returned.Some? {
          return Some(ReturnedUnit(tracks[i], returned.value));
        }
      }
      FlushEnds(tracks, es);
      unit := None;
    }
  }

  lemma FindTracksUnfold(st: Search, pkts: seq<seq<byte>>)
    ensures pkts == [] ==> FindTracks(st, pkts) == Err(NoUsableProgram)
    ensures pkts != [] ==>
              var (next, tracks) := SearchStep(st, pkts[0]);
              FindTracks(st, pkts) ==
              if tracks == None then FindTracks(next, pkts[1..])
              else if tracks.value == [] then Err(NoUsableProgram)
              else Ok((tracks.value, pkts[1..]))
  {}

  lemma SearchStepIs(st: Search, pkt: seq<byte>)
    ensures Opened(pkt) == None ==> SearchStep(st, pkt) == (st, None)
    ensures Opened(pkt).Some? ==>
              var p := Opened(pkt).value;
              var pat := Psi.Feed(st.pat, p.header.payloadUnitStart, p.payload);
              var pmt := Psi.Feed(st.pmt, p.header.payloadUnitStart, p.payload);
              if p.header.pid == 0 && !st.havePat then
                SearchStep(st, pkt) ==
                (if pat.1 == None || PmtPidIn(pat.1.value) == None then st.(pat := pat.0)
                 else Search(true, PmtPidIn(pat.1.value).value, pat.0, st.pmt), None)
              else if st.havePat && p.header.pid == st.pmtPid then
                SearchStep(st, pkt) == (st.(pmt := pmt.0), if pmt.1 == None then None else TracksIn(pmt.1.value))
              else SearchStep(st, pkt) == (st, None)
  {}

  lemma LastIndexAppend(tracks: seq<Track>, track: Track)
    ensures forall pid :: LastIndex(tracks + [track], pid) == if pid == track.pid then |tracks| else LastIndex(tracks, pid)
  {
    assert (tracks + [track])[..|tracks|] == tracks;
  }

  lemma TracksUnfold(streams: seq<Psi.PmtStream>)
    ensures streams == [] ==> TracksOf(streams) == []
    ensures streams != [] ==>
              var codec := CodecOf(streams[0].streamType);
              TracksOf(streams) ==
              (if codec.Some? then [Track(streams[0].pid, codec.value)] else []) + TracksOf(streams[1..])
  {}

  lemma PacketsUnfold(src: seq<byte>)
    ensures Packets(src) == if |src| < PACKET_SIZE then [] else [src[..PACKET_SIZE]] + Packets(src[PACKET_SIZE..])
  {}

  lemma FlushEnds(tracks: seq<Track>, es: seq<Es>)
    requires |es| == |tracks|
    ensures Flush(tracks, es, |es|) == []
  {}

  lemma FlushUnfolds(tracks: seq<Track>, es: seq<Es>, i: nat, s: Es)
    requires |es| == |tracks| && i < |es|
    ensures Flush(tracks, es, i) ==
            (if Finish(es[i]).1.Some? then [TrackUnit(tracks[i], Finish(es[i]).1.value)] else []) +
            Flush(tracks, es[i := s], i + 1)
  {
    FlushLater(tracks, es, i, s, i + 1);
  }

  lemma {:induction false} FlushLater(tracks: seq<Track>, es: seq<Es>, i: nat, s: Es, from: nat)
    requires |es| == |tracks| && i < from <= |es|
    ensures Flush(tracks, es[i := s], from) == Flush(tracks, es, from)
    decreases |es| - from
  {
    if from < |es| {
      FlushLater(tracks, es, i, s, from + 1);
    }
  }

  lemma AllUnitsUnfold(tracks: seq<Track>, es: seq<Es>, maxAu: nat, pkts: seq<seq<byte>>)
    requires |es| == |tracks|
    ensures pkts == [] ==> AllUnits(tracks, es, maxAu, pkts) == Flush(tracks, es, 0)
    ensures pkts != [] ==>
              var (next, unit) := Demux(tracks, es, maxAu, pkts[0]);
              AllUnits(tracks, es, maxAu, pkts) ==
              (if unit.Some? then [unit.value] else []) + AllUnits(tracks, next, maxAu, pkts[1..])
  {
    hide Demux, Flush;
    if pkts != [] {
      var (next, unit) := Demux(tracks, es, maxAu, pkts[0]);
      var (end, rest) := DemuxAll(tracks, next, maxAu, pkts[1..]);
      ConcatAssoc(if unit.Some? then [unit.value] else [], rest, Flush(tracks, end, 0));
    }
  }

  /** NewReader: `maxAuSize` is the value of the option, if it is given. */
  method NewReader(src: seq<byte>, maxAuSize: Option<int>) returns (r: Result<Reader, Error>)
    ensures maxAuSize.Some? && maxAuSize.value <= 0 ==> r == Err(InvalidMaxAuSize)
    ensures (maxAuSize.Some? && maxAuSize.value <= 0) ||
            match FindTracks(NEW_SEARCH, Packets(src))
            case Err(e) => r == Err(e)
            case Ok((tracks, pkts)) =>
              && r.Ok? && fresh(r.value) && fresh(r.value.Repr()) && r.value.Valid()
              && r.value.tracks == tracks
              && r.value.Pending() ==
                 AllUnits(tracks, NewStreams(|tracks|),
                          if maxAuSize.Some? then maxAuSize.value else DEFAULT_MAX_AU, pkts)
  {
    hide FindTracks, Packets, AllUnits;
    if maxAuSize.Some? && maxAuSize.value <= 0 {
      return Err(InvalidMaxAuSize);
    }
    var reader := new Reader(src, if maxAuSize.Some? then maxAuSize.value else DEFAULT_MAX_AU);
    var err := reader.ReadTables();
    if err.Some? {
      return Err(err.value);
    }
    r := Ok(reader);
  }

  /** A returned unit, read through its buffer. */
  ghost predicate ShowsUnit(r: ReturnedUnit, u: TrackUnit)
    reads r.unit.data.store
  {
    r.track == u.track && Shows(r.unit, u.unit)
  }
}
