/** mpegts/psi.go, pat.go and pmt.go: program specific information sections, their reassembly
    from packet payloads, and the two tables carried in them (section 2.4.4 of ISO/IEC 13818-1).
    Bits that a byte is put together from never overlap unless a comment says so, and the
    source's `|` is then written `+`. */
module Psi {
  import opened Bits
  import opened Bytes
  import Crc32

  datatype Error = SectionTruncated | SectionCrc | SectionMultipart | SectionTooLong | NotPat | NotPmt | PmtTruncated

  datatype Section = Section(tableId: byte, extension: uint16, version: byte, data: seq<byte>)

  function Uint16(high: byte, low: byte): uint16 {
    high as int * 256 + low as int
  }

  /** Twelve bits: the low four of one byte and all of the next. */
  function Length12(high: byte, low: byte): nat {
    (high % 16) as int * 256 + low as int
  }

  function Pid(high: byte, low: byte): uint16 {
    (high % 32) as int * 256 + low as int
  }

  function ParseSectionBytes(buf: seq<byte>): Result<Section, Error> {
    if |buf| < 8 then Err(SectionTruncated)
    else
      var length := Length12(buf[1], buf[2]);
      if length < 9 || 3 + length > |buf| then Err(SectionTruncated)
      else if buf[6] != 0 || buf[7] != 0 then Err(SectionMultipart)
      else
        var end := 3 + length;
        if Crc32.Mpeg(buf[..end - 4]) != Crc32.Pack(buf[end - 4..end]) then Err(SectionCrc)
        else Ok(Section(buf[0], Uint16(buf[3], buf[4]), buf[5] / 2 % 32, buf[8..end - 4]))
  }

  /** parsePSISection: a section behind its pointer_field. */
  function ParsePsiSection(payload: seq<byte>): Result<Section, Error> {
    if |payload| < 1 then Err(SectionTruncated)
    else
      var skip := 1 + payload[0] as nat;
      if |payload| < skip then Err(SectionTruncated) else ParseSectionBytes(payload[skip..])
  }

  /** Everything but the CRC, from table_id on. 0xC1 already sets the bits above the version. */
  function SectionBody(s: Section): (body: seq<byte>)
    requires 9 + |s.data| <= 0x3FD
    ensures |body| == 8 + |s.data|
  {
    var length := 9 + |s.data|;
    [s.tableId, 0xB0 + (length / 256) as byte, (length % 256) as byte,
     (s.extension / 256) as byte, (s.extension % 256) as byte,
     0xC1 + s.version % 32 * 2, 0, 0] + s.data
  }

  /** From table_id to the CRC. */
  function SectionBytes(s: Section): (bytes: seq<byte>)
    requires 9 + |s.data| <= 0x3FD
    ensures |bytes| == 12 + |s.data|
  {
    SectionBody(s) + Crc32.CrcBytes(Crc32.Mpeg(SectionBody(s)))
  }

  /** marshal: the pointer_field comes first. */
  function Marshal(s: Section): Result<seq<byte>, Error> {
    if 9 + |s.data| > 0x3FD then Err(SectionTooLong) else Ok([0] + SectionBytes(s))
  }

  /** A section marshaled and followed by anything parses back. */
  lemma SectionRoundTrip(s: Section, rest: seq<byte>)
    requires 9 + |s.data| <= 0x3FD && s.version < 32
    ensures ParseSectionBytes(SectionBytes(s) + rest) == Ok(s)
    ensures Announced(SectionBytes(s)) && |SectionBytes(s)| <= 0x400
  {
    hide Crc32.CrcBytes, Crc32.Mpeg, Crc32.Pack;
    var body, crc := SectionBody(s), Crc32.Mpeg(SectionBody(s));
    var buf, end := SectionBytes(s) + rest, |SectionBytes(s)|;
    Crc32.CrcBytesPack(crc);
    assert buf[..end - 4] == body;
    assert buf[end - 4..end] == Crc32.CrcBytes(crc);
    assert buf[8..end - 4] == s.data;
    assert (0xC1 + s.version * 2) / 2 % 32 == s.version;
  }

  /** What the marshaler writes, pointer_field included, parses back. */
  lemma MarshalRoundTrip(s: Section, rest: seq<byte>)
    requires Marshal(s).Ok? && s.version < 32
    ensures ParsePsiSection(Marshal(s).value + rest) == Ok(s)
  {
    hide SectionBytes, ParseSectionBytes;
    SectionRoundTrip(s, rest);
    assert (Marshal(s).value + rest)[1..] == SectionBytes(s) + rest;
  }

  /** Where the fixed fields are in order, the CRC comparison succeeds exactly when the register,
      run over the section with its CRC, ends at zero. */
  lemma CheckIsZeroResidue(buf: seq<byte>)
    requires |buf| >= 8 && 9 <= Length12(buf[1], buf[2]) <= |buf| - 3 && buf[6] == buf[7] == 0
    ensures ParseSectionBytes(buf).Ok? <==>
            Crc32.Register(Crc32.MPEG_SEED, buf[..3 + Length12(buf[1], buf[2])]) == 0
  {
    hide *;
    var end := 3 + Length12(buf[1], buf[2]);
    CrcComparison(buf);
    Crc32.ZeroResidue(Crc32.MPEG_SEED, buf[..end - 4], buf[end - 4..end]);
    assert buf[..end] == buf[..end - 4] + buf[end - 4..end];
  }

  lemma CrcComparison(buf: seq<byte>)
    requires |buf| >= 8 && 9 <= Length12(buf[1], buf[2]) <= |buf| - 3 && buf[6] == buf[7] == 0
    ensures var end := 3 + Length12(buf[1], buf[2]);
            ParseSectionBytes(buf).Ok? <==>
            Crc32.Pack(buf[end - 4..end]) == Crc32.Register(Crc32.MPEG_SEED, buf[..end - 4])
  {
    hide Crc32.Pack, Crc32.Register;
  }

  lemma FixedFields(buf: seq<byte>)
    requires ParseSectionBytes(buf).Ok?
    ensures |buf| >= 8 && 9 <= Length12(buf[1], buf[2]) <= |buf| - 3 && buf[6] == buf[7] == 0
  {}

  /** Damage confined to four consecutive bytes behind the length field is always noticed. */
  lemma DamageDetected(before: seq<byte>, v: seq<byte>, w: seq<byte>, after: seq<byte>)
    requires |v| == |w| <= 4 && v != w && |before| >= 3
    requires ParseSectionBytes(before + v + after).Ok?
    requires |before + v + after| == 3 + Length12(before[1], before[2])
    ensures ParseSectionBytes(before + w + after).Err?
  {
    hide *;
    var good, bad := before + v + after, before + w + after;
    assert good[1] == bad[1] == before[1] && good[2] == bad[2] == before[2];
    Crc32.BurstDetected(Crc32.MPEG_SEED, before, v, w, after);
    assert good[..|good|] == good && bad[..|bad|] == bad;
    FixedFields(good);
    CheckIsZeroResidue(good);
    if ParseSectionBytes(bad).Ok? {
      FixedFields(bad);
      CheckIsZeroResidue(bad);
    }
  }

  // Reassembly.

  datatype Assembly = Assembly(buf: seq<byte>, active: bool)

  /** One payload into the assembler: the new state, and the section if it is now complete. */
  function Feed(a: Assembly, unitStart: bool, payload: seq<byte>): (r: (Assembly, Option<seq<byte>>))
    requires unitStart ==> payload != []
  {
    if unitStart then
      var skip := 1 + payload[0] as nat;
      if skip > |payload| then (a.(active := false), None) else Collect(payload[skip..])
    else if !a.active then (a, None)
    else Collect(a.buf + payload)
  }

  function Collect(buf: seq<byte>): (Assembly, Option<seq<byte>>) {
    if |buf| < 3 then (Assembly(buf, true), None)
    else
      var total := 3 + Length12(buf[1], buf[2]);
      if |buf| < total then (Assembly(buf, true), None) else (Assembly(buf, false), Some(buf[..total]))
  }

  class SectionAssembler {
    var buf: seq<byte>
    var active: bool

    constructor ()
      ensures State() == Assembly([], false)
    {
      buf, active := [], false;
    }

    function State(): Assembly
      reads this
    {
      Assembly(buf, active)
    }

    method FeedPayload(unitStart: bool, payload: seq<byte>) returns (section: Option<seq<byte>>)
      requires unitStart ==> payload != []
      modifies this
      ensures (State(), section) == Feed(old(State()), unitStart, payload)
      ensures old(Bounded(State())) ==> Bounded(State())
    {
      if unitStart {
        active := false;
        var skip := 1 + payload[0] as nat;
        if skip > |payload| {
          return None;
        }
        buf := payload[skip..];
        active := true;
      } else {
        if !active {
          return None;
        }
        buf := buf + payload;
      }
      if |buf| < 3 {
        return None;
      }
      var total := 3 + Length12(buf[1], buf[2]);
      if |buf| < total {
        return None;
      }
      active := false;
      section := Some(buf[..total]);
    }
  }

  predicate Bounded(a: Assembly) {
    a.active ==> |a.buf| < 4098
  }

  /** Memory stays bounded on every input. */
  lemma FeedBounded(a: Assembly, unitStart: bool, payload: seq<byte>)
    requires Bounded(a) && (unitStart ==> payload != [])
    ensures Bounded(Feed(a, unitStart, payload).0)
  {}

  /** A byte string that is exactly as long as its own length field says. */
  predicate Announced(section: seq<byte>) {
    |section| >= 3 && |section| == 3 + Length12(section[1], section[2])
  }

  /** What the assembler returns for the payloads of one unit and those after it. */
  function FeedRest(a: Assembly, payloads: seq<seq<byte>>): (results: seq<Option<seq<byte>>>)
    ensures |results| == |payloads|
    decreases |payloads|
  {
    if payloads == [] then []
    else
      var (next, r) := Feed(a, false, payloads[0]);
      [r] + FeedRest(next, payloads[1..])
  }

  function FeedUnit(a: Assembly, payloads: seq<seq<byte>>): (results: seq<Option<seq<byte>>>)
    requires payloads != [] && payloads[0] != []
    ensures |results| == |payloads|
  {
    var (next, r) := Feed(a, true, payloads[0]);
    [r] + FeedRest(next, payloads[1..])
  }

  /** Nothing until the payload that brings the last byte, then the section, then nothing. */
  ghost predicate Delivers(section: seq<byte>, have: int, payloads: seq<seq<byte>>, results: seq<Option<seq<byte>>>)
    requires |results| == |payloads|
  {
    forall i :: 0 <= i < |payloads| ==>
      results[i] == if have + |Flatten(payloads[..i])| < |section| <= have + |Flatten(payloads[..i + 1])|
                    then Some(section) else None
  }

  lemma CollectPrefix(section: seq<byte>, pad: seq<byte>, buf: seq<byte>)
    requires Announced(section) && buf <= section + pad
    ensures Collect(buf) ==
            if |buf| < |section| then (Assembly(buf, true), None) else (Assembly(buf, false), Some(section))
  {
    assert |buf| >= 3 ==> buf[1] == section[1] && buf[2] == section[2];
    assert |buf| >= |section| ==> buf[..|section|] == section;
  }

  lemma {:induction false} RestSplitIndependent(section: seq<byte>, pad: seq<byte>, a: Assembly, payloads: seq<seq<byte>>)
    requires Announced(section) && a.active == (|a.buf| < |section|)
    requires a.buf + Flatten(payloads) == section + pad
    ensures Delivers(section, |a.buf|, payloads, FeedRest(a, payloads))
    decreases |payloads|
  {
    if payloads != [] {
      var (next, r) := Feed(a, false, payloads[0]);
      var rest := payloads[1..];
      if a.active {
        ConcatAssoc(a.buf, payloads[0], Flatten(rest));
        CollectPrefix(section, pad, a.buf + payloads[0]);
        RestSplitIndependent(section, pad, next, rest);
        RestDelivers(section, |a.buf|, payloads, FeedRest(a, payloads));
      } else {
        InactiveSilent(a, payloads);
      }
    }
  }

  lemma RestDelivers(section: seq<byte>, have: int, payloads: seq<seq<byte>>, results: seq<Option<seq<byte>>>)
    requires payloads != [] && |results| == |payloads|
    requires results[0] == if have < |section| <= have + |payloads[0]| then Some(section) else None
    requires Delivers(section, have + |payloads[0]|, payloads[1..], results[1..])
    ensures Delivers(section, have, payloads, results)
  {
    assert payloads[..1] == [payloads[0]];
    assert Flatten(payloads[..1]) == payloads[0] + Flatten([]) == payloads[0];
    forall i | 0 <= i < |payloads|
      ensures results[i] == if have + |Flatten(payloads[..i])| < |section| <= have + |Flatten(payloads[..i + 1])|
                            then Some(section) else None
    {
      if i > 0 {
        assert payloads[..i] == [payloads[0]] + payloads[1..][..i - 1];
        assert payloads[..i + 1] == [payloads[0]] + payloads[1..][..i];
        assert results[i] == results[1..][i - 1];
      }
    }
  }

  lemma {:induction false} InactiveSilent(a: Assembly, payloads: seq<seq<byte>>)
    requires !a.active
    ensures forall i :: 0 <= i < |payloads| ==> FeedRest(a, payloads)[i] == None
  {
    if payloads != [] {
      InactiveSilent(a, payloads[1..]);
    }
  }

  /** However a section behind a zero pointer_field is cut into payloads and padded, and whatever
      the assembler held before, the section comes out once, with its last byte. */
  lemma SplitIndependent(a: Assembly, section: seq<byte>, pad: seq<byte>, payloads: seq<seq<byte>>)
    requires Announced(section) && payloads != [] && payloads[0] != []
    requires Flatten(payloads) == [0] + section + pad
    ensures Delivers(section, -1, payloads, FeedUnit(a, payloads))
  {
    var first, rest := payloads[0], payloads[1..];
    assert first[0] == Flatten(payloads)[0] == 0;
    assert first[1..] + Flatten(rest) == Flatten(payloads)[1..] == section + pad;
    CollectPrefix(section, pad, first[1..]);
    var (next, r) := Feed(a, true, first);
    RestSplitIndependent(section, pad, next, rest);
    RestDelivers(section, -1, payloads, FeedUnit(a, payloads));
  }

  /** The sections the marshaler builds are of that kind. */
  lemma MarshaledSplitIndependent(a: Assembly, s: Section, pad: seq<byte>, payloads: seq<seq<byte>>)
    requires Marshal(s).Ok? && s.version < 32 && payloads != [] && payloads[0] != []
    requires Flatten(payloads) == Marshal(s).value + pad
    ensures Delivers(SectionBytes(s), -1, payloads, FeedUnit(a, payloads))
    ensures ParseSectionBytes(SectionBytes(s)) == Ok(s)
  {
    hide SectionBytes, Announced, ParseSectionBytes, Feed, FeedUnit, Delivers, Flatten;
    SectionRoundTrip(s, []);
    assert SectionBytes(s) + [] == SectionBytes(s);
    SplitIndependent(a, SectionBytes(s), pad, payloads);
  }

  // The program association table.

  const TABLE_PAT: byte := 0x00

  datatype PatProgram = PatProgram(number: uint16, pmtPid: uint16)

  /** 0xE0 already sets the bits above a 13-bit PID. */
  function PatEntry(p: PatProgram): seq<byte> {
    [(p.number / 256) as byte, (p.number % 256) as byte,
     0xE0 + (p.pmtPid / 256 % 32) as byte, (p.pmtPid % 256) as byte]
  }

  function PatData(programs: seq<PatProgram>): (data: seq<byte>)
    ensures |data| == 4 * |programs|
  {
    if programs == [] then [] else PatEntry(programs[0]) + PatData(programs[1..])
  }

  /** Program number zero announces the network information PID, which is no program. */
  function PatPrograms(data: seq<byte>): seq<PatProgram> {
    if |data| < 4 then []
    else
      var num := Uint16(data[0], data[1]);
      (if num == 0 then [] else [PatProgram(num, Pid(data[2], data[3]))]) + PatPrograms(data[4..])
  }

  method ParsePat(sec: Section) returns (r: Result<seq<PatProgram>, Error>)
    ensures r == if sec.tableId != TABLE_PAT then Err(NotPat) else Ok(PatPrograms(sec.data))
  {
    if sec.tableId != TABLE_PAT {
      return Err(NotPat);
    }
    hide PatPrograms, Uint16, Pid;
    var programs: seq<PatProgram> := [];
    var i := 0;
    assert sec.data[0..] == sec.data;
    while i + 4 <= |sec.data|
      invariant 0 <= i <= |sec.data|
      invariant programs + PatPrograms(sec.data[i..]) == PatPrograms(sec.data)
    {
      PatUnfold(sec.data[i..]);
      var num := Uint16(sec.data[i], sec.data[i + 1]);
      var pid := Pid(sec.data[i + 2], sec.data[i + 3]);
      assert sec.data[i..][4..] == sec.data[i + 4..];
      i := i + 4;
      if num == 0 {
        continue;
      }
      ConcatAssoc(programs, [PatProgram(num, pid)], PatPrograms(sec.data[i..]));
      programs := programs + [PatProgram(num, pid)];
    }
    PatUnfold(sec.data[i..]);
    assert programs + [] == programs;
    r := Ok(programs);
  }

  lemma PatUnfold(data: seq<byte>)
    ensures |data| < 4 ==> PatPrograms(data) == []
    ensures |data| >= 4 && Uint16(data[0], data[1]) == 0 ==> PatPrograms(data) == PatPrograms(data[4..])
    ensures |data| >= 4 && Uint16(data[0], data[1]) != 0 ==>
              PatPrograms(data) ==
              [PatProgram(Uint16(data[0], data[1]), Pid(data[2], data[3]))] + PatPrograms(data[4..])
  {}

  function PatSection(transportStreamId: uint16, programs: seq<PatProgram>): Section {
    Section(TABLE_PAT, transportStreamId, 0, PatData(programs))
  }

  method MarshalPat(transportStreamId: uint16, programs: seq<PatProgram>) returns (r: Result<seq<byte>, Error>)
    ensures r == Marshal(PatSection(transportStreamId, programs))
  {
    hide Marshal, PatEntry;
    var data: seq<byte> := [];
    assert programs[0..] == programs;
    for i := 0 to |programs|
      invariant data + PatData(programs[i..]) == PatData(programs)
    {
      assert programs[i..][1..] == programs[i + 1..];
      ConcatAssoc(data, PatEntry(programs[i]), PatData(programs[i + 1..]));
      data := data + PatEntry(programs[i]);
    }
    assert data + [] == data && PatData(programs[|programs|..]) == [];
    r := Marshal(Section(TABLE_PAT, transportStreamId, 0, data));
  }

  lemma {:induction false} PatRoundTrip(programs: seq<PatProgram>)
    requires forall p :: p in programs ==> p.number != 0 && p.pmtPid < 0x2000
    ensures PatPrograms(PatData(programs)) == programs
  {
    if programs != [] {
      var p, data := programs[0], PatData(programs);
      assert data[4..] == PatData(programs[1..]);
      assert data[..4] == PatEntry(p);
      PatRoundTrip(programs[1..]);
    }
  }

  // The program map table.

  const TABLE_PMT: byte := 0x02

  datatype PmtStream = PmtStream(streamType: byte, pid: uint16)

  datatype Pmt = Pmt(pcrPid: uint16, streams: seq<PmtStream>)

  function PmtEntry(s: PmtStream): seq<byte> {
    [s.streamType, 0xE0 + (s.pid / 256 % 32) as byte, (s.pid % 256) as byte, 0xF0, 0x00]
  }

  function StreamData(streams: seq<PmtStream>): (data: seq<byte>)
    ensures |data| == 5 * |streams|
  {
    if streams == [] then [] else PmtEntry(streams[0]) + StreamData(streams[1..])
  }

  function PmtData(table: Pmt): (data: seq<byte>)
    ensures |data| == 4 + 5 * |table.streams|
  {
    [0xE0 + (table.pcrPid / 256 % 32) as byte, (table.pcrPid % 256) as byte, 0xF0, 0x00] +
    StreamData(table.streams)
  }

  /** The stream loop of a table; descriptors are skipped. */
  function Streams(buf: seq<byte>): Result<seq<PmtStream>, Error> {
    if buf == [] then Ok([])
    else if |buf| < 5 || |buf| < 5 + Length12(buf[3], buf[4]) then Err(PmtTruncated)
    else
      match Streams(buf[5 + Length12(buf[3], buf[4])..])
      case Err(e) => Err(e)
      case Ok(rest) => Ok([PmtStream(buf[0], Pid(buf[1], buf[2]))] + rest)
  }

  function PmtTable(sec: Section): Result<Pmt, Error> {
    if sec.tableId != TABLE_PMT then Err(NotPmt)
    else if |sec.data| < 4 || |sec.data| < 4 + Length12(sec.data[2], sec.data[3]) then Err(PmtTruncated)
    else
      match Streams(sec.data[4 + Length12(sec.data[2], sec.data[3])..])
      case Err(e) => Err(e)
      case Ok(streams) => Ok(Pmt(Pid(sec.data[0], sec.data[1]), streams))
  }

  /** The loop of parsePMT. */
  method ParseStreams(data: seq<byte>) returns (r: Result<seq<PmtStream>, Error>)
    ensures r == Streams(data)
  {
    hide *;
    StreamsNone();
    var buf, streams := data, [];
    ghost var all := Streams(data);
    assert all.Ok? ==> all.value == [] + all.value;
    while |buf| > 0
      invariant all.Err? ==> Streams(buf) == all
      invariant all.Ok? ==> Streams(buf).Ok? && all.value == streams + Streams(buf).value
    {
      StreamsUnfold(buf);
      if |buf| < 5 {
        return Err(PmtTruncated);
      }
      var esInfoLen := Length12(buf[3], buf[4]);
      if |buf| < 5 + esInfoLen {
        return Err(PmtTruncated);
      }
      var stream := PmtStream(buf[0], Pid(buf[1], buf[2]));
      ghost var rest := Streams(buf[5 + esInfoLen..]);
      if rest.Ok? {
        ConcatAssoc(streams, [stream], rest.value);
      }
      streams := streams + [stream];
      buf := buf[5 + esInfoLen..];
    }
    assert buf == [] && streams + [] == streams;
    r := Ok(streams);
  }

  method ParsePmt(sec: Section) returns (r: Result<Pmt, Error>)
    ensures r == PmtTable(sec)
  {
    hide Streams, Pid, Length12;
    if sec.tableId != TABLE_PMT {
      return Err(NotPmt);
    }
    var buf := sec.data;
    if |buf| < 4 {
      return Err(PmtTruncated);
    }
    var pcrPid := Pid(buf[0], buf[1]);
    var infoLen := Length12(buf[2], buf[3]);
    if |buf| < 4 + infoLen {
      return Err(PmtTruncated);
    }
    var streams := ParseStreams(buf[4 + infoLen..]);
    r := if streams.Err? then Err(streams.error) else Ok(Pmt(pcrPid, streams.value));
  }

  lemma StreamsNone()
    ensures Streams([]) == Ok([])
  {}

  lemma StreamsUnfold(buf: seq<byte>)
    requires buf != []
    ensures |buf| < 5 || |buf| < 5 + Length12(buf[3], buf[4]) ==> Streams(buf) == Err(PmtTruncated)
    ensures |buf| >= 5 && |buf| >= 5 + Length12(buf[3], buf[4]) ==>
              var rest := Streams(buf[5 + Length12(buf[3], buf[4])..]);
              if rest.Err? then Streams(buf) == rest
              else Streams(buf) == Ok([PmtStream(buf[0], Pid(buf[1], buf[2]))] + rest.value)
  {}

  function PmtSection(programNumber: uint16, table: Pmt): Section {
    Section(TABLE_PMT, programNumber, 0, PmtData(table))
  }

  method MarshalPmt(programNumber: uint16, table: Pmt) returns (r: Result<seq<byte>, Error>)
    ensures r == Marshal(PmtSection(programNumber, table))
  {
    hide Marshal, PmtEntry;
    assert table.streams[0..] == table.streams;
    var data: seq<byte> := [0xE0 + (table.pcrPid / 256 % 32) as byte, (table.pcrPid % 256) as byte, 0xF0, 0x00];
    for i := 0 to |table.streams|
      invariant data + StreamData(table.streams[i..]) == PmtData(table)
    {
      assert table.streams[i..][1..] == table.streams[i + 1..];
      ConcatAssoc(data, PmtEntry(table.streams[i]), StreamData(table.streams[i + 1..]));
      data := data + PmtEntry(table.streams[i]);
    }
    assert data + [] == data && StreamData(table.streams[|table.streams|..]) == [];
    r := Marshal(Section(TABLE_PMT, programNumber, 0, data));
  }

  lemma {:induction false} StreamsRoundTrip(streams: seq<PmtStream>)
    requires forall s :: s in streams ==> s.pid < 0x2000
    ensures Streams(StreamData(streams)) == Ok(streams)
  {
    StreamsNone();
    if streams != [] {
      var s, data := streams[0], StreamData(streams);
      assert s in streams;
      PmtEntryFields(s);
      hide PmtEntry, Streams, Length12, Pid;
      assert data[..5] == PmtEntry(s) && data[5..] == StreamData(streams[1..]);
      assert forall i :: 0 <= i < 5 ==> data[i] == PmtEntry(s)[i];
      StreamsUnfold(data);
      StreamsRoundTrip(streams[1..]);
      assert [s] + streams[1..] == streams;
    }
  }

  lemma PmtEntryFields(s: PmtStream)
    requires s.pid < 0x2000
    ensures |PmtEntry(s)| == 5
    ensures PmtEntry(s)[0] == s.streamType && Pid(PmtEntry(s)[1], PmtEntry(s)[2]) == s.pid
    ensures Length12(PmtEntry(s)[3], PmtEntry(s)[4]) == 0
  {}

  lemma PmtRoundTrip(programNumber: uint16, table: Pmt)
    requires table.pcrPid < 0x2000 && forall s :: s in table.streams ==> s.pid < 0x2000
    ensures PmtTable(PmtSection(programNumber, table)) == Ok(table)
  {
    hide Streams, StreamData;
    StreamsRoundTrip(table.streams);
    var data := PmtData(table);
    assert data[4..] == StreamData(table.streams);
    assert data[2] == 0xF0 && data[3] == 0 && Length12(data[2], data[3]) == 0;
    assert Pid(data[0], data[1]) == table.pcrPid;
  }
}
