/** How often a written stream repeats its tables and its clock: maybeWritePSI and the clock
    reference of writeAccessUnit in mpegts/writer.go. */
module Cadence {
  import opened Bits
  import opened Bytes
  import opened Channels
  import opened H26x
  import opened Packet
  import opened Packetizer
  import Pes
  import opened RoundTrip
  import opened Tracks
  import TsReader
  import opened TsWriter

  // Tables.

  function StateAt(c: Config, calls: seq<Call>, i: nat): State
    requires Ready(c) && i <= |calls|
  {
    WriteAll(c, INITIAL, calls[..i]).0
  }

  predicate Accepted(c: Config, calls: seq<Call>, i: nat)
    requires i < |calls|
  {
    CallError(c.tracks, calls[i]) == None
  }

  /** Call `i` writes the tables before its unit. */
  predicate Emits(c: Config, calls: seq<Call>, i: nat)
    requires Ready(c) && i < |calls|
  {
    Accepted(c, calls, i) && PsiDue(StateAt(c, calls, i).psi, calls[i].dts)
  }

  /** Call `j` is the latest one up to `i` that wrote the tables. */
  ghost predicate LatestTables(c: Config, calls: seq<Call>, j: nat, i: nat)
    requires Ready(c) && i < |calls|
  {
    j <= i && Emits(c, calls, j) && forall k :: j < k <= i ==> !Emits(c, calls, k)
  }

  lemma {:induction false} WriteAllSnoc(c: Config, st: State, calls: seq<Call>, call: Call)
    requires Ready(c)
    ensures WriteAll(c, st, calls + [call]).0 == Write(c, WriteAll(c, st, calls).0, call).0
    decreases |calls|
  {
    hide Write;
    if calls == [] {
      assert calls + [call] == [call] && [call][1..] == [];
    } else {
      assert (calls + [call])[1..] == calls[1..] + [call];
      WriteAllSnoc(c, Write(c, st, calls[0]).0, calls[1..], call);
    }
  }

  lemma StateNext(c: Config, calls: seq<Call>, i: nat)
    requires Ready(c) && i < |calls|
    ensures StateAt(c, calls, i + 1) == Write(c, StateAt(c, calls, i), calls[i]).0
  {
    hide Write;
    assert calls[..i + 1] == calls[..i] + [calls[i]];
    WriteAllSnoc(c, INITIAL, calls[..i], calls[i]);
  }

  lemma StateStart(c: Config, calls: seq<Call>)
    requires Ready(c)
    ensures StateAt(c, calls, 0) == INITIAL
  {
    assert calls[..0] == [];
  }

  lemma PsiAfter(c: Config, st: State, call: Call)
    requires Ready(c)
    ensures Write(c, st, call).0.psi ==
            if CallError(c.tracks, call) == None && PsiDue(st.psi, call.dts) then Some(call.dts) else st.psi
  {
    hide PsiPacket, UnitPackets, CallError;
  }

  /** The remembered DTS is that of the latest call that wrote the tables. */
  lemma {:induction false} PsiRemembered(c: Config, calls: seq<Call>, n: nat) returns (j: nat)
    requires Ready(c) && n <= |calls|
    ensures StateAt(c, calls, n).psi == None ==> forall k :: 0 <= k < n ==> !Accepted(c, calls, k)
    ensures StateAt(c, calls, n).psi.Some? ==>
              j < n && LatestTables(c, calls, j, n - 1) && StateAt(c, calls, n).psi == Some(calls[j].dts)
  {
    hide Write, StateAt, CallError;
    j := 0;
    if n == 0 {
      StateStart(c, calls);
    } else {
      StateNext(c, calls, n - 1);
      PsiAfter(c, StateAt(c, calls, n - 1), calls[n - 1]);
      j := PsiRemembered(c, calls, n - 1);
      if Emits(c, calls, n - 1) {
        j := n - 1;
      }
    }
  }

  /** In the int64 difference of two times, only distances of 2^63 and more look recent wrongly. */
  lemma DueExactly(psi: int64, dts: int64)
    ensures PsiDue(Some(psi), dts) <==> dts < psi || PSI_INTERVAL <= dts - psi < INT64_LIMIT
  {
    if dts - psi >= INT64_LIMIT {
      WrapsNegative(dts - psi);
    }
  }

  lemma WrapsNegative(x: int)
    requires INT64_LIMIT <= x < UINT64_LIMIT
    ensures Wrap64(x) < 0
  {}

  /** Every unit is written behind tables, whose DTS is not later than its own and less than 9000
      ticks before it, unless the two are 2^63 or more apart. */
  lemma TablesRecent(c: Config, calls: seq<Call>, i: nat) returns (j: nat)
    requires Ready(c) && i < |calls| && Accepted(c, calls, i)
    ensures LatestTables(c, calls, j, i)
    ensures calls[j].dts <= calls[i].dts
    ensures calls[i].dts - calls[j].dts < PSI_INTERVAL <==> calls[i].dts - calls[j].dts < INT64_LIMIT
  {
    hide StateAt, CallError, Wrap64, PsiDue;
    j := PsiRemembered(c, calls, i);
    if Emits(c, calls, i) {
      j := i;
    } else if StateAt(c, calls, i).psi.Some? {
      DueExactly(calls[j].dts, calls[i].dts);
    } else {
      FirstDue(calls[i].dts);
    }
  }

  lemma FirstDue(dts: int64)
    ensures PsiDue(None, dts)
  {}

  const FROM_EARLIEST: seq<Call> := [Call(256, H264, 0, -INT64_LIMIT, [1]), Call(256, H264, 0, 0, [1])]

  /** The exception is real: two calls, from the earliest time to time 0, and no new tables. */
  lemma TablesOverdue()
    ensures ValidTracks(ONE_TRACK) && |FROM_EARLIEST| == 2
    ensures var c, calls := ConfigFor(ONE_TRACK), FROM_EARLIEST;
            && Accepted(c, calls, 0) && Accepted(c, calls, 1) && LatestTables(c, calls, 0, 1)
            && calls[1].dts - calls[0].dts >= PSI_INTERVAL
  {
    hide *;
    EarliestCalls();
    var c, calls := ConfigFor(ONE_TRACK), FROM_EARLIEST;
    StateStart(c, calls);
    StateNext(c, calls, 0);
    PsiAfter(c, StateAt(c, calls, 0), calls[0]);
    FirstDue(calls[0].dts);
    DueExactly(calls[0].dts, calls[1].dts);
    OnlyFirst(c, calls);
  }

  lemma EarliestCalls()
    ensures ValidTracks(ONE_TRACK) && |FROM_EARLIEST| == 2 && INITIAL.psi == None
    ensures CallError(ONE_TRACK, FROM_EARLIEST[0]) == None && CallError(ONE_TRACK, FROM_EARLIEST[1]) == None
    ensures FROM_EARLIEST[1].dts - FROM_EARLIEST[0].dts == INT64_LIMIT > PSI_INTERVAL
    ensures FROM_EARLIEST[0].dts <= FROM_EARLIEST[1].dts
  {
    assert ONE_TRACK[0] in ONE_TRACK;
  }

  lemma OnlyFirst(c: Config, calls: seq<Call>)
    requires Ready(c) && |calls| == 2
    requires CallError(c.tracks, calls[0]) == None && CallError(c.tracks, calls[1]) == None
    requires PsiDue(StateAt(c, calls, 0).psi, calls[0].dts) && !PsiDue(StateAt(c, calls, 1).psi, calls[1].dts)
    ensures Accepted(c, calls, 0) && Accepted(c, calls, 1) && LatestTables(c, calls, 0, 1)
  {
    hide StateAt, PsiDue, CallError;
  }

  lemma {:induction false} CountersStayValid(c: Config, calls: seq<Call>, n: nat)
    requires Configures(c) && Ready(c) && n <= |calls|
    ensures CountersValid(StateAt(c, calls, n).cc)
  {
    hide *;
    if n == 0 {
      StateStart(c, calls);
      NoCounters();
    } else {
      CountersStayValid(c, calls, n - 1);
      StateNext(c, calls, n - 1);
      FirstPid(c);
      WriteForPid(c, StateAt(c, calls, n - 1), calls[n - 1], c.tracks[0].pid);
    }
  }

  lemma NoCounters()
    ensures CountersValid(INITIAL.cc)
  {}

  lemma FirstPid(c: Config)
    requires Configures(c)
    ensures c.tracks != [] && PidsInRange(c.tracks) && ValidPid(c.tracks[0].pid)
  {}

  /** Where tables are due they stand right before the unit, and a reader that starts with them
      finds the tracks. */
  lemma TablesJoinable(c: Config, calls: seq<Call>, j: nat, rest: seq<seq<byte>>)
    requires Configures(c) && Ready(c) && j < |calls| && Emits(c, calls, j)
    ensures var now := Write(c, StateAt(c, calls, j), calls[j]).1;
            |now| >= 2 && TsReader.FindTracks(TsReader.NEW_SEARCH, now + rest) == Ok((c.tracks, now[2..] + rest))
  {
    hide StateAt, CallError, UnitPackets, PsiPacket, Configures, TsReader.FindTracks;
    var st, call := StateAt(c, calls, j), calls[j];
    CountersStayValid(c, calls, j);
    var m := MaybePsi(c, st, call.dts);
    var unit := UnitPackets(c.tracks, m.0, call);
    var tables := PsiPackets(c, st.cc);
    assert Write(c, st, call).1 == tables + unit;
    assert (tables + unit)[2..] == unit;
    ConcatAssoc(tables, unit, rest);
    TablesFound(c, st.cc, unit + rest);
  }

  // The clock.

  /** The clock reference in a packet, as the reader parses it. */
  function ClockOf(pkt: seq<byte>): Option<uint64> {
    match ParseHeader(pkt)
    case Err(_) => None
    case Ok(h) =>
      match PacketPayload(pkt, h)
      case Err(_) => None
      case Ok(p) => if p.field.hasPcr then Some(p.field.pcr) else None
  }

  lemma PacketClock(job: Job, cc: byte, first: bool, payload: seq<byte>)
    requires cc < 16 && job.pid < 0x2000
    ensures ClockOf(PesPacket(job, cc, first, payload)) ==
            if job.withPcr && first then Some(PcrOnWire(job.pcr)) else None
  {
    hide HeaderBytes, ParseHeader, AdaptationBytes, ParseAdaptation, FieldTotal, EncodedLen, MinField, PcrOnWire;
    var afTotal := FieldTotal(job, first, |payload|);
    var h := PesPacketHeader(job, cc, first, afTotal);
    var pkt := PesPacket(job, cc, first, payload);
    var data := payload[..PAYLOAD_SIZE - afTotal];
    ConcatAssoc(HeaderBytes(h), FieldBytes(job, first, afTotal), data);
    HeaderRoundTrip(h, FieldBytes(job, first, afTotal) + data);
    if afTotal > 0 {
      AdaptationRoundTrip(FieldFor(job, first), afTotal, data);
      assert pkt[4..] == AdaptationBytes(FieldFor(job, first), afTotal) + data;
    }
  }

  lemma {:induction false} PacketizeClock(job: Job, cc: byte, first: bool, payload: seq<byte>)
    requires cc < 16 && job.pid < 0x2000
    ensures var pkts := Packetize(job, cc, first, payload);
            forall i :: 0 <= i < |pkts| ==>
              ClockOf(pkts[i]) == if job.withPcr && first && i == 0 then Some(PcrOnWire(job.pcr)) else None
    decreases |payload|
  {
    hide *;
    var n, pkts := Taken(job, first, payload), Packetize(job, cc, first, payload);
    PacketClock(job, cc, first, payload);
    PacketizeUnfolds(job, cc, first, payload);
    if n == |payload| {
      assert |pkts| == 1;
    } else {
      NextBelow(cc, n, payload, job, first);
      PacketizeClock(job, NextCounter(cc), false, payload[n..]);
      forall i | 0 < i < |pkts|
        ensures ClockOf(pkts[i]) == None
      {
        assert pkts[i] == pkts[1..][i - 1];
      }
    }
  }

  lemma NextBelow(cc: byte, n: nat, payload: seq<byte>, job: Job, first: bool)
    requires n == Taken(job, first, payload) && n != |payload|
    ensures 0 < n < |payload| && NextCounter(cc) < 16
  {
    hide FieldTotal;
  }

  lemma TableClock(pid: uint16, cc: byte, section: seq<byte>)
    requires |section| <= PAYLOAD_SIZE && cc < 16 && pid < 0x2000
    ensures ClockOf(PsiPacket(pid, cc, section)) == None
  {
    hide HeaderBytes, ParseHeader;
    var h := Header(false, true, false, pid, 0, false, true, cc);
    var rest := section + Stuffing(PAYLOAD_SIZE - |section|);
    ConcatAssoc(HeaderBytes(h), section, Stuffing(PAYLOAD_SIZE - |section|));
    HeaderRoundTrip(h, rest);
  }

  lemma TablesClock(c: Config, st: State, dts: int64)
    requires Ready(c) && CountersValid(st.cc)
    ensures forall k :: 0 <= k < |MaybePsi(c, st, dts).1| ==> ClockOf(MaybePsi(c, st, dts).1[k]) == None
    ensures CountersValid(MaybePsi(c, st, dts).0.cc)
  {
    hide PsiPacket, ClockOf;
    if PsiDue(st.psi, dts) {
      TableClock(PID_PAT, Counter(st.cc, PID_PAT), c.patRaw);
      TableClock(PMT_PID, Counter(st.cc, PMT_PID), c.pmtRaw);
    }
  }

  /** The packets of a call hold one clock reference if its track is the first, the clock track,
      and none otherwise; it is in the first packet of the unit. */
  lemma ClockPlaced(c: Config, st: State, call: Call)
    requires Ready(c) && PidsInRange(c.tracks) && CountersValid(st.cc) && CallError(c.tracks, call) == None
    ensures var now := Write(c, st, call).1;
            var start := |MaybePsi(c, st, call.dts).1|;
            && start < |now|
            && forall k :: 0 <= k < |now| ==>
                 ClockOf(now[k]) ==
                 if k == start && call.pid == c.tracks[0].pid then Some(PcrOnWire(PcrFor(call.dts))) else None
  {
    hide MaybePsi, Packetize, ClockOf, PcrOnWire, PcrFor, PesBytes, PidsInRange, CallError;
    AcceptedPid(c.tracks, call);
    TablesClock(c, st, call.dts);
    var m, job := MaybePsi(c, st, call.dts), JobFor(c.tracks, call);
    PacketizeClock(job, Counter(m.0.cc, call.pid), true, PesBytes(call));
    hide JobFor;
    var unit := UnitPackets(c.tracks, m.0, call);
    assert unit == Packetize(job, Counter(m.0.cc, call.pid), true, PesBytes(call));
    assert Write(c, st, call).1 == m.1 + unit;
  }

  /** The delayed decoding time, not below 0. */
  function ClockBase(dts: int64): (base: uint64) {
    if dts > PCR_DELAY then dts - PCR_DELAY else 0
  }

  /** A written clock reference parses to 300 times the delayed time modulo 2^33, if and only if
      the delay does not underflow an int64 and the multiplication by 300 wraps around a uint64
      a multiple of 75 times (not at all, for all times below about 2^55). */
  lemma ClockExact(dts: int64)
    ensures PcrOnWire(PcrFor(dts)) == 300 * Pes.Low33(ClockBase(dts)) <==>
            dts >= PCR_DELAY - INT64_LIMIT && 300 * ClockBase(dts) / UINT64_LIMIT % 75 == 0
  {
    if dts < PCR_DELAY - INT64_LIMIT {
      ClockUnderflows(dts);
    } else {
      Scaled(ClockBase(dts), 300 * ClockBase(dts) / UINT64_LIMIT);
    }
  }

  /** Where the product wraps 74 times, the clock that is read is another one. */
  lemma ClockWrong()
    ensures PcrOnWire(PcrFor(0x4000_0000_0000_0000)) != 300 * Pes.Low33(ClockBase(0x4000_0000_0000_0000))
  {
    ClockExact(0x4000_0000_0000_0000);
  }

  lemma ClockUnderflows(dts: int64)
    requires dts < PCR_DELAY - INT64_LIMIT
    ensures ClockBase(dts) == 0 && PcrFor(dts) % 300 != 0
    ensures PcrOnWire(PcrFor(dts)) != 0
  {
    var base := Wrap64(dts - PCR_DELAY);
    assert base == dts - PCR_DELAY + UINT64_LIMIT;
    assert base * 300 % UINT64_LIMIT == 300 * (base - INT64_LIMIT) + UINT64_LIMIT;
  }

  /** Wrapping q times leaves the remainder -16 q modulo 300. */
  lemma Scaled(base: uint64, q: nat)
    requires base < INT64_LIMIT && q == 300 * base / UINT64_LIMIT
    ensures PcrOnWire(300 * base % UINT64_LIMIT) == 300 * Pes.Low33(base) <==> q % 75 == 0
  {
    hide PcrOnWire;
    var p := 300 * base % UINT64_LIMIT;
    ProductParts(base, q);
    WireRemainder(p);
    if q == 0 {
      WireOf(base);
    } else if q == 75 {
      WireOf(base - 0x4000_0000_0000_0000);
      LowUnmoved(base);
    } else {
      NotDivisible(q, base, p);
    }
  }

  lemma ProductParts(base: uint64, q: nat)
    requires base < INT64_LIMIT && q == 300 * base / UINT64_LIMIT
    ensures 300 * base % UINT64_LIMIT == 300 * base - q * UINT64_LIMIT && q < 150
  {}

  lemma WireOf(k: nat)
    requires 300 * k < UINT64_LIMIT
    ensures PcrOnWire(300 * k) == 300 * Pes.Low33(k)
  {}

  lemma WireRemainder(p: uint64)
    ensures PcrOnWire(p) % 300 == p % 300
  {
    ModuloOf(p / 300 % 0x2_0000_0000, p % 300);
  }

  /** 2^62 is a multiple of 2^33. */
  lemma LowUnmoved(base: int)
    ensures Pes.Low33(base - 0x4000_0000_0000_0000) == Pes.Low33(base)
  {}

  lemma NotDivisible(q: nat, base: nat, p: nat)
    requires q < 150 && q % 75 != 0 && p == 300 * base - q * UINT64_LIMIT
    ensures p % 300 != 0
  {
    var k := UINT64_LIMIT / 300;
    assert UINT64_LIMIT == 300 * k + 16;
    assert p == 300 * (base - q * k) - 16 * q;
    ModuloOf(base - q * k, -16 * q);
    SixteenTimes(q);
  }

  lemma ModuloOf(a: int, b: int)
    ensures (300 * a + b) % 300 == b % 300
  {}

  lemma SixteenTimes(q: nat)
    requires q < 150 && q % 75 != 0
    ensures -16 * q % 300 != 0
  {}
}
