/** How mpegts/writer.go cuts one PES packet or one table section into transport packets, and
    what mpegts/reader.go sees in each of them. */
module Packetizer {
  import opened Bits
  import opened Bytes
  import opened Packet

  const PAYLOAD_SIZE: nat := 184

  /** The parts of a usable packet that handleES works on. */
  datatype EsPacket = EsPacket(pid: uint16, unitStart: bool, cc: byte, rai: bool, payload: seq<byte>)

  datatype OpenPacket = OpenPacket(header: Header, rai: bool, payload: seq<byte>)

  /** Header and payload of a packet, unless it is malformed, damaged or without payload. */
  function Opened(pkt: seq<byte>): (p: Option<OpenPacket>)
    ensures p.Some? ==> p.value.payload != [] && p.value.header.pid < 0x2000 && p.value.header.continuityCounter < 16
  {
    match ParseHeader(pkt)
    case Err(_) => None
    case Ok(h) =>
      if h.transportError then None
      else
        match PacketPayload(pkt, h)
        case Err(_) => None
        case Ok(p) => if p.bytes == None then None else Some(OpenPacket(h, p.field.randomAccess, p.bytes.value))
  }

  /** handlePacket up to handleES: scrambled packets are skipped as well. */
  function Usable(pkt: seq<byte>): Option<EsPacket> {
    match Opened(pkt)
    case None => None
    case Some(p) =>
      if p.header.scramblingControl != 0 then None
      else
        Some(EsPacket(p.header.pid, p.header.payloadUnitStart, p.header.continuityCounter, p.rai, p.payload))
  }

  /** One PES packet to be cut up: where it goes and what its first packet announces. */
  datatype Job = Job(pid: uint16, rai: bool, withPcr: bool, pcr: uint64)

  function NextCounter(cc: byte): byte
  {
    (cc % 16 + 1) % 16
  }

  function FieldFor(job: Job, first: bool): AdaptationField {
    AdaptationField(false, job.rai && first, job.withPcr && first, job.pcr)
  }

  /** The adaptation field needed for flags and clock, in bytes. */
  function MinField(job: Job, first: bool): nat {
    var af := FieldFor(job, first);
    if af.randomAccess || af.hasPcr then EncodedLen(af) else 0
  }

  /** The adaptation field of a packet, stuffing included, when `remaining` bytes are left. */
  function FieldTotal(job: Job, first: bool, remaining: nat): (total: nat)
    ensures total <= PAYLOAD_SIZE
    ensures total > 0 ==> Fits(FieldFor(job, first), total)
    ensures PAYLOAD_SIZE - total <= remaining
    ensures remaining > 0 ==> total < PAYLOAD_SIZE
    ensures total == 0 ==> !FieldFor(job, first).randomAccess && !FieldFor(job, first).hasPcr
  {
    if remaining < PAYLOAD_SIZE - MinField(job, first) then PAYLOAD_SIZE - remaining else MinField(job, first)
  }

  function PesPacketHeader(job: Job, cc: byte, first: bool, afTotal: nat): Header {
    Header(false, first, false, job.pid, 0, afTotal > 0, true, cc)
  }

  function FieldBytes(job: Job, first: bool, afTotal: nat): (s: seq<byte>)
    requires afTotal > 0 ==> Fits(FieldFor(job, first), afTotal)
    ensures |s| == afTotal
  {
    if afTotal > 0 then AdaptationBytes(FieldFor(job, first), afTotal) else []
  }

  /** The packet that carries the next part of `payload`. */
  function PesPacket(job: Job, cc: byte, first: bool, payload: seq<byte>): (pkt: seq<byte>)
    ensures |pkt| == PACKET_SIZE
  {
    var afTotal := FieldTotal(job, first, |payload|);
    HeaderBytes(PesPacketHeader(job, cc, first, afTotal)) + FieldBytes(job, first, afTotal) +
    payload[..PAYLOAD_SIZE - afTotal]
  }

  function Taken(job: Job, first: bool, payload: seq<byte>): nat {
    PAYLOAD_SIZE - FieldTotal(job, first, |payload|)
  }

  /** The packets of one PES packet, the first with counter `cc`. */
  function Packetize(job: Job, cc: byte, first: bool, payload: seq<byte>): (pkts: seq<seq<byte>>)
    ensures |pkts| > 0
    decreases |payload|
  {
    var n := Taken(job, first, payload);
    [PesPacket(job, cc, first, payload)] +
    if n == |payload| then [] else Packetize(job, NextCounter(cc), false, payload[n..])
  }

  /** The same packets as the reader sees them. */
  function Chunks(job: Job, cc: byte, first: bool, payload: seq<byte>): (chunks: seq<EsPacket>)
    ensures |chunks| > 0
    decreases |payload|
  {
    var n := Taken(job, first, payload);
    [EsPacket(job.pid, first, cc, job.rai && first, payload[..n])] +
    if n == |payload| then [] else Chunks(job, NextCounter(cc), false, payload[n..])
  }

  lemma PesPacketUsable(job: Job, cc: byte, first: bool, payload: seq<byte>)
    requires payload != [] && cc < 16 && job.pid < 0x2000
    ensures Usable(PesPacket(job, cc, first, payload)) ==
            Some(EsPacket(job.pid, first, cc, job.rai && first, payload[..Taken(job, first, payload)]))
  {
    hide HeaderBytes, ParseHeader, AdaptationBytes, ParseAdaptation, FieldTotal, EncodedLen, MinField;
    var afTotal := FieldTotal(job, first, |payload|);
    var h := PesPacketHeader(job, cc, first, afTotal);
    var pkt := PesPacket(job, cc, first, payload);
    var data := payload[..PAYLOAD_SIZE - afTotal];
    ConcatAssoc(HeaderBytes(h), FieldBytes(job, first, afTotal), data);
    HeaderRoundTrip(h, FieldBytes(job, first, afTotal) + data);
    assert pkt[4 + afTotal..] == data;
    if afTotal > 0 {
      AdaptationRoundTrip(FieldFor(job, first), afTotal, data);
      assert pkt[4..] == AdaptationBytes(FieldFor(job, first), afTotal) + data;
    }
  }

  /** What is read back from every packet of a run is exactly what went in. */
  lemma {:induction false} PacketizeUsable(job: Job, cc: byte, first: bool, payload: seq<byte>)
    requires payload != [] && cc < 16 && job.pid < 0x2000
    ensures |Packetize(job, cc, first, payload)| == |Chunks(job, cc, first, payload)|
    ensures forall i :: 0 <= i < |Packetize(job, cc, first, payload)| ==>
              Usable(Packetize(job, cc, first, payload)[i]) == Some(Chunks(job, cc, first, payload)[i])
    decreases |payload|
  {
    hide PesPacket, Usable, FieldTotal;
    PesPacketUsable(job, cc, first, payload);
    var n := Taken(job, first, payload);
    var pkts, chunks := Packetize(job, cc, first, payload), Chunks(job, cc, first, payload);
    if n != |payload| {
      PacketizeUsable(job, NextCounter(cc), false, payload[n..]);
      assert pkts[1..] == Packetize(job, NextCounter(cc), false, payload[n..]);
      assert chunks[1..] == Chunks(job, NextCounter(cc), false, payload[n..]);
      forall i | 0 < i < |pkts|
        ensures Usable(pkts[i]) == Some(chunks[i])
      {
        assert pkts[i] == pkts[1..][i - 1] && chunks[i] == chunks[1..][i - 1];
      }
    }
  }

  function Payloads(chunks: seq<EsPacket>): seq<seq<byte>> {
    seq(|chunks|, i requires 0 <= i < |chunks| => chunks[i].payload)
  }

  function CounterAt(cc: byte, i: nat): byte {
    ((cc as int + i) % 16) as byte
  }

  /** Cutting is exact: the payloads concatenate to the input, none is empty, only the first
      packet starts a unit or announces random access, and the counters run modulo 16. */
  lemma {:induction false} ChunksExact(job: Job, cc: byte, first: bool, payload: seq<byte>)
    requires payload != [] && cc < 16
    ensures Flatten(Payloads(Chunks(job, cc, first, payload))) == payload
    ensures forall i :: 0 <= i < |Chunks(job, cc, first, payload)| ==>
              var c := Chunks(job, cc, first, payload)[i];
              && c.pid == job.pid && c.cc == CounterAt(cc, i) && c.payload != []
              && c.unitStart == (first && i == 0) && c.rai == (job.rai && first && i == 0)
    decreases |payload|
  {
    hide Chunks, CounterAt, FieldTotal, NextCounter, Flatten, Payloads;
    var chunks := Chunks(job, cc, first, payload);
    var n := Taken(job, first, payload);
    ChunksCons(job, cc, first, payload);
    PayloadsCons(chunks);
    CounterStart(cc);
    if n != |payload| {
      var rest := Chunks(job, NextCounter(cc), false, payload[n..]);
      NextAsInt(cc);
      ChunksExact(job, NextCounter(cc), false, payload[n..]);
      assert payload[..n] + payload[n..] == payload;
      forall i | 0 < i < |chunks|
        ensures chunks[i] == rest[i - 1] && CounterAt(NextCounter(cc), i - 1) == CounterAt(cc, i)
      {
        CounterStep(cc, i - 1);
        assert chunks[1..][i - 1] == chunks[i];
      }
    }
  }

  lemma ChunksCons(job: Job, cc: byte, first: bool, payload: seq<byte>)
    requires payload != []
    ensures var n, chunks := Taken(job, first, payload), Chunks(job, cc, first, payload);
            && 0 < n <= |payload|
            && chunks[0] == EsPacket(job.pid, first, cc, job.rai && first, payload[..n])
            && chunks[1..] == (if n == |payload| then [] else Chunks(job, NextCounter(cc), false, payload[n..]))
            && (n == |payload| ==> payload[..n] == payload && |chunks| == 1)
  {
    hide FieldTotal, NextCounter;
  }

  lemma PayloadsCons(chunks: seq<EsPacket>)
    requires chunks != []
    ensures Flatten(Payloads(chunks)) == chunks[0].payload + Flatten(Payloads(chunks[1..]))
    ensures Flatten(Payloads([])) == []
    ensures |chunks| == 1 ==> Flatten(Payloads(chunks)) == chunks[0].payload
  {
    assert Payloads(chunks)[1..] == Payloads(chunks[1..]);
  }

  lemma CounterStart(cc: byte)
    requires cc < 16
    ensures CounterAt(cc, 0) == cc
  {}

  /** The counter as a number. */
  lemma NextAsInt(cc: byte)
    requires cc < 16
    ensures NextCounter(cc) < 16 && NextCounter(cc) as int == (cc as int + 1) % 16
  {}

  lemma AddModulo(x: nat, i: nat)
    ensures (x % 16 + i) % 16 == (x + i) % 16
  {}

  lemma SameModulo(x: nat, i: nat)
    ensures ((x + 1) % 16 + i) % 16 == (x + (i + 1)) % 16 == ((x + i) % 16 + 1) % 16
  {
    AddModulo(x + 1, i);
    AddModulo(x + i, 1);
  }

  lemma CounterStep(cc: byte, i: nat)
    requires cc < 16
    ensures CounterAt(NextCounter(cc), i) == CounterAt(cc, i + 1)
  {
    NextAsInt(cc);
    SameModulo(cc as int, i);
  }

  lemma CounterThenNext(cc: byte, i: nat)
    requires cc < 16
    ensures CounterAt(cc, i) < 16 && NextCounter(CounterAt(cc, i)) == CounterAt(cc, i + 1)
  {
    NextAsInt(CounterAt(cc, i));
    SameModulo(cc as int, i);
  }

  /** A table section in a packet of its own, pointer_field first, padded with 0xFF. */
  function PsiPacket(pid: uint16, cc: byte, section: seq<byte>): (pkt: seq<byte>)
    requires |section| <= PAYLOAD_SIZE
    ensures |pkt| == PACKET_SIZE
  {
    HeaderBytes(Header(false, true, false, pid, 0, false, true, cc)) + section +
    Stuffing(PAYLOAD_SIZE - |section|)
  }

  lemma PsiPacketOpened(pid: uint16, cc: byte, section: seq<byte>)
    requires |section| <= PAYLOAD_SIZE && cc < 16 && pid < 0x2000
    ensures Opened(PsiPacket(pid, cc, section)) ==
            Some(OpenPacket(Header(false, true, false, pid, 0, false, true, cc), false,
                            section + Stuffing(PAYLOAD_SIZE - |section|)))
  {
    hide HeaderBytes, ParseHeader;
    var h := Header(false, true, false, pid, 0, false, true, cc);
    var rest := section + Stuffing(PAYLOAD_SIZE - |section|);
    ConcatAssoc(HeaderBytes(h), section, Stuffing(PAYLOAD_SIZE - |section|));
    HeaderRoundTrip(h, rest);
    assert (HeaderBytes(h) + rest)[4..] == rest;
  }
}
