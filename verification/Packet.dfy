/** mpegts/packet.go and mpegts/adaptation.go: the four-byte transport packet header and the
    adaptation field (section 2.4.3 of ISO/IEC 13818-1). Bits that a byte is put together from
    never overlap, so the source's `|` is written `+`. */
module Packet {
  import opened Bits
  import opened Bytes

  const PACKET_SIZE: nat := 188
  const SYNC_BYTE: byte := 0x47

  datatype Error = ShortPacket | InvalidSyncByte | InvalidAfc | AdaptationTruncated | AdaptationTooLong

  datatype Header = Header(
    transportError: bool, payloadUnitStart: bool, transportPriority: bool, pid: uint16,
    scramblingControl: byte, hasAdaptationField: bool, hasPayload: bool, continuityCounter: byte)

  datatype AdaptationField = AdaptationField(
    discontinuity: bool, randomAccess: bool, hasPcr: bool, pcr: uint64)

  const NO_ADAPTATION := AdaptationField(false, false, false, 0)

  function Flag(set_: bool, value: byte): byte { if set_ then value else 0 }

  function HighPidByte(h: Header): byte {
    (h.pid / 256 % 32) as byte +
    Flag(h.transportError, 0x80) + Flag(h.payloadUnitStart, 0x40) + Flag(h.transportPriority, 0x20)
  }

  function ControlByte(h: Header): byte {
    h.scramblingControl % 4 * 64 + Flag(h.hasAdaptationField, 0x20) + Flag(h.hasPayload, 0x10) +
    h.continuityCounter % 16
  }

  function HeaderBytes(h: Header): (s: seq<byte>)
    ensures |s| == 4
  {
    [SYNC_BYTE, HighPidByte(h), (h.pid % 256) as byte, ControlByte(h)]
  }

  method MarshalHeader(h: Header, pkt: array<byte>)
    requires pkt.Length >= 4
    modifies pkt
    ensures pkt[..4] == HeaderBytes(h)
    ensures forall k :: 4 <= k < pkt.Length ==> pkt[k] == old(pkt[k])
  {
    pkt[0] := SYNC_BYTE;
    pkt[1] := (h.pid / 256 % 32) as byte;
    if h.transportError {
      pkt[1] := pkt[1] + 0x80;
    }
    if h.payloadUnitStart {
      pkt[1] := pkt[1] + 0x40;
    }
    if h.transportPriority {
      pkt[1] := pkt[1] + 0x20;
    }
    pkt[2] := (h.pid % 256) as byte;
    var afc: byte := 0;
    if h.hasAdaptationField {
      afc := afc + 2;
    }
    if h.hasPayload {
      afc := afc + 1;
    }
    pkt[3] := h.scramblingControl % 4 * 64 + afc * 16 + h.continuityCounter % 16;
  }

  function ParseHeader(pkt: seq<byte>): Result<Header, Error> {
    if |pkt| < 4 then Err(ShortPacket)
    else if pkt[0] != SYNC_BYTE then Err(InvalidSyncByte)
    else
      var afc := pkt[3] / 16 % 4;
      if afc == 0 then Err(InvalidAfc)
      else
        Ok(Header(
             pkt[1] / 0x80 == 1,
             pkt[1] / 0x40 % 2 == 1,
             pkt[1] / 0x20 % 2 == 1,
             (pkt[1] % 32) as int * 256 + pkt[2] as int,
             pkt[3] / 64,
             afc / 2 == 1,
             afc % 2 == 1,
             pkt[3] % 16))
  }

  ghost predicate Marshalable(h: Header) {
    h.pid < 0x2000 && h.scramblingControl < 4 && h.continuityCounter < 16 &&
    (h.hasAdaptationField || h.hasPayload)
  }

  lemma HighByteFields(h: Header)
    ensures var b := HighPidByte(h);
            && (b / 0x80 == 1) == h.transportError
            && (b / 0x40 % 2 == 1) == h.payloadUnitStart
            && (b / 0x20 % 2 == 1) == h.transportPriority
            && (b % 32) as int == h.pid / 256 % 32
  {}

  lemma ControlByteFields(h: Header)
    ensures var c := ControlByte(h);
            && c / 64 == h.scramblingControl % 4
            && (c / 16 % 4 / 2 == 1) == h.hasAdaptationField
            && (c / 16 % 4 % 2 == 1) == h.hasPayload
            && c % 16 == h.continuityCounter % 16
  {
    var afc := Flag(h.hasAdaptationField, 2) + Flag(h.hasPayload, 1);
    assert ControlByte(h) == h.scramblingControl % 4 * 64 + afc * 16 + h.continuityCounter % 16;
    ThreeFields(h.scramblingControl % 4, afc, h.continuityCounter % 16);
  }

  lemma ThreeFields(a: byte, b: byte, c: byte)
    requires a < 4 && b < 4 && c < 16
    ensures var x := a * 64 + b * 16 + c; x / 64 == a && x / 16 % 4 == b && x % 16 == c
  {}

  lemma HeaderRoundTrip(h: Header, rest: seq<byte>)
    requires Marshalable(h)
    ensures ParseHeader(HeaderBytes(h) + rest) == Ok(h)
  {
    HighByteFields(h);
    ControlByteFields(h);
    hide HighPidByte, ControlByte;
    assert ControlByte(h) / 16 % 4 != 0;
  }

  /** The parser accepts only canonical headers. */
  lemma HeaderIsCanonical(pkt: seq<byte>)
    requires ParseHeader(pkt).Ok?
    ensures Marshalable(ParseHeader(pkt).value) && pkt[..4] == HeaderBytes(ParseHeader(pkt).value)
  {
    var h := ParseHeader(pkt).value;
    HighByteIsCanonical(h, pkt[1]);
    ControlByteIsCanonical(h, pkt[3]);
    hide HighPidByte, ControlByte;
  }

  lemma HighByteIsCanonical(h: Header, b: byte)
    requires h.transportError == (b / 0x80 == 1) && h.payloadUnitStart == (b / 0x40 % 2 == 1)
    requires h.transportPriority == (b / 0x20 % 2 == 1) && h.pid / 256 == (b % 32) as int
    ensures HighPidByte(h) == b
  {
    HighBits(b);
    assert h.pid / 256 % 32 == (b % 32) as int;
  }

  lemma HighBits(b: byte)
    ensures b / 0x80 < 2 && b / 0x40 % 2 < 2 && b / 0x20 % 2 < 2
    ensures b == b / 0x80 * 0x80 + b / 0x40 % 2 * 0x40 + b / 0x20 % 2 * 0x20 + b % 32
  {}

  lemma ControlByteIsCanonical(h: Header, c: byte)
    requires h.scramblingControl == c / 64 && h.continuityCounter == c % 16
    requires h.hasAdaptationField == (c / 16 % 4 / 2 == 1) && h.hasPayload == (c / 16 % 4 % 2 == 1)
    ensures ControlByte(h) == c
  {
    ControlBits(c);
  }

  lemma ControlBits(c: byte)
    ensures c / 64 < 4 && c / 16 % 4 / 2 < 2 && c / 16 % 4 % 2 < 2
    ensures c == c / 64 * 64 + c / 16 % 4 / 2 * 0x20 + c / 16 % 4 % 2 * 0x10 + c % 16
  {}

  function EncodedLen(af: AdaptationField): nat {
    if af.hasPcr then 8 else 2
  }

  function PcrBytes(pcr: uint64): (s: seq<byte>)
    ensures |s| == 6
  {
    var base, ext := pcr / 300, pcr % 300;
    [LowByte(base / 0x200_0000), LowByte(base / 0x2_0000), LowByte(base / 0x200), LowByte(base / 2),
     (base % 2) as byte * 128 + 0x7E + (ext / 256) as byte, LowByte(ext)]
  }

  function AdaptationFlags(af: AdaptationField): byte {
    Flag(af.discontinuity, 0x80) + Flag(af.randomAccess, 0x40) + Flag(af.hasPcr, 0x10)
  }

  function Stuffing(n: nat): (s: seq<byte>)
    ensures |s| == n && forall k :: 0 <= k < n ==> s[k] == 0xFF
  {
    seq(n, i => 0xFF)
  }

  /** A field of exactly `total` bytes, as the marshaler's contract asks for it. */
  predicate Fits(af: AdaptationField, total: nat) {
    total <= 256 &&
    ((total == 1 && !af.discontinuity && !af.randomAccess && !af.hasPcr) || total >= EncodedLen(af))
  }

  function AdaptationBytes(af: AdaptationField, total: nat): (s: seq<byte>)
    requires Fits(af, total)
    ensures |s| == total
  {
    if total == 1 then [0]
    else
      [(total - 1) as byte, AdaptationFlags(af)] +
      (if af.hasPcr then PcrBytes(af.pcr) else []) +
      Stuffing(total - EncodedLen(af))
  }

  /** Writes the field at `at`, every byte of it and no other. */
  method MarshalAdaptation(af: AdaptationField, buf: array<byte>, at: nat, total: nat)
    requires Fits(af, total) && at + total <= buf.Length
    modifies buf
    ensures buf[at..at + total] == AdaptationBytes(af, total)
    ensures forall k :: 0 <= k < at || at + total <= k < buf.Length ==> buf[k] == old(buf[k])
  {
    FieldShape(af, total);
    buf[at] := (total - 1) as byte;
    if total == 1 {
      return;
    }
    var flags: byte := 0;
    if af.discontinuity {
      flags := flags + 0x80;
    }
    if af.randomAccess {
      flags := flags + 0x40;
    }
    var off := 2;
    if af.hasPcr {
      flags := flags + 0x10;
      off := 8;
    }
    assert flags == AdaptationFlags(af) && off == EncodedLen(af);
    hide Flag, AdaptationFlags, AdaptationBytes, EncodedLen;
    if af.hasPcr {
      MarshalPcr(af.pcr, buf, at + 2);
    }
    buf[at + 1] := flags;
    Stuff(buf, at + off, at + total);
    AssembleField(af, total, buf[..], at);
  }

  lemma AssembleField(af: AdaptationField, total: nat, s: seq<byte>, at: nat)
    requires Fits(af, total) && total > 1 && at + total <= |s|
    requires s[at] == (total - 1) as byte && s[at + 1] == AdaptationFlags(af)
    requires af.hasPcr ==> s[at + 2..at + 8] == PcrBytes(af.pcr)
    requires s[at + EncodedLen(af)..at + total] == Stuffing(total - EncodedLen(af))
    ensures s[at..at + total] == AdaptationBytes(af, total)
  {
    FieldShape(af, total);
    hide *;
    Cut(s, at, at + EncodedLen(af), at + total);
    assert s[at..at + 2] == [s[at], s[at + 1]];
    if af.hasPcr {
      Cut(s, at, at + 2, at + 8);
    }
  }

  /** The stuffing loop of marshalTo, and of writeSection in mpegts/writer.go. */
  method Stuff(buf: array<byte>, from: nat, to: nat)
    requires from <= to <= buf.Length
    modifies buf
    ensures buf[from..to] == Stuffing(to - from)
    ensures forall k :: 0 <= k < from || to <= k < buf.Length ==> buf[k] == old(buf[k])
  {
    for i := from to to
      invariant forall k :: from <= k < i ==> buf[k] == 0xFF
      invariant forall k :: 0 <= k < from || to <= k < buf.Length ==> buf[k] == old(buf[k])
    {
      buf[i] := 0xFF;
    }
  }

  lemma FieldShape(af: AdaptationField, total: nat)
    requires Fits(af, total)
    ensures 1 <= total <= 256 && EncodedLen(af) == if af.hasPcr then 8 else 2
    ensures total == 1 ==> AdaptationBytes(af, total) == [0]
    ensures total > 1 ==> EncodedLen(af) <= total
    ensures total > 1 && !af.hasPcr ==>
              AdaptationBytes(af, total) == [(total - 1) as byte, AdaptationFlags(af)] + Stuffing(total - 2)
    ensures total > 1 && af.hasPcr ==>
              AdaptationBytes(af, total) ==
              [(total - 1) as byte, AdaptationFlags(af)] + PcrBytes(af.pcr) + Stuffing(total - 8)
  {}

  /** The 33-bit base and the nine-bit extension, six reserved bits between them. */
  method MarshalPcr(pcr: uint64, buf: array<byte>, at: nat)
    requires at + 6 <= buf.Length
    modifies buf
    ensures buf[at..at + 6] == PcrBytes(pcr)
    ensures forall k :: 0 <= k < at || at + 6 <= k < buf.Length ==> buf[k] == old(buf[k])
  {
    var base, ext := pcr / 300, pcr % 300;
    buf[at] := LowByte(base / 0x200_0000);
    buf[at + 1] := LowByte(base / 0x2_0000);
    buf[at + 2] := LowByte(base / 0x200);
    buf[at + 3] := LowByte(base / 2);
    buf[at + 4] := (base % 2) as byte * 128 + 0x7E + (ext / 256) as byte;
    buf[at + 5] := LowByte(ext);
  }

  datatype ParsedField = ParsedField(field: AdaptationField, length: nat)

  function PcrValue(b: seq<byte>): uint64
    requires |b| == 6
  {
    var base := b[0] as int * 0x200_0000 + b[1] as int * 0x2_0000 + b[2] as int * 0x200 +
                b[3] as int * 2 + b[4] as int / 128;
    var ext := (b[4] % 2) as int * 256 + b[5] as int;
    base * 300 + ext
  }

  function ParseAdaptation(buf: seq<byte>): Result<ParsedField, Error> {
    if |buf| < 1 then Err(AdaptationTruncated)
    else
      var length := buf[0] as nat;
      if 1 + length > |buf| then Err(AdaptationTooLong)
      else if length == 0 then Ok(ParsedField(NO_ADAPTATION, 1))
      else
        var flags := buf[1];
        var hasPcr := flags / 0x10 % 2 == 1;
        if hasPcr && length < 7 then Err(AdaptationTruncated)
        else
          Ok(ParsedField(
               AdaptationField(flags / 0x80 == 1, flags / 0x40 % 2 == 1, hasPcr,
                               if hasPcr then PcrValue(buf[2..8]) else 0),
               1 + length))
  }

  /** What is left of a clock reference after 33 base bits and 9 extension bits. */
  function PcrOnWire(pcr: uint64): uint64 {
    pcr / 300 % 0x2_0000_0000 * 300 + pcr % 300
  }

  lemma PcrRoundTrip(pcr: uint64)
    ensures PcrValue(PcrBytes(pcr)) == PcrOnWire(pcr)
  {
    var base, ext := pcr / 300, pcr % 300;
    BaseRoundTrip(base);
    SharedByte((base % 2) as byte, (ext / 256) as byte);
    ExtensionParts(ext);
    hide LowByte, PcrOnWire;
    PcrBytesAre(pcr, base, ext);
    LowBytesAre(base, ext);
    PcrOnWireIs(pcr);
  }

  /** The byte that holds the last bit of the base, six reserved bits and the first of the extension. */
  lemma SharedByte(low: byte, high: byte)
    requires low < 2 && high < 2
    ensures (low * 128 + 0x7E + high) / 128 == low && (low * 128 + 0x7E + high) % 2 == high
  {}

  lemma ExtensionParts(ext: nat)
    requires ext < 300
    ensures ext / 256 < 2 && ext / 256 * 256 + ext % 256 == ext
  {}

  lemma PcrBytesAre(pcr: uint64, base: nat, ext: nat)
    requires base == pcr / 300 && ext == pcr % 300 && ext / 256 < 2
    ensures PcrBytes(pcr) ==
            [LowByte(base / 0x200_0000), LowByte(base / 0x2_0000), LowByte(base / 0x200), LowByte(base / 2),
             (base % 2) as byte * 128 + 0x7E + (ext / 256) as byte, LowByte(ext)]
  {}

  lemma LowBytesAre(base: nat, ext: nat)
    ensures LowByte(base / 0x200_0000) as int == base / 0x200_0000 % 256
    ensures LowByte(base / 0x2_0000) as int == base / 0x2_0000 % 256
    ensures LowByte(base / 0x200) as int == base / 0x200 % 256
    ensures LowByte(base / 2) as int == base / 2 % 256 && LowByte(ext) as int == ext % 256
  {}

  lemma PcrOnWireIs(pcr: uint64)
    ensures PcrOnWire(pcr) == pcr / 300 % 0x2_0000_0000 * 300 + pcr % 300
  {}

  lemma BaseRoundTrip(base: nat)
    ensures base / 0x200_0000 % 256 * 0x200_0000 + base / 0x2_0000 % 256 * 0x2_0000 +
            base / 0x200 % 256 * 0x200 + base / 2 % 256 * 2 + base % 2 == base % 0x2_0000_0000
  {
    Low9(base);
    Low17(base);
    Low25(base);
    Low33(base);
  }

  lemma Low9(x: nat)
    ensures x % 0x200 == x / 2 % 256 * 2 + x % 2
  {}

  lemma Low17(x: nat)
    ensures x % 0x2_0000 == x / 0x200 % 256 * 0x200 + x % 0x200
  {}

  lemma Low25(x: nat)
    ensures x % 0x200_0000 == x / 0x2_0000 % 256 * 0x2_0000 + x % 0x2_0000
  {}

  lemma Low33(x: nat)
    ensures x % 0x2_0000_0000 == x / 0x200_0000 % 256 * 0x200_0000 + x % 0x200_0000
  {}

  /** A marshaled field parses back, to its own length, whatever follows it. */
  lemma AdaptationRoundTrip(af: AdaptationField, total: nat, rest: seq<byte>)
    requires Fits(af, total)
    ensures ParseAdaptation(AdaptationBytes(af, total) + rest) ==
            Ok(ParsedField(af.(pcr := if af.hasPcr then PcrOnWire(af.pcr) else 0), total))
  {
    hide PcrBytes, PcrValue, PcrOnWire;
    var s := AdaptationBytes(af, total) + rest;
    if total > 1 {
      assert s[1] == AdaptationFlags(af);
      if af.hasPcr {
        assert s[2..8] == PcrBytes(af.pcr);
        PcrRoundTrip(af.pcr);
      }
    }
  }

  datatype Payload = Payload(bytes: Option<seq<byte>>, field: AdaptationField)

  /** packetPayload of mpegts/reader.go. */
  function PacketPayload(pkt: seq<byte>, h: Header): Result<Payload, Error>
    requires |pkt| >= 4
  {
    if h.hasAdaptationField then
      var parsed := ParseAdaptation(pkt[4..]);
      match parsed
      case Err(e) => Err(e)
      case Ok(p) => Ok(Payload(PayloadFrom(pkt, h, 4 + p.length), p.field))
    else Ok(Payload(PayloadFrom(pkt, h, 4), NO_ADAPTATION))
  }

  function PayloadFrom(pkt: seq<byte>, h: Header, off: nat): Option<seq<byte>> {
    if !h.hasPayload || off >= |pkt| then None else Some(pkt[off..])
  }
}
