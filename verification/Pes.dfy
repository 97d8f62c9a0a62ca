/** mpegts/pes.go: PES packet headers and their 33-bit timestamps (section 2.4.3.6 of
    ISO/IEC 13818-1), and extendTimestamp of mpegts/reader.go, which unwraps them. Bits that a
    byte is put together from never overlap, so the source's `|` is written `+`. */
module Pes {
  import opened Bits
  import opened Bytes

  const WRAP: int := 0x2_0000_0000

  /** A timestamp as it goes on the wire. */
  type Ts33 = x: int | 0 <= x < WRAP
  const VIDEO_STREAM: byte := 0xE0

  datatype Error = Truncated | StartCode | MarkerBits

  datatype Header = Header(
    streamId: byte, packetLength: nat, headerLength: nat, pts: Option<Ts33>, dts: Option<Ts33>)

  function Low33(ts: int): Ts33 {
    ts % WRAP
  }

  /** Five bytes, a marker bit after every group of bits. */
  function TimestampBytes(prefix: byte, ts: nat): (s: seq<byte>)
    requires prefix < 16
    ensures |s| == 5
  {
    [prefix * 16 + (ts / 0x4000_0000 % 8) as byte * 2 + 1,
     LowByte(ts / 0x40_0000),
     (ts / 0x8000 % 128) as byte * 2 + 1,
     LowByte(ts / 0x80),
     (ts % 128) as byte * 2 + 1]
  }

  function ParseTimestamp(b: seq<byte>): Ts33
    requires |b| == 5
  {
    (b[0] / 2 % 8) as nat * 0x4000_0000 + b[1] as nat * 0x40_0000 + (b[2] / 2) as nat * 0x8000 +
    b[3] as nat * 0x80 + (b[4] / 2) as nat
  }

  lemma TimestampRoundTrip(prefix: byte, ts: nat)
    requires prefix < 16
    ensures ParseTimestamp(TimestampBytes(prefix, ts)) == ts % WRAP
  {
    Low15(ts);
    Low22(ts);
    Low30(ts);
    TopThree(ts);
    var b := TimestampBytes(prefix, ts);
    TopField(prefix, (ts / 0x4000_0000 % 8) as byte);
    assert b[2] / 2 == (ts / 0x8000 % 128) as byte;
    assert b[4] / 2 == (ts % 128) as byte;
  }

  lemma TopField(prefix: byte, top: byte)
    requires prefix < 16 && top < 8
    ensures (prefix * 16 + top * 2 + 1) / 2 % 8 == top
  {}

  lemma Low15(x: nat)
    ensures x % 0x8000 == x / 0x80 % 256 * 0x80 + x % 0x80
  {}

  lemma Low22(x: nat)
    ensures x % 0x40_0000 == x / 0x8000 % 128 * 0x8000 + x % 0x8000
  {}

  lemma Low30(x: nat)
    ensures x % 0x4000_0000 == x / 0x40_0000 % 256 * 0x40_0000 + x % 0x40_0000
  {}

  lemma TopThree(x: nat)
    ensures x % WRAP == x / 0x4000_0000 % 8 * 0x4000_0000 + x % 0x4000_0000
  {}

  /** appendPESHeader: the DTS is written only where it differs on the wire. */
  function HeaderBytes(streamId: byte, pts: int64, dts: int64): (s: seq<byte>)
    ensures 14 <= |s| <= 19
  {
    [0, 0, 1, streamId, 0, 0] +
    if Low33(pts) == Low33(dts) then
      [0x84, 0x80, 5] + TimestampBytes(2, Low33(pts))
    else
      [0x84, 0xC0, 10] + TimestampBytes(3, Low33(pts)) + TimestampBytes(1, Low33(dts))
  }

  function ParseHeader(buf: seq<byte>): Result<Header, Error> {
    if |buf| < 9 then Err(Truncated)
    else if buf[0] != 0 || buf[1] != 0 || buf[2] != 1 then Err(StartCode)
    else if buf[6] / 64 != 2 then Err(MarkerBits)
    else
      var packetLength := buf[4] as nat * 256 + buf[5] as nat;
      var headerLength := 9 + buf[8] as nat;
      if |buf| < headerLength then Err(Truncated)
      else if buf[7] / 64 == 2 then
        if buf[8] < 5 then Err(Truncated)
        else Ok(Header(buf[3], packetLength, headerLength, Some(ParseTimestamp(buf[9..14])), None))
      else if buf[7] / 64 == 3 then
        if buf[8] < 10 then Err(Truncated)
        else
          Ok(Header(buf[3], packetLength, headerLength,
                    Some(ParseTimestamp(buf[9..14])), Some(ParseTimestamp(buf[14..19]))))
      else Ok(Header(buf[3], packetLength, headerLength, None, None))
  }

  /** The decoding time a header carries: its DTS, or its PTS when it has no DTS. */
  function WireDts(h: Header): Ts33
    requires h.pts.Some?
  {
    if h.dts.Some? then h.dts.value else h.pts.value
  }

  /** A written header parses back to its own length and to both timestamps modulo 2^33. */
  lemma HeaderRoundTrip(streamId: byte, pts: int64, dts: int64, data: seq<byte>)
    ensures var h := ParseHeader(HeaderBytes(streamId, pts, dts) + data);
            && h.Ok?
            && h.value.streamId == streamId && h.value.packetLength == 0
            && h.value.headerLength == |HeaderBytes(streamId, pts, dts)|
            && h.value.pts == Some(Low33(pts))
            && WireDts(h.value) == Low33(dts)
  {
    hide TimestampBytes, ParseTimestamp;
    var p, d := Low33(pts), Low33(dts);
    var s := HeaderBytes(streamId, pts, dts) + data;
    if p == d {
      TimestampRoundTrip(2, p);
      assert s[9..14] == TimestampBytes(2, p);
    } else {
      TimestampRoundTrip(3, p);
      TimestampRoundTrip(1, d);
      assert s[9..14] == TimestampBytes(3, p);
      assert s[14..19] == TimestampBytes(1, d);
    }
  }

  /** extendTimestamp, in int64 arithmetic. */
  function Extend(reference: int64, ts33: Ts33): int64
  {
    if reference < 0 then ts33
    else
      var candidate := Wrap64(reference - reference % WRAP + ts33);
      if candidate < Wrap64(reference - WRAP / 2) then Wrap64(candidate + WRAP)
      else if candidate > Wrap64(reference + WRAP / 2) then Wrap64(candidate - WRAP)
      else candidate
  }

  const EXTENDABLE: int := INT64_LIMIT - WRAP / 2

  lemma Wrap64Congruent(x: int)
    requires -2 * INT64_LIMIT <= x < 2 * INT64_LIMIT
    ensures Wrap64(x) % WRAP == x % WRAP
  {
    var y := Wrap64(x);
    assert y == x || y == x + UINT64_LIMIT || y == x - UINT64_LIMIT;
  }

  /** Whatever the reference, the result keeps the 33 bits that were on the wire. */
  lemma ExtendCongruent(reference: int64, ts33: Ts33)
    ensures Low33(Extend(reference, ts33)) == ts33
  {
    hide Wrap64;
    if reference >= 0 {
      var q := reference / WRAP;
      assert reference - reference % WRAP == q * WRAP;
      var candidate := q * WRAP + ts33;
      assert -INT64_LIMIT <= candidate < INT64_LIMIT && candidate % WRAP == ts33;
      Wrap64Congruent(candidate + WRAP);
      Wrap64Congruent(candidate - WRAP);
      NextWrap(candidate);
    }
  }

  lemma NextWrap(x: int)
    ensures (x + WRAP) % WRAP == x % WRAP && (x - WRAP) % WRAP == x % WRAP
  {}

  lemma ExtendNear(reference: int64, ts33: Ts33)
    requires 0 <= reference < EXTENDABLE
    ensures -WRAP / 2 <= Extend(reference, ts33) - reference <= WRAP / 2
  {
    var q := reference / WRAP;
    assert reference - reference % WRAP == q * WRAP;
    assert q * WRAP + ts33 < INT64_LIMIT;
  }

  /** Unwrapping recovers a value less than 2^32 away from the reference exactly, if and only
      if the reference leaves room for half a wrap below the int64 limit. */
  lemma ExtendExact(reference: int64, value: int64)
    requires reference >= 0 && -WRAP / 2 < value - reference < WRAP / 2
    ensures Extend(reference, Low33(value)) == value <==> reference < EXTENDABLE
  {
    hide Wrap64;
    var q, v := reference / WRAP, value / WRAP;
    assert reference == q * WRAP + reference % WRAP;
    assert value == v * WRAP + value % WRAP;
    assert q * WRAP + Low33(value) < INT64_LIMIT;
    assert q - 1 <= v <= q + 1;
    if reference >= EXTENDABLE {
      assert q * WRAP == INT64_LIMIT - WRAP;
      WrapsAround(reference + WRAP / 2);
    }
  }

  /** At the limit not even the reference itself is recovered. */
  lemma UnwrapFails()
    ensures Extend(EXTENDABLE, Low33(EXTENDABLE)) != EXTENDABLE
  {
    ExtendExact(EXTENDABLE, EXTENDABLE);
  }

  lemma WrapsAround(x: int)
    requires INT64_LIMIT <= x < 2 * INT64_LIMIT
    ensures Wrap64(x) == x - UINT64_LIMIT
  {}

  /** The reader's running unwrap of the timestamps of one stream. */
  function Unwrap(reference: int64, wire: seq<Ts33>): seq<int64>
    decreases |wire|
  {
    if wire == [] then []
    else
      var value := Extend(reference, wire[0]);
      [value] + Unwrap(value, wire[1..])
  }

  /** A non-negative time that leaves room to extend from it, below 2^33 if it is the first
      and less than 2^32 from the one before otherwise. */
  predicate Follows(reference: int64, time: int64) {
    0 <= time < EXTENDABLE &&
    if reference < 0 then time < WRAP else -WRAP / 2 < time - reference < WRAP / 2
  }

  predicate Unwrappable(reference: int64, times: seq<int64>)
    decreases |times|
  {
    times == [] || (Follows(reference, times[0]) && Unwrappable(times[0], times[1..]))
  }

  function OnWire(times: seq<int64>): (wire: seq<Ts33>)
    ensures |wire| == |times|
  {
    seq(|times|, i requires 0 <= i < |times| => ParseTimestamp(TimestampBytes(2, Low33(times[i]))))
  }

  lemma ExtendFollows(reference: int64, time: int64)
    requires reference < EXTENDABLE && Follows(reference, time)
    ensures Extend(reference, Low33(time)) == time
  {
    if reference >= 0 {
      ExtendExact(reference, time);
    }
  }

  /** Masking to 33 bits, serializing, parsing and unwrapping gives every time back. */
  lemma {:induction false} UnwrapRun(reference: int64, times: seq<int64>)
    requires reference < EXTENDABLE && Unwrappable(reference, times)
    ensures Unwrap(reference, OnWire(times)) == times
    decreases |times|
  {
    hide Extend, Low33, TimestampBytes, ParseTimestamp, Follows;
    if times != [] {
      TimestampRoundTrip(2, Low33(times[0]));
      ExtendFollows(reference, times[0]);
      assert OnWire(times)[1..] == OnWire(times[1..]);
      FollowsBound(reference, times[0]);
      UnwrapRun(times[0], times[1..]);
    }
  }

  lemma FollowsBound(reference: int64, time: int64)
    requires Follows(reference, time)
    ensures 0 <= time < EXTENDABLE
  {}
}
