/** What the Ogg writer knows about Opus: packet durations (section 3.1 of RFC 6716) and the
    OpusHead packet (section 5.1 of RFC 7845). */
module Opus {
  import opened Bits
  import opened Bytes
  import opened OggPage

  datatype Error = InvalidPacket

  const MAX_SAMPLES: nat := 5760   // 120 ms at 48 kHz

  /** opusSamplesPerFrame. */
  function SamplesPerFrame(toc: byte): nat {
    if toc / 0x80 == 1 then Doubled(48000, toc / 8 % 4) / 400
    else if toc / 0x20 % 4 == 3 then if toc / 8 % 2 == 1 then 48000 / 50 else 48000 / 100
    else if toc / 8 % 4 == 3 then 48000 * 60 / 1000
    else Doubled(48000, toc / 8 % 4) / 100
  }

  /** x << n. */
  function Doubled(x: nat, n: byte): nat
    requires n < 4
  {
    if n == 0 then x else if n == 1 then 2 * x else if n == 2 then 4 * x else 8 * x
  }

  /** The frame duration of each of the 32 configurations, in samples at 48 kHz (Table 2 of RFC
      6716): 10 to 60 ms for SILK, 10 or 20 ms for hybrid and 2.5 to 20 ms for CELT. */
  function FrameDuration(config: nat): nat {
    if config < 12 then OneOf(config % 4, 480, 960, 1920, 2880)
    else if config < 16 then OneOf(config % 2, 480, 960, 480, 960)
    else OneOf(config % 4, 120, 240, 480, 960)
  }

  function OneOf(i: nat, a: nat, b: nat, c: nat, d: nat): nat {
    if i == 0 then a else if i == 1 then b else if i == 2 then c else d
  }

  /** The bit tests agree with the table of the standard. */
  lemma DurationsAgree(toc: byte)
    ensures SamplesPerFrame(toc) == FrameDuration(toc as nat / 8)
  {}

  /** opusPacketFrameCount. */
  function FrameCount(payload: seq<byte>): Result<byte, Error>
    requires payload != []
  {
    var code := payload[0] % 4;
    if code == 0 then Ok(1)
    else if code < 3 then Ok(2)
    else if |payload| < 2 || payload[1] % 0x40 == 0 then Err(InvalidPacket)
    else Ok(payload[1] % 0x40)
  }

  /** opusPacketSampleCount. */
  function SampleCount(payload: seq<byte>): (r: Result<nat, Error>)
    ensures r.Ok? ==> payload != [] && 0 < r.value <= MAX_SAMPLES
  {
    if payload == [] then Err(InvalidPacket)
    else
      match FrameCount(payload)
      case Err(e) => Err(e)
      case Ok(frames) =>
        var n := SamplesPerFrame(payload[0]) * frames as nat;
        if n > MAX_SAMPLES then Err(InvalidPacket) else Ok(n)
  }

  /** Accepted packets last a multiple of 2.5 ms, the shortest frame. */
  lemma WholeFrames(payload: seq<byte>)
    requires SampleCount(payload).Ok?
    ensures SampleCount(payload).value % 120 == 0
  {
    DurationsAgree(payload[0]);
    var d := SamplesPerFrame(payload[0]);
    assert d % 120 == 0;
    Multiple(d / 120, FrameCount(payload).value as nat);
  }

  lemma Multiple(k: nat, n: nat)
    ensures (120 * k) * n % 120 == 0
  {
    assert (120 * k) * n == 120 * (k * n);
  }

  // OpusHead.

  datatype ChannelMapping = ChannelMapping(
    family: byte, channelCount: byte, streamCount: byte, coupledCount: byte, mapping: seq<byte>)

  /** What the channel options guarantee: family 0 has no mapping table, the others one entry a channel. */
  predicate Consistent(m: ChannelMapping) {
    |m.mapping| == if m.family == 0 then 0 else m.channelCount as nat
  }

  type Mapping = m: ChannelMapping | Consistent(m) witness ChannelMapping(0, 2, 1, 1, [])

  const HEAD_MAGIC: seq<byte> := [0x4F, 0x70, 0x75, 0x73, 0x48, 0x65, 0x61, 0x64]   // OpusHead
  const PRE_SKIP: int := 3840

  /** buildIDHeader. */
  function IdHeader(sampleRate: uint32, m: Mapping): (s: seq<byte>)
    ensures 19 <= |s| <= 276
  {
    HEAD_MAGIC + [1, m.channelCount] + Le16(PRE_SKIP) + Le32(sampleRate) + [0, 0, m.family] +
    if m.family == 0 then [] else [m.streamCount, m.coupledCount] + m.mapping
  }

  datatype Head = Head(
    version: byte, channels: byte, preSkip: int, sampleRate: uint32, outputGain: int, family: byte,
    streamCount: byte, coupledCount: byte, mapping: seq<byte>)

  datatype HeadError = BadLength | BadSignature | UnsupportedFamily

  /** ParseOpusHead of oggreader/oggreader.go. */
  function ParseHead(p: seq<byte>): Result<Head, HeadError> {
    if |p| < 19 then Err(BadLength)
    else if p[..8] != HEAD_MAGIC then Err(BadSignature)
    else
      var h := Head(p[8], p[9], FromLe16(p[10..12]), FromLe32(p[12..16]), FromLe16(p[16..18]), p[18], 0, 0, []);
      if h.family == 0 then if |p| != 19 then Err(BadLength) else Ok(h)
      else if h.family == 1 || h.family == 2 || h.family == 255 then
        if |p| != 21 + h.channels as nat then Err(BadLength)
        else Ok(h.(streamCount := p[19], coupledCount := p[20], mapping := p[21..]))
      else Err(UnsupportedFamily)
  }

  /** A written OpusHead is read back with all the fields that family 0 leaves implicit at zero. */
  lemma HeadRoundTrip(sampleRate: uint32, m: Mapping)
    requires m.family in [0, 1, 2, 255]
    ensures ParseHead(IdHeader(sampleRate, m)) ==
            Ok(Head(1, m.channelCount, PRE_SKIP, sampleRate, 0, m.family, if m.family == 0 then 0 else m.streamCount,
                    if m.family == 0 then 0 else m.coupledCount, m.mapping))
  {
    hide Le16, Le32, FromLe16, FromLe32;
    var p := IdHeader(sampleRate, m);
    var front, gain := HEAD_MAGIC + [1, m.channelCount], [0, 0, m.family];
    var table := if m.family == 0 then [] else [m.streamCount, m.coupledCount] + m.mapping;
    Le16Inverse(PRE_SKIP, Le16(PRE_SKIP));
    Le32Inverse(sampleRate, Le32(sampleRate));
    NoGain();
    Pieces(front, Le16(PRE_SKIP), Le32(sampleRate), gain, table);
    assert p[..10][..8] == p[..8];
    assert p[16..19][..2] == p[16..18] == [0, 0];
    assert p[16..19][2] == p[18];
    if m.family != 0 {
      assert p[19..][2..] == p[21..] == m.mapping;
    }
  }

  lemma NoGain()
    ensures FromLe16([0, 0]) == 0
  {}
}
