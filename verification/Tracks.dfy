/** mpegts/track.go: the elementary streams of a program and their stream types (Table 2-34 of
    ISO/IEC 13818-1). */
module Tracks {
  import opened Bits
  import opened Bytes
  import opened H26x
  import opened Psi

  datatype Track = Track(pid: uint16, codec: Codec)

  function StreamType(codec: Codec): byte {
    if codec == H264 then 0x1B else 0x24
  }

  /** None for a stream type that is not supported. */
  function CodecOf(streamType: byte): Option<Codec> {
    if streamType == 0x1B then Some(H264) else if streamType == 0x24 then Some(H265) else None
  }

  /** The supported streams of a program map table, in its order. */
  function TracksOf(streams: seq<PmtStream>): seq<Track> {
    if streams == [] then []
    else
      var codec := CodecOf(streams[0].streamType);
      (if codec.Some? then [Track(streams[0].pid, codec.value)] else []) + TracksOf(streams[1..])
  }

  function StreamsOf(tracks: seq<Track>): (s: seq<PmtStream>)
    ensures |s| == |tracks|
  {
    seq(|tracks|, i requires 0 <= i < |tracks| => PmtStream(StreamType(tracks[i].codec), tracks[i].pid))
  }

  /** Announcing tracks in a table and selecting the supported streams from it changes nothing. */
  lemma {:induction false} TracksRoundTrip(tracks: seq<Track>)
    ensures TracksOf(StreamsOf(tracks)) == tracks
  {
    if tracks != [] {
      assert StreamsOf(tracks)[1..] == StreamsOf(tracks[1..]);
      TracksRoundTrip(tracks[1..]);
    }
  }

  /** The stream a PID belongs to: the last one announced with it, or -1. */
  function LastIndex(tracks: seq<Track>, pid: uint16): (i: int)
    ensures -1 <= i < |tracks|
    ensures i >= 0 ==> tracks[i].pid == pid
    ensures forall j :: i < j < |tracks| ==> tracks[j].pid != pid
  {
    if tracks == [] then -1
    else if tracks[|tracks| - 1].pid == pid then |tracks| - 1
    else LastIndex(tracks[..|tracks| - 1], pid)
  }
}
