/** A file without an end: 2^32 pages of one stream bring the page counter round to 0, and Close
    then appends no end-of-stream page. */
module OggWrap {
  import opened Bits
  import opened Bytes
  import opened OggFile
  import opened OggMux
  import opened OggPage
  import opened OggPaging
  import opened OggRuns
  import opened OggStream
  import Opus
  import OpusTags

  const SSRC: uint32 := 1
  const SERIAL: uint32 := 7

  const NO_TAGS := OpusTags.Tags([], [])

  const CONFIG := TrackConfig(48000, Opus.ChannelMapping(0, 2, 1, 1, []), NO_TAGS, Some(SERIAL))

  /** One SILK frame of 10 ms. */
  const FRAME: seq<byte> := [0]

  const WRITE := Op.Write(0, Some(Rtp(SSRC, Opus(FRAME))))

  function AnyText(s: seq<byte>): bool { true }

  function WritesThenClose(n: nat): (ops: seq<Op>)
    ensures |ops| == n + 1
  {
    if n == 0 then [Finish] else [WRITE] + WritesThenClose(n - 1)
  }

  /** A track, n packets, and the end. */
  function WholeRun(n: nat): seq<Op> {
    [NewTrack(SSRC, CONFIG, 0)] + WritesThenClose(n)
  }

  ghost predicate Short(packets: seq<Packet>) {
    forall k :: 0 <= k < |packets| ==> |packets[k].payload| < MAX_PAYLOAD
  }

  /** Short packets take one page each. */
  lemma {:induction false} ShortPages(packets: seq<Packet>, serial: uint32, index: uint32)
    requires Short(packets)
    ensures |Logical(packets, serial, index)| == |packets|
    decreases |packets|
  {
    hide *;
    LogicalUnfold(packets, serial, index);
    if packets != [] {
      ShortFirst(packets, serial, index);
      ShortPages(packets[1..], serial, IndexAt(index, |PagesFor(packets[0], serial, index, true)|));
    }
  }

  lemma ShortFirst(packets: seq<Packet>, serial: uint32, index: uint32)
    requires packets != [] && Short(packets)
    ensures |PagesFor(packets[0], serial, index, true)| == 1 && Short(packets[1..])
  {
    assert |packets[0].payload| < MAX_PAYLOAD;
  }

  /** One open track, `count` short packets on it, its headers included. */
  ghost predicate OneShortTrack(st: State, count: nat) {
    && st.open && |st.streams| == 1 && st.streams[0].ssrc == SSRC
    && var packets := Start(st).streams[0].packets; |packets| == count && Short(packets)
  }

  lemma FrameCounts()
    ensures Opus.SampleCount(FRAME) == Ok(480) && |FRAME| < MAX_PAYLOAD
  {}

  lemma OneMore(st: State, count: nat)
    requires OneShortTrack(st, count)
    ensures Feasible(st, WRITE)
    ensures OneShortTrack(Step(st, WRITE, false, AnyText), count + 1) && Step(st, WRITE, false, AnyText).started
  {
    FrameCounts();
    hide Opus.SampleCount, PagesFor, NextIndex, HeaderPages, MAX_PAYLOAD, FRAME;
  }

  lemma {:induction false} ManyWrites(st: State, count: nat, n: nat)
    requires OneShortTrack(st, count)
    ensures FeasibleRun(st, WritesThenClose(n), false, AnyText)
    ensures var end := Run(st, WritesThenClose(n), false, AnyText);
            !end.open && end.started && |end.streams| == 1
            && |end.streams[0].packets| == count + n && Short(end.streams[0].packets)
    decreases n
  {
    hide *;
    WritesUnfold(n);
    if n == 0 {
      ClosedNow(st, count);
    } else {
      OneMore(st, count);
      var next := Step(st, WRITE, false, AnyText);
      ManyWrites(next, count + 1, n - 1);
      RunFrom(st, WRITE, WritesThenClose(n - 1));
    }
  }

  lemma WritesUnfold(n: nat)
    ensures WritesThenClose(n) == if n == 0 then [Finish] else [WRITE] + WritesThenClose(n - 1)
  {}

  lemma RunFrom(st: State, op: Op, ops: seq<Op>)
    requires Feasible(st, op) && FeasibleRun(Step(st, op, false, AnyText), ops, false, AnyText)
    ensures FeasibleRun(st, [op] + ops, false, AnyText)
    ensures Run(st, [op] + ops, false, AnyText) == Run(Step(st, op, false, AnyText), ops, false, AnyText)
  {
    hide Step, Feasible, AnyText;
    assert ([op] + ops)[1..] == ops && ([op] + ops)[0] == op;
  }

  lemma ClosedNow(st: State, count: nat)
    requires OneShortTrack(st, count)
    ensures FeasibleRun(st, [Finish], false, AnyText)
    ensures var end := Run(st, [Finish], false, AnyText);
            !end.open && end.started && |end.streams| == 1
            && |end.streams[0].packets| == count && Short(end.streams[0].packets)
  {
    hide PagesFor, NextIndex, HeaderPages, MAX_PAYLOAD;
    assert [Finish][1..] == [];
    var end := Close(st, false);
    assert FeasibleRun(end, [], false, AnyText) && Run(end, [], false, AnyText) == end;
    assert end.streams == Start(st).streams;
  }

  lemma TrackRegistered()
    ensures Feasible(NEW_FILE, NewTrack(SSRC, CONFIG, 0))
    ensures OneShortTrack(Step(NEW_FILE, NewTrack(SSRC, CONFIG, 0), false, AnyText), 2)
  {
    TagsAreShort();
    hide HeaderPages, Opus.IdHeader, OpusTags.HeaderBytes, OpusTags.ValidTags;
  }

  lemma TagsAreShort()
    ensures OpusTags.ValidTags(NO_TAGS, AnyText) && |OpusTags.HeaderBytes(NO_TAGS)| == 16
  {}

  /** A run of 2^32 - 2 packets ends with a stream of which no page ends it. */
  lemma EndLess(n: nat)
    requires n == UINT32_LIMIT - 2
    ensures FeasibleRun(NEW_FILE, WholeRun(n), false, AnyText)
    ensures var end := Run(NEW_FILE, WholeRun(n), false, AnyText);
            && !end.open && |end.streams| == 1
            && var pages := OfSerial(end.pages, end.streams[0].serial);
               |pages| == UINT32_LIMIT && forall j :: 0 <= j < |pages| ==> !Ends(pages[j])
  {
    TrackRegistered();
    var first := NewTrack(SSRC, CONFIG, 0);
    var st := Step(NEW_FILE, first, false, AnyText);
    ManyWrites(st, 2, n);
    hide *;
    WholeRunIs(n);
    RunFrom(NEW_FILE, first, WritesThenClose(n));
    var end := Run(NEW_FILE, WholeRun(n), false, AnyText);
    StructureOfRun(WholeRun(n), false, AnyText, true);
    FileOfRun(WholeRun(n), false, AnyText, true);
    var s := end.streams[0];
    ShortPages(s.packets, s.serial, 0);
    RoundIndex(s);
    FinalCount(s, end.open, false);
    NoneEnds(s, OfSerial(end.pages, s.serial), end.open);
  }

  lemma WholeRunIs(n: nat)
    ensures WholeRun(n) == [NewTrack(SSRC, CONFIG, 0)] + WritesThenClose(n)
  {}

  lemma RoundIndex(s: Stream)
    requires |Logical(s.packets, s.serial, 0)| == UINT32_LIMIT
    ensures NextIndex(s) == 0 && !EndMarked(s, false, false)
  {
    hide Logical;
  }

  lemma NoneEnds(s: Stream, pages: seq<Page>, stillOpen: bool)
    requires StreamShape(s, pages, stillOpen, false) && !EndMarked(s, stillOpen, false)
    ensures forall j :: 0 <= j < |pages| ==> !Ends(pages[j])
  {
    hide Ends, Begins, Completes, GranuleAfter, PacketAt, IndexAt, EndMarked, Reassemble, Segments, Payloads;
    forall j | 0 <= j < |pages|
      ensures !Ends(pages[j])
    {
      assert PageShape(s, pages, j, false, false);
    }
  }
}
