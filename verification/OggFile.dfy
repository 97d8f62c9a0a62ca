/** The finished file: every logical bitstream numbered, begun and ended once, with its granule
    positions, and everything in it read back. */
module OggFile {
  import opened Bits
  import opened Bytes
  import opened OggMux
  import opened OggPage
  import opened OggPaging
  import opened OggRuns
  import opened OggStream
  import OggReader
  import Opus

  function MarkEnd(pages: seq<Page>): (r: seq<Page>)
    ensures |r| == |pages|
  {
    if pages == [] then [] else pages[..|pages| - 1] + [Marked(pages[|pages| - 1])]
  }

  /** The pages of a stream, with its end marked in one of the two ways once the file is closed. */
  function FinalPages(s: Stream, stillOpen: bool, seekable: bool): seq<Page> {
    var pages := Logical(s.packets, s.serial, 0);
    if stillOpen then pages else if seekable then MarkEnd(pages) else pages + EosPages(s)
  }

  lemma OfPage(p: Page, serial: uint32)
    ensures OfSerial([p], serial) == if p.serial == serial then [p] else []
  {
    assert [p][1..] == [];
  }

  /** Rewriting the last page of one stream leaves the others alone. */
  lemma {:induction false} OfMarkLast(pages: seq<Page>, own: uint32, serial: uint32)
    ensures OfSerial(MarkLast(pages, own), serial) ==
            if own == serial then MarkEnd(OfSerial(pages, serial)) else OfSerial(pages, serial)
    decreases |pages|
  {
    if pages != [] {
      var n := |pages| - 1;
      var before, last := pages[..n], pages[n];
      assert pages == before + [last];
      OfMarkLast(before, own, serial);
      hide OfSerial;
      OfSerialConcat(before, [last], serial);
      OfSerialConcat(before, [Marked(last)], serial);
      OfSerialConcat(MarkLast(before, own), [last], serial);
      OfPage(last, serial);
      OfPage(Marked(last), serial);
      assert OfSerial(before, serial) + [] == OfSerial(before, serial);
    }
  }

  lemma {:induction false} OfMarkAllOther(pages: seq<Page>, streams: seq<Stream>, serial: uint32)
    requires !SerialInUse(streams, serial)
    ensures OfSerial(MarkAll(pages, streams), serial) == OfSerial(pages, serial)
    decreases |streams|
  {
    if streams != [] {
      hide OfSerial, MarkLast;
      var n := |streams| - 1;
      assert streams[n].serial != serial;
      OfMarkAllOther(pages, streams[..n], serial);
      OfMarkLast(MarkAll(pages, streams[..n]), streams[n].serial, serial);
    }
  }

  lemma {:induction false} OfMarkAll(pages: seq<Page>, streams: seq<Stream>, i: nat)
    requires DistinctSerials(streams) && i < |streams|
    ensures OfSerial(MarkAll(pages, streams), streams[i].serial) == MarkEnd(OfSerial(pages, streams[i].serial))
    decreases |streams|
  {
    hide OfSerial, MarkLast, MarkEnd;
    var n, serial := |streams| - 1, streams[i].serial;
    OfMarkLast(MarkAll(pages, streams[..n]), streams[n].serial, serial);
    if i == n {
      OfMarkAllOther(pages, streams[..n], serial);
    } else {
      OfMarkAll(pages, streams[..n], i);
    }
  }

  lemma EosPartsOf(streams: seq<Stream>)
    ensures PartsOf(EosParts(streams), streams)
  {
    hide NextIndex;
  }

  lemma ClosedSeparated(last: State, seekable: bool, i: nat)
    requires Invariant(last) && last.open && last.started && i < |last.streams|
    ensures OfSerial(Close(last, seekable).pages, last.streams[i].serial) == FinalPages(last.streams[i], false, seekable)
  {
    assert DistinctSerials(last.streams) && Separated(last);
    hide Invariant, OfSerial, Logical, EosPages, MarkAll, MarkEnd, Progress, KnownSerials;
    if seekable {
      OfMarkAll(last.pages, last.streams, i);
    } else {
      EosPartsOf(last.streams);
      OfParts(EosParts(last.streams), last.streams, i);
      OfSerialConcat(last.pages, Flatten(EosParts(last.streams)), last.streams[i].serial);
    }
  }

  /** A page up to its EOS flag. */
  ghost predicate SameButEos(a: Page, b: Page) { a == b || a == Marked(b) }

  lemma {:induction false} MarkLastPages(pages: seq<Page>, serial: uint32)
    ensures forall k :: 0 <= k < |pages| ==> SameButEos(MarkLast(pages, serial)[k], pages[k])
    decreases |pages|
  {
    if pages != [] {
      MarkLastPages(pages[..|pages| - 1], serial);
    }
  }

  lemma MarkedTwice(p: Page)
    ensures Marked(Marked(p)) == Marked(p)
  {}

  lemma {:induction false} MarkAllPages(pages: seq<Page>, streams: seq<Stream>)
    ensures forall k :: 0 <= k < |pages| ==> SameButEos(MarkAll(pages, streams)[k], pages[k])
    decreases |streams|
  {
    if streams != [] {
      hide MarkLast, Marked;
      var before := MarkAll(pages, streams[..|streams| - 1]);
      MarkAllPages(pages, streams[..|streams| - 1]);
      MarkLastPages(before, streams[|streams| - 1].serial);
      forall k | 0 <= k < |pages|
        ensures SameButEos(MarkAll(pages, streams)[k], pages[k])
      {
        MarkedTwice(pages[k]);
        assert SameButEos(before[k], pages[k]);
      }
    }
  }

  lemma EosWellFormed(s: Stream)
    ensures AllWellFormed(EosPages(s))
  {
    hide NextIndex;
  }

  lemma ClosedWellFormed(last: State, seekable: bool)
    requires Invariant(last) && last.started
    ensures AllWellFormed(Close(last, seekable).pages)
  {
    assert AllWellFormed(last.pages);
    hide Invariant, EosPages, MarkAll, Sum;
    if seekable {
      MarkAllPages(last.pages, last.streams);
    } else {
      forall i | 0 <= i < |last.streams|
        ensures AllWellFormed(EosParts(last.streams)[i])
      {
        EosWellFormed(last.streams[i]);
      }
      hide AllWellFormed;
      PartsWellFormed(EosParts(last.streams));
      ConcatWellFormed(last.pages, Flatten(EosParts(last.streams)));
    }
  }

  // The pages of one stream, one by one.

  predicate Completes(p: Page) {
    p.segments != [] && p.segments[|p.segments| - 1] < 255
  }

  /** How many packets are completed on the pages. */
  function Completed(pages: seq<Page>): nat {
    if pages == [] then 0 else (if Completes(pages[0]) then 1 else 0) + Completed(pages[1..])
  }

  lemma {:induction false} CompletedConcat(a: seq<Page>, b: seq<Page>)
    ensures Completed(a + b) == Completed(a) + Completed(b)
  {
    if a == [] {
      assert a + b == b;
    } else {
      assert (a + b)[1..] == a[1..] + b;
      CompletedConcat(a[1..], b);
    }
  }

  lemma {:induction false} PacketCompletes(p: Packet, serial: uint32, index: uint32, first: bool, j: nat)
    requires j < |PagesFor(p, serial, index, first)|
    ensures Completed(PagesFor(p, serial, index, first)[..j]) == 0
    ensures Completed(PagesFor(p, serial, index, first)) == 1
    decreases |p.payload|
  {
    PagesUnfold(p, serial, index, first);
    var pages := PagesFor(p, serial, index, first);
    hide PagesFor, PacketPageType, IndexAt;
    if |p.payload| >= MAX_PAYLOAD {
      PacketCompletes(p.(payload := p.payload[MAX_PAYLOAD..]), serial, IndexAt(index, 1), false, if j > 0 then j - 1 else 0);
      assert j > 0 ==> pages[..j][1..] == pages[1..][..j - 1];
    }
  }

  /** The j-th page of a stream is page m of packet k, and k packets end before it. */
  lemma {:induction false} PageOfStream(packets: seq<Packet>, serial: uint32, index: uint32, j: nat) returns (k: nat, m: nat)
    requires j < |Logical(packets, serial, index)|
    ensures k < |packets| && m <= |packets[k].payload| / MAX_PAYLOAD && m <= j && (k == 0 ==> j == m) && (k > 0 ==> m < j)
    ensures Logical(packets, serial, index)[j] == NthPage(packets[k], serial, IndexAt(index, j - m), true, m)
    ensures k == Completed(Logical(packets, serial, index)[..j])
    decreases |packets|
  {
    hide *;
    LogicalUnfold(packets, serial, index);
    var all := Logical(packets, serial, index);
    var pages := PagesFor(packets[0], serial, index, true);
    PageCount(packets[0], serial, index);
    if j < |pages| {
      k, m := 0, j;
      PagesNumbered(packets[0], serial, index, true, j);
      IndexNext(index, 0);
      PacketCompletes(packets[0], serial, index, true, j);
      assert all[..j] == pages[..j];
    } else {
      var next, rest := IndexAt(index, |pages|), j - |pages|;
      var later := Logical(packets[1..], serial, next);
      k, m := PageOfStream(packets[1..], serial, next, rest);
      assert all[j] == later[rest] && packets[1..][k] == packets[k + 1];
      IndexAdds(index, |pages|, rest - m);
      PacketCompletes(packets[0], serial, index, true, 0);
      assert all[..j] == pages + later[..rest];
      CompletedConcat(pages, later[..rest]);
      k := k + 1;
    }
  }

  lemma PageCount(p: Packet, serial: uint32, index: uint32)
    ensures 0 < |PagesFor(p, serial, index, true)| == |p.payload| / MAX_PAYLOAD + 1
  {}

  predicate Begins(p: Page) { p.headerType / 2 % 2 == 1 }

  predicate Ends(p: Page) { HasEos(p.headerType) }

  /** The granule position of a page: that of the packet it completes, if it completes one. */
  function GranuleAfter(s: Stream, completed: nat): uint64
    requires completed < |s.packets|
  {
    if completed < 2 then 0 else Duration(s.packets[2..][..completed - 1]) % UINT64_LIMIT
  }

  ghost predicate PageOk(s: Stream, p: Page, j: nat, completed: nat, last: bool) {
    && p.serial == s.serial && p.index == IndexAt(0, j)
    && (Begins(p) <==> j == 0) && (Ends(p) <==> last)
    && completed < |s.packets| && p.granule == if Completes(p) then GranuleAfter(s, completed) else NO_GRANULE
  }

  /** Before the end is marked. */
  lemma OpenPage(s: Stream, j: nat)
    requires StreamOk(s) && |s.id| < MAX_PAYLOAD && j < |Logical(s.packets, s.serial, 0)|
    ensures var pages := Logical(s.packets, s.serial, 0);
            PageOk(s, pages[j], j, Completed(pages[..j]), false)
  {
    hide Logical, Completed, IndexAt, NthPage, Duration;
    var k, m := PageOfStream(s.packets, s.serial, 0, j);
    NthPageParts(s.packets[k], s.serial, IndexAt(0, j - m), m);
    IndexAdds(0, j - m, m);
    if k > 1 {
      assert s.packets[k] == s.packets[2..][k - 2];
    }
  }

  lemma NthPageParts(p: Packet, serial: uint32, index: uint32, m: nat)
    requires m <= |p.payload| / MAX_PAYLOAD
    ensures var page := NthPage(p, serial, index, true, m);
            && page.serial == serial && page.index == IndexAt(index, m)
            && (Completes(page) <==> m == |p.payload| / MAX_PAYLOAD)
            && page.granule == (if Completes(page) then p.granule else NO_GRANULE)
            && page.headerType == PacketPageType(p.headerType, m == 0, Completes(page))
  {
    hide IndexAt, PacketPageType;
  }

  lemma {:induction false} AllCompleted(packets: seq<Packet>, serial: uint32, index: uint32)
    ensures Completed(Logical(packets, serial, index)) == |packets|
    ensures |Logical(packets, serial, index)| >= |packets|
    decreases |packets|
  {
    hide *;
    LogicalUnfold(packets, serial, index);
    if packets == [] {
      NoneCompleted();
    } else {
      var pages := PagesFor(packets[0], serial, index, true);
      PageCount(packets[0], serial, index);
      PacketCompletes(packets[0], serial, index, true, 0);
      AllCompleted(packets[1..], serial, IndexAt(index, |pages|));
      CompletedConcat(pages, Logical(packets[1..], serial, IndexAt(index, |pages|)));
    }
  }

  lemma NoneCompleted()
    ensures Completed([]) == 0
  {}

  /** Whether the file of a stream has an EOS page: where pages cannot be rewritten it lacks one
      exactly when the page counter has come round to 0. */
  predicate EndMarked(s: Stream, stillOpen: bool, seekable: bool) {
    !stillOpen && (seekable || NextIndex(s) != 0)
  }

  /** Every page of a stream is numbered, the first one and no other begins it, the last one and
      no other ends it, and a page that completes a packet carries the running sum of durations. */
  lemma StreamPage(s: Stream, stillOpen: bool, seekable: bool, j: nat)
    requires StreamOk(s) && |s.id| < MAX_PAYLOAD && j < |FinalPages(s, stillOpen, seekable)|
    ensures var pages := FinalPages(s, stillOpen, seekable);
            var last := EndMarked(s, stillOpen, seekable) && j == |pages| - 1;
            if last && !seekable then pages[j] == Page(ENDING, s.granule, s.serial, IndexAt(0, j), [], [])
            else PageOk(s, pages[j], j, Completed(Logical(s.packets, s.serial, 0)[..j]), last)
  {
    hide Logical, Completed, GranuleAfter, WithEos;
    var pages := Logical(s.packets, s.serial, 0);
    if j < |pages| {
      OpenPage(s, j);
      MarkedType(pages[j].headerType);
    }
  }

  /** A closed stream ends exactly once, or not at all if its end could not be marked. */
  lemma EndsOnce(s: Stream, stillOpen: bool, seekable: bool)
    requires StreamOk(s) && |s.id| < MAX_PAYLOAD
    ensures var pages := FinalPages(s, stillOpen, seekable);
            && |pages| >= |s.packets| >= 2
            && (Ends(pages[|pages| - 1]) <==> EndMarked(s, stillOpen, seekable))
            && forall j :: 0 <= j < |pages| - 1 ==> !Ends(pages[j])
  {
    var pages := FinalPages(s, stillOpen, seekable);
    AllCompleted(s.packets, s.serial, 0);
    hide StreamOk, Logical, EndMarked, Completed, EosPages;
    forall j | 0 <= j < |pages|
      ensures Ends(pages[j]) <==> EndMarked(s, stillOpen, seekable) && j == |pages| - 1
    {
      StreamPage(s, stillOpen, seekable, j);
    }
  }

  lemma MarkedType(headerType: byte)
    ensures HasEos(WithEos(headerType)) && WithEos(headerType) / 2 % 2 == headerType / 2 % 2
  {
    var x := headerType as int;
    HalfAdded(x);
    QuarterAdded(x);
    Parity(x / 4);
    Parity(x / 2);
    Parity(x / 2 + 1);
  }

  lemma HalfAdded(x: nat)
    ensures (x + 4) / 2 == x / 2 + 2
  {}

  lemma QuarterAdded(x: nat)
    ensures (x + 4) / 4 == x / 4 + 1
  {}

  lemma Parity(x: nat)
    ensures (x + 1) % 2 == 1 - x % 2
  {}

  lemma {:induction false} MarkedPieces(pages: seq<Page>)
    ensures Segments(MarkEnd(pages)) == Segments(pages) && Payloads(MarkEnd(pages)) == Payloads(pages)
  {
    if pages != [] {
      var n := |pages| - 1;
      assert pages == pages[..n] + [pages[n]];
      PiecesConcat(pages[..n], [pages[n]]);
      PiecesConcat(pages[..n], [Marked(pages[n])]);
      assert [pages[n]][1..] == [] && [Marked(pages[n])][1..] == [];
    }
  }

  lemma EosPieces(s: Stream)
    ensures Segments(EosPages(s)) == [] && Payloads(EosPages(s)) == []
  {
    hide NextIndex;
    var p := Page(ENDING, s.granule, s.serial, NextIndex(s), [], []);
    assert [p][1..] == [];
  }

  /** However the end is marked, a stream's packets come out of its pages as they went in. */
  lemma FinalReassembled(s: Stream, stillOpen: bool, seekable: bool)
    ensures var pages := FinalPages(s, stillOpen, seekable);
            Reassemble(Segments(pages), Payloads(pages), []) == PacketPayloads(s.packets)
  {
    hide Logical, EosPages, MarkEnd, Segments, Payloads, Reassemble;
    var pages := Logical(s.packets, s.serial, 0);
    StreamReassembled(s.packets, s.serial, 0);
    MarkedPieces(pages);
    EosPieces(s);
    PiecesConcat(pages, EosPages(s));
    assert Segments(pages) + [] == Segments(pages) && Payloads(pages) + [] == Payloads(pages);
  }

  // The file.

  /** The OpusHead pages: one a stream, each its first and marked as such. */
  lemma {:induction false} IdPage(streams: seq<Stream>, i: nat)
    requires ShortIds(streams) && i < |streams|
    ensures |Flatten(IdParts(streams))| == |streams|
    ensures Flatten(IdParts(streams))[i] ==
            Page(BEGINNING, 0, streams[i].serial, 0, Lacing(|streams[i].id|), streams[i].id)
    decreases |streams|
  {
    var parts := IdParts(streams);
    assert |streams[0].id| < MAX_PAYLOAD;
    PagesUnfold(IdPacket(streams[0]), streams[0].serial, 0, true);
    hide PagesFor, Lacing;
    assert streams[0].id[..|streams[0].id|] == streams[0].id;
    assert parts[1..] == IdParts(streams[1..]);
    if |streams| > 1 {
      IdPage(streams[1..], if i > 0 then i - 1 else 0);
    }
  }

  ghost predicate HeadersFirst(st: State) {
    var headers := HeaderPages(st.streams);
    |headers| <= |st.pages| && forall k :: 0 <= k < |headers| ==> SameButEos(st.pages[k], headers[k])
  }

  /** Any run of calls on a new writer: the serials are distinct and no others occur; all OpusHead
      pages come first, then all OpusTags pages; each stream's pages are those of its two headers
      and its audio packets with its end marked; and the file reads back page by page, each
      stream's packets unchanged. */
  lemma FileOfRun(ops: seq<Op>, seekable: bool, utf8: seq<byte> -> bool, check: bool)
    requires FeasibleRun(NEW_FILE, ops, seekable, utf8)
    ensures var end := Run(NEW_FILE, ops, seekable, utf8);
            && DistinctSerials(end.streams) && ShortIds(end.streams) && KnownSerials(end)
            && (end.started ==> HeadersFirst(end))
            && ReadAll(AllBytes(end.pages), check) == (SeenAs(end.pages), OggReader.Eof)
            && forall i :: 0 <= i < |end.streams| ==>
                 var s := end.streams[i];
                 var pages := OfSerial(end.pages, s.serial);
                 && (end.started ==> StreamOk(s)) && pages == FinalPages(s, end.open, seekable)
                 && Reassemble(Segments(pages), Payloads(pages), []) == PacketPayloads(s.packets)
  {
    NewFileInvariant();
    var last := RunInvariant(NEW_FILE, ops, seekable, utf8);
    var end := Run(NEW_FILE, ops, seekable, utf8);
    hide *;
    EndFacts(last, end, seekable);
    PagesReadBack(end.pages, check);
    forall i | 0 <= i < |end.streams|
      ensures var s := end.streams[i];
              var pages := OfSerial(end.pages, s.serial);
              && (end.started ==> StreamOk(s)) && pages == FinalPages(s, end.open, seekable)
              && Reassemble(Segments(pages), Payloads(pages), []) == PacketPayloads(s.packets)
    {
      EndStream(last, end, seekable, i);
      FinalReassembled(end.streams[i], end.open, seekable);
    }
  }

  lemma EndFacts(last: State, end: State, seekable: bool)
    requires Invariant(last) && last.open
    requires if end.open then end == last else last.started && end == Close(last, seekable)
    ensures DistinctSerials(end.streams) && ShortIds(end.streams) && KnownSerials(end) && AllWellFormed(end.pages)
    ensures end.started ==> HeadersFirst(end)
  {
    if !end.open {
      ClosedWellFormed(last, seekable);
      ClosedKnown(last, seekable);
      MarkAllPages(last.pages, last.streams);
    }
    hide AllWellFormed, KnownSerials, HeaderPages, MarkAll, EosPages, Marked, Separated;
  }

  lemma ClosedKnown(last: State, seekable: bool)
    requires Invariant(last) && last.started
    ensures last.open ==> KnownSerials(Close(last, seekable))
  {
    assert KnownSerials(last);
    EosPartsOf(last.streams);
    MarkAllPages(last.pages, last.streams);
    hide Invariant, SerialInUse, MarkAll, EosPages, PartsOf;
    var more := Flatten(EosParts(last.streams));
    forall k | 0 <= k < |more|
      ensures SerialInUse(last.streams, more[k].serial)
    {
      PartsKnown(EosParts(last.streams), last.streams, k);
    }
  }

  lemma EndStream(last: State, end: State, seekable: bool, i: nat)
    requires Invariant(last) && last.open && i < |end.streams|
    requires if end.open then end == last else last.started && end == Close(last, seekable)
    ensures end.started ==> StreamOk(end.streams[i])
    ensures OfSerial(end.pages, end.streams[i].serial) == FinalPages(end.streams[i], end.open, seekable)
  {
    if !end.open {
      ClosedSeparated(last, seekable, i);
    }
    hide StreamOk, HeaderPages, MarkAll, EosPages, OfSerial, Logical;
  }

  // All of it in one statement.

  /** The pages of one stream: numbered, begun once, ended once if the end could be marked, with
      the running sums as granule positions, and made of the stream's packets. */
  ghost predicate StreamShape(s: Stream, pages: seq<Page>, stillOpen: bool, seekable: bool) {
    && |pages| >= |s.packets| >= 2
    && (forall j :: 0 <= j < |pages| ==> PageShape(s, pages, j, EndMarked(s, stillOpen, seekable), seekable))
    && Reassemble(Segments(pages), Payloads(pages), []) == PacketPayloads(s.packets)
  }

  ghost predicate PageShape(s: Stream, pages: seq<Page>, j: nat, ended: bool, seekable: bool)
    requires j < |pages|
  {
    if ended && !seekable && j == |pages| - 1 then pages[j] == Page(ENDING, s.granule, s.serial, IndexAt(0, j), [], [])
    else PageOk(s, pages[j], j, PacketAt(s, j), ended && j == |pages| - 1)
  }

  /** The number of the packet to which the j-th page of a stream belongs. */
  function PacketAt(s: Stream, j: nat): nat {
    if j <= |Logical(s.packets, s.serial, 0)| then Completed(Logical(s.packets, s.serial, 0)[..j]) else 0
  }

  lemma FinalShape(s: Stream, stillOpen: bool, seekable: bool)
    requires StreamOk(s) && |s.id| < MAX_PAYLOAD
    ensures StreamShape(s, FinalPages(s, stillOpen, seekable), stillOpen, seekable)
  {
    var pages := FinalPages(s, stillOpen, seekable);
    EndsOnce(s, stillOpen, seekable);
    FinalReassembled(s, stillOpen, seekable);
    hide StreamOk, Logical, Completed, PageOk, EosPages, Segments, Payloads, Reassemble, NextIndex, Ends;
    forall j | 0 <= j < |pages|
      ensures PageShape(s, pages, j, EndMarked(s, stillOpen, seekable), seekable)
    {
      StreamPage(s, stillOpen, seekable, j);
    }
  }

  /** How many pages the two headers of a stream take. */
  function HeaderCount(s: Stream): nat {
    |Logical(Begun(s).packets, s.serial, 0)|
  }

  /** Behind the header pages of the file, a stream has its remaining pages and no others: those of
      its audio packets, which are number 2 and on, and the empty page at its end. */
  ghost predicate AudioBehind(st: State, s: Stream, pages: seq<Page>, ended: bool, seekable: bool) {
    var h := HeaderCount(s);
    && |HeaderPages(st.streams)| <= |st.pages| && h <= |pages|
    && OfSerial(st.pages[|HeaderPages(st.streams)|..], s.serial) == pages[h..]
    && forall j :: h <= j < |pages| ==> (ended && !seekable && j == |pages| - 1) || PacketAt(s, j) >= 2
  }

  lemma {:induction false} SameSerialCount(a: seq<Page>, b: seq<Page>, serial: uint32)
    requires |a| == |b| && forall k :: 0 <= k < |a| ==> SameButEos(a[k], b[k])
    ensures |OfSerial(a, serial)| == |OfSerial(b, serial)|
  {
    if a != [] {
      assert SameButEos(a[0], b[0]);
      SameSerialCount(a[1..], b[1..], serial);
    }
  }

  lemma HeadersThenAudio(s: Stream)
    requires StreamOk(s) && |s.id| < MAX_PAYLOAD
    ensures Logical(s.packets, s.serial, 0) ==
            Logical(Begun(s).packets, s.serial, 0) + Logical(s.packets[2..], s.serial, IndexAt(0, HeaderCount(s)))
  {
    hide *;
    var packets, index := s.packets, IndexAt(0, 0);
    PacketsBegin(s);
    BegunLogical(s);
    var id, tags := PagesFor(IdPacket(s), s.serial, 0, true), PagesFor(TagsPacket(s), s.serial, 1, true);
    OneId(s);
    LogicalUnfold(packets, s.serial, 0);
    LogicalUnfold(packets[1..], s.serial, 1);
    assert packets[1..][1..] == packets[2..];
    IndexAdds(0, 1, |tags|);
    ConcatAssoc(id, tags, Logical(packets[2..], s.serial, IndexAt(1, |tags|)));
    HeaderCountIs(s);
  }

  lemma PacketsBegin(s: Stream)
    requires StreamOk(s)
    ensures |s.packets| >= 2 && s.packets[0] == IdPacket(s) && s.packets[1..][0] == TagsPacket(s)
    ensures IndexAt(0, 1) == 1
  {}

  lemma OneId(s: Stream)
    requires |s.id| < MAX_PAYLOAD
    ensures |PagesFor(IdPacket(s), s.serial, 0, true)| == 1
  {}

  lemma HeaderCountIs(s: Stream)
    ensures HeaderCount(s) == |Logical(Begun(s).packets, s.serial, 0)|
  {}

  /** Every page of a stream behind its headers belongs to an audio packet. */
  lemma AudioPage(s: Stream, j: nat)
    requires StreamOk(s) && |s.id| < MAX_PAYLOAD && HeaderCount(s) <= j <= |Logical(s.packets, s.serial, 0)|
    ensures Completed(Logical(s.packets, s.serial, 0)[..j]) >= 2
  {
    hide *;
    PacketsBegin(s);
    HeadersThenAudio(s);
    HeaderCountIs(s);
    var all, h := Logical(s.packets, s.serial, 0), HeaderCount(s);
    var headers, audio := Logical(Begun(s).packets, s.serial, 0), Logical(s.packets[2..], s.serial, IndexAt(0, h));
    assert all[..j] == headers + audio[..j - h];
    CompletedConcat(headers, audio[..j - h]);
    AllCompleted(Begun(s).packets, s.serial, 0);
    TwoBegun(s);
  }

  lemma TwoBegun(s: Stream)
    ensures |Begun(s).packets| == 2
  {}

  lemma ShownBehind(st: State, i: nat, stillOpen: bool, seekable: bool)
    requires DistinctSerials(st.streams) && ShortIds(st.streams) && HeadersFirst(st) && i < |st.streams|
    requires StreamOk(st.streams[i])
    requires OfSerial(st.pages, st.streams[i].serial) == FinalPages(st.streams[i], stillOpen, seekable)
    ensures AudioBehind(st, st.streams[i], FinalPages(st.streams[i], stillOpen, seekable),
                        EndMarked(st.streams[i], stillOpen, seekable), seekable)
  {
    hide *;
    var s := st.streams[i];
    var headers, pages := HeaderPages(st.streams), FinalPages(s, stillOpen, seekable);
    var h := HeaderCount(s);
    HeadersCut(st);
    HeaderCountIs(s);
    HeadersSeparate(st.streams, i);
    SameSerialCount(st.pages[..|headers|], headers, s.serial);
    OfSerialConcat(st.pages[..|headers|], st.pages[|headers|..], s.serial);
    var front := OfSerial(st.pages[..|headers|], s.serial);
    assert pages == front + OfSerial(st.pages[|headers|..], s.serial);
    assert pages[h..] == OfSerial(st.pages[|headers|..], s.serial);
    HeaderPartsAt(st.streams, i);
    forall j | h <= j < |pages|
      ensures (EndMarked(s, stillOpen, seekable) && !seekable && j == |pages| - 1) || PacketAt(s, j) >= 2
    {
      FinalCount(s, stillOpen, seekable);
      if j < |Logical(s.packets, s.serial, 0)| {
        AudioPage(s, j);
        PacketAtIs(s, j);
      }
    }
    AudioFrom(st, s, pages, EndMarked(s, stillOpen, seekable), seekable);
  }

  lemma HeadersCut(st: State)
    requires HeadersFirst(st)
    ensures var headers := HeaderPages(st.streams);
            && |headers| <= |st.pages| && st.pages == st.pages[..|headers|] + st.pages[|headers|..]
            && forall k :: 0 <= k < |headers| ==> SameButEos(st.pages[..|headers|][k], headers[k])
  {
    hide HeaderPages, SameButEos;
  }

  lemma FinalCount(s: Stream, stillOpen: bool, seekable: bool)
    ensures var n := |Logical(s.packets, s.serial, 0)|;
            |FinalPages(s, stillOpen, seekable)| ==
            if EndMarked(s, stillOpen, seekable) && !seekable then n + 1 else n
  {
    hide Logical, NextIndex;
  }

  lemma PacketAtIs(s: Stream, j: nat)
    requires j <= |Logical(s.packets, s.serial, 0)|
    ensures PacketAt(s, j) == Completed(Logical(s.packets, s.serial, 0)[..j])
  {}

  lemma AudioFrom(st: State, s: Stream, pages: seq<Page>, ended: bool, seekable: bool)
    requires |HeaderPages(st.streams)| <= |st.pages| && HeaderCount(s) <= |pages|
    requires OfSerial(st.pages[|HeaderPages(st.streams)|..], s.serial) == pages[HeaderCount(s)..]
    requires forall j :: HeaderCount(s) <= j < |pages| ==>
               (ended && !seekable && j == |pages| - 1) || PacketAt(s, j) >= 2
    ensures AudioBehind(st, s, pages, ended, seekable)
  {
    hide HeaderPages, HeaderCount, PacketAt, OfSerial;
  }

  /** The file starts with one page for each track, which begins its stream and holds its OpusHead. */
  ghost predicate BeginsAllStreams(st: State) {
    |st.streams| <= |st.pages| &&
    forall i :: 0 <= i < |st.streams| ==>
      SameButEos(st.pages[i], Page(BEGINNING, 0, st.streams[i].serial, 0, Lacing(|st.streams[i].id|), st.streams[i].id))
  }

  lemma HeadersBegin(st: State)
    requires HeadersFirst(st) && ShortIds(st.streams)
    ensures BeginsAllStreams(st)
  {
    hide SameButEos, Lacing, IdParts, TagParts;
    var ids := Flatten(IdParts(st.streams));
    if st.streams != [] {
      IdPage(st.streams, 0);
    }
    forall i | 0 <= i < |st.streams|
      ensures SameButEos(st.pages[i],
                         Page(BEGINNING, 0, st.streams[i].serial, 0, Lacing(|st.streams[i].id|), st.streams[i].id))
    {
      IdPage(st.streams, i);
      assert HeaderPages(st.streams)[i] == ids[i];
    }
  }

  /** Any run of calls on a new writer that has written anything: serials are distinct and no
      others occur; the file starts with one beginning page for each stream, then come the other
      header pages, and behind all header pages only audio packets and ends; every stream is
      numbered, begins on its first page only, ends on its last page only, and carries the running
      sums; and the file reads back page by page, every packet of every stream unchanged. */
  lemma StructureOfRun(ops: seq<Op>, seekable: bool, utf8: seq<byte> -> bool, check: bool)
    requires FeasibleRun(NEW_FILE, ops, seekable, utf8) && Run(NEW_FILE, ops, seekable, utf8).started
    ensures var end := Run(NEW_FILE, ops, seekable, utf8);
            && DistinctSerials(end.streams) && KnownSerials(end) && BeginsAllStreams(end) && HeadersFirst(end)
            && ReadAll(AllBytes(end.pages), check) == (SeenAs(end.pages), OggReader.Eof)
            && forall i :: 0 <= i < |end.streams| ==>
                 var s := end.streams[i];
                 var pages := OfSerial(end.pages, s.serial);
                 && StreamOk(s) && StreamShape(s, pages, end.open, seekable)
                 && AudioBehind(end, s, pages, EndMarked(s, end.open, seekable), seekable)
  {
    hide *;
    FileOfRun(ops, seekable, utf8, check);
    var end := Run(NEW_FILE, ops, seekable, utf8);
    HeadersBegin(end);
    forall i | 0 <= i < |end.streams|
      ensures var s := end.streams[i];
              var pages := OfSerial(end.pages, s.serial);
              && StreamOk(s) && StreamShape(s, pages, end.open, seekable)
              && AudioBehind(end, s, pages, EndMarked(s, end.open, seekable), seekable)
    {
      HeaderPartsAt(end.streams, i);
      FinalShape(end.streams[i], end.open, seekable);
      ShownBehind(end, i, end.open, seekable);
    }
  }

  // Nothing accepted is lost.

  /** A call that puts an audio packet on the i-th track. */
  predicate Accepts(st: State, op: Op, i: nat) {
    && op.Write? && op.track == i && i < |st.streams| && st.open
    && op.packet.Some? && op.packet.value.ssrc == st.streams[i].ssrc
    && op.packet.value.opus.Opus? && Opus.SampleCount(op.packet.value.opus.payload).Ok?
  }

  /** The audio packets accepted for the i-th track in the course of a run. */
  function Accepted(st: State, ops: seq<Op>, i: nat, seekable: bool, utf8: seq<byte> -> bool): seq<seq<byte>>
    requires FeasibleRun(st, ops, seekable, utf8)
    decreases |ops|
  {
    if ops == [] then []
    else
      (if Accepts(st, ops[0], i) then [ops[0].packet.value.opus.payload] else []) +
      Accepted(Step(st, ops[0], seekable, utf8), ops[1..], i, seekable, utf8)
  }

  /** The audio packets of the i-th track, if there is one. */
  function AudioOf(st: State, i: nat): seq<seq<byte>> {
    if i < |st.streams| && |st.streams[i].packets| >= 2 then PacketPayloads(st.streams[i].packets)[2..] else []
  }

  lemma StartKeepsAudio(st: State, i: nat)
    requires Invariant(st)
    ensures AudioOf(Start(st), i) == AudioOf(st, i)
    ensures i < |st.streams| ==> |Start(st).streams[i].packets| >= 2 && Start(st).streams[i].ssrc == st.streams[i].ssrc
  {
    if !st.started && i < |st.streams| {
      assert Idle(st.streams[i]);
      assert Begun(st.streams[i]).packets[2..] == [];
    }
    if st.started && i < |st.streams| {
      assert StreamOk(st.streams[i]);
    }
    hide Invariant, HeaderPages;
  }

  lemma PutAddsAudio(st: State, k: nat, p: Packet, granule: uint64, i: nat)
    requires k < |st.streams| && |st.streams[k].packets| >= 2
    ensures AudioOf(PutPacket(st, k, p, granule), i) == AudioOf(st, i) + if i == k then [p.payload] else []
  {
    hide PagesFor, NextIndex;
    if i == k {
      var packets := st.streams[k].packets;
      assert PacketPayloads(packets + [p]) == PacketPayloads(packets) + [p.payload];
    }
  }

  lemma StepAudio(st: State, op: Op, i: nat, seekable: bool, utf8: seq<byte> -> bool)
    requires Feasible(st, op) && (st.open ==> Invariant(st))
    ensures AudioOf(Step(st, op, seekable, utf8), i) ==
            AudioOf(st, i) + if Accepts(st, op, i) then [op.packet.value.opus.payload] else []
  {
    hide Invariant, AudioOf, HeaderPages, MarkAll, PutPacket, Opus.SampleCount, AllBegun;
    match op
    case NewTrack(ssrc, c, drawn) => AddedAudio(st, ssrc, c, drawn, utf8, i);
    case Write(k, packet) =>
      if st.open {
        StartKeepsAudio(st, i);
        StartKeepsAudio(st, k);
        if packet.Some? && packet.value.opus.Opus? && Opus.SampleCount(packet.value.opus.payload).Ok? {
          var payload := packet.value.opus.payload;
          var granule := (Start(st).streams[k].granule + Opus.SampleCount(payload).value) % UINT64_LIMIT;
          PutAddsAudio(Start(st), k, Packet(payload, 0, granule), granule, i);
        }
      }
    case Finish =>
      if st.open {
        StartKeepsAudio(st, i);
        SameAudio(Start(st), Close(st, seekable), i);
      }
  }

  lemma SameAudio(a: State, b: State, i: nat)
    requires a.streams == b.streams
    ensures AudioOf(a, i) == AudioOf(b, i)
  {}

  lemma AddedAudio(st: State, ssrc: uint32, c: TrackConfig, drawn: uint32, utf8: seq<byte> -> bool, i: nat)
    ensures AudioOf(AddTrack(st, ssrc, c, drawn, utf8).0, i) == AudioOf(st, i)
  {
    hide SsrcInUse, SerialInUse;
  }

  /** The audio packets of a track are exactly those that were accepted for it, in order. */
  lemma {:induction false} AudioConserved(st: State, ops: seq<Op>, i: nat, seekable: bool, utf8: seq<byte> -> bool)
    requires FeasibleRun(st, ops, seekable, utf8) && (st.open ==> Invariant(st))
    ensures AudioOf(Run(st, ops, seekable, utf8), i) == AudioOf(st, i) + Accepted(st, ops, i, seekable, utf8)
    decreases |ops|
  {
    hide *;
    RunUnfold(st, ops, seekable, utf8);
    AcceptedUnfold(st, ops, i, seekable, utf8);
    if ops == [] {
      assert AudioOf(st, i) + [] == AudioOf(st, i);
    } else {
      var next := Step(st, ops[0], seekable, utf8);
      StepAudio(st, ops[0], i, seekable, utf8);
      NextInvariant(st, ops[0], seekable, utf8);
      AudioConserved(next, ops[1..], i, seekable, utf8);
      ConcatAssoc(AudioOf(st, i), if Accepts(st, ops[0], i) then [ops[0].packet.value.opus.payload] else [],
                  Accepted(next, ops[1..], i, seekable, utf8));
    }
  }

  lemma AcceptedUnfold(st: State, ops: seq<Op>, i: nat, seekable: bool, utf8: seq<byte> -> bool)
    requires FeasibleRun(st, ops, seekable, utf8)
    ensures ops == [] ==> Accepted(st, ops, i, seekable, utf8) == []
    ensures ops != [] ==>
              && Feasible(st, ops[0]) && FeasibleRun(Step(st, ops[0], seekable, utf8), ops[1..], seekable, utf8)
              && (Accepts(st, ops[0], i) ==>
                    ops[0].Write? && ops[0].packet.Some? && ops[0].packet.value.opus.Opus?)
              && Accepted(st, ops, i, seekable, utf8) ==
                 (if Accepts(st, ops[0], i) then [ops[0].packet.value.opus.payload] else []) +
                 Accepted(Step(st, ops[0], seekable, utf8), ops[1..], i, seekable, utf8)
  {
    hide Step, Feasible;
  }

  lemma NextInvariant(st: State, op: Op, seekable: bool, utf8: seq<byte> -> bool)
    requires Feasible(st, op) && (st.open ==> Invariant(st))
    ensures Step(st, op, seekable, utf8).open ==> Invariant(Step(st, op, seekable, utf8))
  {
    if st.open {
      StepInvariant(st, op, seekable, utf8);
    }
    hide Invariant, HeaderPages, MarkAll;
  }
}
