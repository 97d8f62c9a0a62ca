/** oggwriter/oggwriter.go: the multi-track writer. The sink never fails; it is a file that is
    appended to and, if it is seekable, written to in place when the writer is closed. */
module OggWriter {
  import opened Bits
  import opened Bytes
  import Crc32
  import opened OggMux
  import opened OggPage
  import opened OggPaging
  import opened OggStream
  import Opus
  import OpusTags

  // In-place rewriting.

  /** Rewriting the last page of a packet yields one page again, the same up to its EOS flag. */
  lemma RewrittenPage(p: Page)
    requires |p.payload| < MAX_PAYLOAD && p.segments == Lacing(|p.payload|)
    ensures PagesFor(Packet(p.payload, WithEos(p.headerType), p.granule), p.serial, p.index, true) == [Marked(p)]
  {
    hide Lacing, WithEos;
  }

  /** On the wire only the flags in byte 5 and the checksum in bytes 22 to 25 may change. */
  lemma RewriteIsLocal(p: Page)
    ensures |PageBytes(Marked(p))| == |PageBytes(p)|
    ensures forall k :: 0 <= k < |PageBytes(p)| && k != 5 && !(22 <= k < 26) ==>
              PageBytes(Marked(p))[k] == PageBytes(p)[k]
  {
    hide CrcField, Checksum, Le64, Le32, WithEos, SIGNATURE;
    var a, b := PageBytes(p), PageBytes(Marked(p));
    assert a[26..] == Tail(p) && b[26..] == Tail(Marked(p)) == Tail(p);
    assert Head(p)[..5] == Head(Marked(p))[..5] && Head(p)[6..] == Head(Marked(p))[6..];
    forall k | 0 <= k < |a| && k != 5 && !(22 <= k < 26)
      ensures b[k] == a[k]
    {
      if k < 5 {
        assert a[k] == Head(p)[..5][k] && b[k] == Head(Marked(p))[..5][k];
      } else if k < 22 {
        assert a[k] == Head(p)[6..][k - 6] && b[k] == Head(Marked(p))[6..][k - 6];
      } else {
        assert a[k] == a[26..][k - 26] && b[k] == b[26..][k - 26];
      }
    }
  }

  /** os.File.WriteAt within the file. */
  function WriteAt(file: seq<byte>, data: seq<byte>, offset: nat): (r: seq<byte>)
    requires offset + |data| <= |file|
    ensures |r| == |file|
  {
    file[..offset] + data + file[offset + |data|..]
  }

  lemma {:induction false} BytesAt(pages: seq<Page>, i: nat)
    requires i < |pages|
    ensures AllBytes(pages) == AllBytes(pages[..i]) + PageBytes(pages[i]) + AllBytes(pages[i + 1..])
  {
    hide PageBytes;
    assert pages == pages[..i] + pages[i..] && pages[i..][1..] == pages[i + 1..];
    PiecesConcat(pages[..i], pages[i..]);
    ConcatAssoc(AllBytes(pages[..i]), PageBytes(pages[i]), AllBytes(pages[i + 1..]));
  }

  /** Writing a page of the same length over one page replaces that page and no other. */
  lemma PageReplaced(base: seq<byte>, pages: seq<Page>, i: nat, page: Page)
    requires i < |pages| && |PageBytes(page)| == |PageBytes(pages[i])|
    ensures var offset := |base| + |AllBytes(pages[..i])|;
            && offset + |PageBytes(page)| <= |base + AllBytes(pages)|
            && WriteAt(base + AllBytes(pages), PageBytes(page), offset) == base + AllBytes(pages[i := page])
  {
    hide PageBytes, AllBytes, WriteAt;
    BytesAt(pages, i);
    BytesAt(pages[i := page], i);
    assert pages[i := page][..i] == pages[..i] && pages[i := page][i + 1..] == pages[i + 1..];
    var before, after := AllBytes(pages[..i]), AllBytes(pages[i + 1..]);
    Between(base, before, PageBytes(pages[i]), after);
    Between(base, before, PageBytes(page), after);
    WriteBetween(base + before, PageBytes(pages[i]), PageBytes(page), after);
  }

  lemma Between(base: seq<byte>, a: seq<byte>, b: seq<byte>, c: seq<byte>)
    ensures base + (a + b + c) == base + a + b + c
  {}

  lemma WriteBetween(a: seq<byte>, was: seq<byte>, now: seq<byte>, b: seq<byte>)
    requires |was| == |now|
    ensures WriteAt(a + was + b, now, |a|) == a + now + b
  {}

  // The last page of each track.

  /** Page `at` is the last one with its serial, `page`, and starts at `offset` in the file. */
  ghost predicate LastOk(base: seq<byte>, pages: seq<Page>, at: nat, page: Page, offset: nat) {
    && at < |pages| && pages[at] == page && offset == |base| + |AllBytes(pages[..at])|
    && |page.payload| < MAX_PAYLOAD && page.segments == Lacing(|page.payload|)
    && forall k :: at < k < |pages| ==> pages[k].serial != page.serial
  }

  lemma LastKept(base: seq<byte>, pages: seq<Page>, more: seq<Page>, at: nat, page: Page, offset: nat, other: uint32)
    requires LastOk(base, pages, at, page, offset) && Only(more, other) && other != page.serial
    ensures LastOk(base, pages + more, at, page, offset)
  {
    hide AllBytes, Lacing;
    assert (pages + more)[..at] == pages[..at];
  }

  lemma LastWritten(base: seq<byte>, pages: seq<Page>, p: Packet, serial: uint32, index: uint32)
    ensures var more := PagesFor(p, serial, index, true);
            var n := |more| - 1;
            LastOk(base, pages + more, |pages| + n, more[n], |base| + |AllBytes(pages)| + |AllBytes(more[..n])|)
  {
    hide *;
    var more := PagesFor(p, serial, index, true);
    var n := LastShape(p, serial, index);
    assert (pages + more)[..|pages| + n] == pages + more[..n];
    PiecesConcat(pages, more[..n]);
    LastAtEnd(base, pages + more);
  }

  lemma LastAtEnd(base: seq<byte>, pages: seq<Page>)
    requires pages != []
    requires var page := pages[|pages| - 1]; |page.payload| < MAX_PAYLOAD && page.segments == Lacing(|page.payload|)
    ensures LastOk(base, pages, |pages| - 1, pages[|pages| - 1], |base| + |AllBytes(pages[..|pages| - 1])|)
  {
    hide AllBytes, Lacing;
  }

  lemma LastShape(p: Packet, serial: uint32, index: uint32) returns (n: nat)
    ensures n == |PagesFor(p, serial, index, true)| - 1
    ensures var page := PagesFor(p, serial, index, true)[n];
            && |page.payload| < MAX_PAYLOAD && page.segments == Lacing(|page.payload|)
            && page.serial == serial && page.granule == p.granule
  {
    n := |p.payload| / MAX_PAYLOAD;
    PagesNumbered(p, serial, index, true, n);
    hide PagesFor, Lacing, IndexAt, PacketPageType;
  }

  lemma {:induction false} MarkLastIs(pages: seq<Page>, at: nat)
    requires at < |pages| && forall k :: at < k < |pages| ==> pages[k].serial != pages[at].serial
    ensures MarkLast(pages, pages[at].serial) == pages[at := Marked(pages[at])]
    decreases |pages|
  {
    hide Marked;
    var n := |pages| - 1;
    if at < n {
      MarkLastIs(pages[..n], at);
    }
  }

  /** Marking one track's last page leaves the last pages of the others where they are. */
  lemma LastUnmoved(base: seq<byte>, pages: seq<Page>, at: nat, page: Page, offset: nat, i: nat)
    requires LastOk(base, pages, at, page, offset) && i < |pages| && pages[i].serial != page.serial
    ensures LastOk(base, pages[i := Marked(pages[i])], at, page, offset)
  {
    hide PageBytes, Lacing, AllBytes;
    var now := pages[i := Marked(pages[i])];
    if i < at {
      RewriteIsLocal(pages[i]);
      assert now[..at] == pages[..at][i := Marked(pages[i])];
      BytesAt(pages[..at], i);
      BytesAt(now[..at], i);
      assert now[..at][..i] == pages[..at][..i] && now[..at][i + 1..] == pages[..at][i + 1..];
    } else {
      assert now[..at] == pages[..at];
    }
  }

  lemma BytesSnoc(pages: seq<Page>, k: nat)
    requires k < |pages|
    ensures AllBytes(pages[..k + 1]) == AllBytes(pages[..k]) + PageBytes(pages[k])
    ensures Rendered(pages[k]).data == PageBytes(pages[k]) && AllBytes(pages[..0]) == []
  {
    hide PageBytes;
    assert pages[..k + 1] == pages[..k] + [pages[k]];
    PiecesConcat(pages[..k], [pages[k]]);
    assert [pages[k]][1..] == [];
  }

  /** createPageForSerial: the pages of a packet in one buffer. */
  method CreatePageForSerial(table: seq<bv32>, p: Packet, serial: uint32, index: uint32) returns (data: seq<byte>)
    requires Crc32.IsTable(table)
    ensures data == AllBytes(PagesFor(p, serial, index, true))
  {
    hide *;
    var pages := CreatePages(table, p, serial, index);
    ghost var all := PagesFor(p, serial, index, true);
    BytesSnoc(all, 0);
    data := [];
    for k := 0 to |pages|
      invariant data == AllBytes(all[..k])
    {
      BytesSnoc(all, k);
      data := data + pages[k].data;
    }
    assert all[..|pages|] == all;
  }

  /** Track and oggTrack. The fields `last...` are kept only where pages can be rewritten. */
  class Track {
    const ssrc: uint32
    const serial: uint32
    const sampleRate: uint32
    const mapping: Opus.Mapping
    const tags: OpusTags.Tags
    var pageIndex: uint32
    var previousGranule: uint64
    var lastPayload: seq<byte>
    var lastGranule: uint64
    var lastPageIndex: uint32
    var lastPageOffset: nat
    var lastPageHeaderType: byte
    var lastPageWritten: bool

    constructor (ssrc: uint32, serial: uint32, c: TrackConfig)
      ensures this.ssrc == ssrc && this.serial == serial && sampleRate == c.sampleRate
      ensures mapping == c.mapping && tags == c.tags
      ensures pageIndex == 0 && previousGranule == 0 && !lastPageWritten
    {
      this.ssrc, this.serial, this.sampleRate, this.mapping, this.tags := ssrc, serial, c.sampleRate, c.mapping, c.tags;
      pageIndex, previousGranule := 0, 0;
      lastPayload, lastGranule, lastPageIndex, lastPageOffset := [], 0, 0, 0;
      lastPageHeaderType, lastPageWritten := 0, false;
    }

    /** The last page as it was written. */
    function LastPage(): Page
      reads this`lastPayload, this`lastGranule, this`lastPageIndex, this`lastPageHeaderType
    {
      Page(lastPageHeaderType, lastGranule, serial, lastPageIndex, Lacing(|lastPayload|), lastPayload)
    }

    function Status(): Status
      reads this
    {
      Snapshot(pageIndex, previousGranule, lastPageWritten, LastPage(), lastPageOffset)
    }

    /** The stream this track writes. */
    ghost predicate Owns(s: Stream) {
      && s.ssrc == ssrc && s.serial == serial
      && s.id == Opus.IdHeader(sampleRate, mapping) && s.tags == OpusTags.HeaderBytes(tags)
    }
  }

  /** The changing fields of a track. */
  datatype Status = Snapshot(pageIndex: uint32, granule: uint64, lastWritten: bool, last: Page, offset: nat)

  /** What has been written: the pages, and for each track its stream, its fields and the place of
      its last page. */
  datatype Book = Book(pages: seq<Page>, streams: seq<Stream>, status: seq<Status>, lastAt: seq<nat>)

  /** A track's fields agree with its stream, and the saved last page with the file. */
  ghost predicate TrackOk(base: seq<byte>, pages: seq<Page>, s: Stream, t: Status, at: nat, rewritable: bool) {
    && t.pageIndex == NextIndex(s) && t.granule == s.granule
    && (rewritable ==>
          && t.lastWritten == (s.packets != [])
          && (t.lastWritten ==> LastOk(base, pages, at, t.last, t.offset) && t.last.serial == s.serial))
  }

  ghost predicate BookOk(base: seq<byte>, b: Book, rewritable: bool) {
    && |b.streams| == |b.status| == |b.lastAt| && DistinctSerials(b.streams)
    && forall i :: 0 <= i < |b.streams| ==>
         TrackOk(base, b.pages, b.streams[i], b.status[i], b.lastAt[i], rewritable)
  }

  /** The pages of one more packet of stream `s` are in the file, and its track knows. */
  ghost predicate Emitted(
    base: seq<byte>, pages: seq<Page>, s: Stream, p: Packet, file: seq<byte>, t: Status, rewritable: bool)
  {
    var more := PagesFor(p, s.serial, NextIndex(s), true);
    var n := |more| - 1;
    && t.pageIndex == NextIndex(s.(packets := s.packets + [p])) && t.granule == s.granule
    && file == base + AllBytes(pages) + AllBytes(more)
    && (rewritable ==>
          t.lastWritten && t.last == more[n] && t.offset == |base + AllBytes(pages)| + |AllBytes(more[..n])|)
  }

  /** The book with one more packet on the i-th track. */
  function Enter(b: Book, i: nat, p: Packet, now: Status): Book
    requires |b.streams| == |b.status| == |b.lastAt| && i < |b.streams|
  {
    var s := b.streams[i];
    var more := PagesFor(p, s.serial, NextIndex(s), true);
    Book(b.pages + more, b.streams[i := s.(packets := s.packets + [p])], b.status[i := now],
         b.lastAt[i := |b.pages| + |more| - 1])
  }

  lemma EnterParts(b: Book, i: nat, p: Packet, now: Status)
    requires |b.streams| == |b.status| == |b.lastAt| && i < |b.streams|
    ensures var e := Enter(b, i, p, now);
            var more := PagesFor(p, b.streams[i].serial, NextIndex(b.streams[i]), true);
            && e.pages == b.pages + more && |e.streams| == |e.status| == |e.lastAt| == |b.streams|
            && e.streams[i] == b.streams[i].(packets := b.streams[i].packets + [p])
            && e.status[i] == now && e.lastAt[i] == |b.pages| + |more| - 1
            && forall j :: 0 <= j < |b.streams| && j != i ==>
                 e.streams[j] == b.streams[j] && e.status[j] == b.status[j] && e.lastAt[j] == b.lastAt[j]
  {
    hide PagesFor, NextIndex;
  }

  lemma Entered(base: seq<byte>, b: Book, i: nat, p: Packet, file: seq<byte>, now: Status, rewritable: bool)
    requires |b.streams| == |b.status| == |b.lastAt| && i < |b.streams| && BookOk(base, b, rewritable)
    requires Emitted(base, b.pages, b.streams[i], p, file, now, rewritable)
    ensures BookOk(base, Enter(b, i, p, now), rewritable) && file == base + AllBytes(Enter(b, i, p, now).pages)
  {
    hide *;
    BookParts(base, b, rewritable);
    var e := Enter(b, i, p, now);
    EnterParts(b, i, p, now);
    OwnTrackPut(base, b.pages, b.streams[i], p, file, now, rewritable);
    forall j | 0 <= j < |b.streams|
      ensures TrackOk(base, e.pages, e.streams[j], e.status[j], e.lastAt[j], rewritable)
    {
      if j != i {
        assert TrackOk(base, b.pages, b.streams[j], b.status[j], b.lastAt[j], rewritable);
        OtherTrackPut(base, b.pages, b.streams[i], p, b.streams[j], b.status[j], b.lastAt[j], rewritable);
      }
    }
    BookFrom(base, b, e, rewritable);
  }

  lemma BookParts(base: seq<byte>, b: Book, rewritable: bool)
    requires BookOk(base, b, rewritable)
    ensures forall i, j :: 0 <= i < |b.streams| && 0 <= j < |b.streams| && i != j ==>
              b.streams[i].serial != b.streams[j].serial
    ensures |b.streams| == |b.status| == |b.lastAt| && DistinctSerials(b.streams)
    ensures forall i :: 0 <= i < |b.streams| ==>
              TrackOk(base, b.pages, b.streams[i], b.status[i], b.lastAt[i], rewritable)
  {
    hide TrackOk;
  }

  lemma BookFrom(base: seq<byte>, b: Book, e: Book, rewritable: bool)
    requires |b.streams| == |e.streams| == |e.status| == |e.lastAt| && DistinctSerials(b.streams)
    requires forall i :: 0 <= i < |b.streams| ==> b.streams[i].serial == e.streams[i].serial
    requires forall i :: 0 <= i < |e.streams| ==>
               TrackOk(base, e.pages, e.streams[i], e.status[i], e.lastAt[i], rewritable)
    ensures BookOk(base, e, rewritable)
  {
    hide TrackOk;
  }

  lemma EmittedFrom(
    base: seq<byte>, pages: seq<Page>, s: Stream, p: Packet, file: seq<byte>, t: Status, rewritable: bool)
    requires t.pageIndex == NextIndex(s.(packets := s.packets + [p])) && t.granule == s.granule
    requires var more := PagesFor(p, s.serial, NextIndex(s), true);
             var n := |more| - 1;
             && file == base + AllBytes(pages) + AllBytes(more)
             && (rewritable ==>
                   t.lastWritten && t.last == more[n] && t.offset == |base + AllBytes(pages)| + |AllBytes(more[..n])|)
    ensures Emitted(base, pages, s, p, file, t, rewritable)
  {}

  lemma OwnTrackPut(
    base: seq<byte>, pages: seq<Page>, s: Stream, p: Packet, file: seq<byte>, now: Status, rewritable: bool)
    requires Emitted(base, pages, s, p, file, now, rewritable)
    ensures var more := PagesFor(p, s.serial, NextIndex(s), true);
            && TrackOk(base, pages + more, s.(packets := s.packets + [p]), now, |pages| + |more| - 1, rewritable)
            && file == base + AllBytes(pages + more)
  {
    hide *;
    var more := PagesFor(p, s.serial, NextIndex(s), true);
    var n := LastShape(p, s.serial, NextIndex(s));
    EmittedParts(base, pages, s, p, file, now, rewritable);
    LastWritten(base, pages, p, s.serial, NextIndex(s));
    PiecesConcat(pages, more);
    ConcatAssoc(base, AllBytes(pages), AllBytes(more));
    TrackFrom(base, pages + more, s.(packets := s.packets + [p]), now, |pages| + n, rewritable);
  }

  lemma EmittedParts(
    base: seq<byte>, pages: seq<Page>, s: Stream, p: Packet, file: seq<byte>, t: Status, rewritable: bool)
    requires Emitted(base, pages, s, p, file, t, rewritable)
    ensures var more := PagesFor(p, s.serial, NextIndex(s), true);
            var n := |more| - 1;
            && t.pageIndex == NextIndex(s.(packets := s.packets + [p])) && t.granule == s.granule
            && file == base + AllBytes(pages) + AllBytes(more)
            && (rewritable ==>
                  && t.lastWritten && t.last == more[n]
                  && t.offset == |base| + |AllBytes(pages)| + |AllBytes(more[..n])|)
  {
    hide PagesFor, NextIndex, AllBytes;
  }

  lemma TrackFrom(base: seq<byte>, pages: seq<Page>, s: Stream, t: Status, at: nat, rewritable: bool)
    requires t.pageIndex == NextIndex(s) && t.granule == s.granule && s.packets != []
    requires rewritable ==> t.lastWritten && LastOk(base, pages, at, t.last, t.offset) && t.last.serial == s.serial
    ensures TrackOk(base, pages, s, t, at, rewritable)
  {
    hide LastOk, NextIndex;
  }

  lemma OtherTrackPut(
    base: seq<byte>, pages: seq<Page>, s: Stream, p: Packet, other: Stream, t: Status, at: nat, rewritable: bool)
    requires TrackOk(base, pages, other, t, at, rewritable) && s.serial != other.serial
    ensures TrackOk(base, pages + PagesFor(p, s.serial, NextIndex(s), true), other, t, at, rewritable)
  {
    hide NextIndex, PagesFor, AllBytes, LastOk;
    PacketOnly(p, s.serial, NextIndex(s), true);
    if rewritable && t.lastWritten {
      LastKept(base, pages, PagesFor(p, s.serial, NextIndex(s), true), at, t.last, t.offset, s.serial);
    }
  }

  /** The state after entering a packet is the specified one. */
  lemma EnteredState(st: State, b: Book, i: nat, p: Packet, now: Status)
    requires |b.streams| == |b.status| == |b.lastAt| && i < |b.streams|
    requires st.streams == b.streams && st.pages == b.pages
    ensures st.(streams := Enter(b, i, p, now).streams, pages := Enter(b, i, p, now).pages) ==
            PutPacket(st, i, p, b.streams[i].granule)
  {
    hide PagesFor, NextIndex;
  }

  class Writer {
    const table: seq<bv32>
    const utf8: seq<byte> -> bool
    var hasStream: bool
    var hasRewriter: bool
    var file: seq<byte>
    var tracks: map<uint32, Track>
    var trackOrder: seq<Track>
    var started: bool
    ghost const base: seq<byte>   // what the file held before
    ghost var book: Book          // what has been written since

    ghost function Abstract(): State
      reads this`hasStream, this`started, this`book
    {
      State(hasStream, started, book.streams, book.pages)
    }

    ghost predicate NoAliases()
      reads this`trackOrder
    {
      forall i, j :: 0 <= i < j < |trackOrder| ==> trackOrder[i] != trackOrder[j]
    }

    /** Every track writes the stream of the same index, and no other track does. */
    ghost predicate Registered()
      reads this`book, this`trackOrder, this`tracks, this`hasStream
      ensures Registered() ==>
                && |book.streams| == |book.status| == |book.lastAt| == |trackOrder|
                && NoAliases() && Crc32.IsTable(table)
    {
      && Crc32.IsTable(table) && |book.streams| == |book.status| == |book.lastAt| == |trackOrder| && NoAliases()
      && (forall i :: 0 <= i < |trackOrder| ==> trackOrder[i].Owns(book.streams[i]))
      && (hasStream ==> forall ssrc :: ssrc in tracks <==> SsrcInUse(book.streams, ssrc))
    }

    /** The tracks' fields are those in the book. */
    ghost predicate Tracked(except: int)
      requires |book.status| == |trackOrder|
      reads this`trackOrder, this`book, trackOrder
    {
      forall i :: 0 <= i < |trackOrder| && i != except ==> trackOrder[i].Status() == book.status[i]
    }

    /** Everything that holds between two pages. */
    ghost predicate Sound()
      reads this`file, this`book, this`hasStream, this`hasRewriter, this`tracks, this`trackOrder, trackOrder
      ensures Sound() ==> Registered()
    {
      && Registered() && file == base + AllBytes(book.pages)
      && (hasStream ==> BookOk(base, book, hasRewriter) && Tracked(-1))
    }

    /** Before the start nothing is written, afterwards every track has written something. */
    ghost predicate Valid()
      reads this, trackOrder
      ensures Valid() ==> Sound()
    {
      Sound() && (hasStream ==> forall i :: 0 <= i < |book.streams| ==> (book.streams[i].packets != [] <==> started))
    }

    /** NewWriter, without its options. */
    constructor (existing: seq<byte>, seekable: bool, utf8: seq<byte> -> bool)
      ensures Valid() && Abstract() == NEW_FILE && trackOrder == [] && hasRewriter == seekable
      ensures file == existing && base == existing && this.utf8 == utf8
    {
      hide Crc32.IsTable;
      var entries := Crc32.BuildTable();
      table, this.utf8 := entries[..], utf8;
      hasStream, hasRewriter, file := true, seekable, existing;
      tracks, trackOrder, started := map[], [], false;
      base, book := existing, Book([], [], [], []);
      new;
      assert existing + [] == existing;
    }

    /** The loop of writePage: writes the pages and remembers the last one and where it starts. */
    method WritePages(track: Track, created: seq<Written>, ghost all: seq<Page>)
      requires created == RenderedAll(all) && all != [] && all[|all| - 1].serial == track.serial
      requires all[|all| - 1].segments == Lacing(|all[|all| - 1].payload|)
      modifies this`file, track`lastPayload, track`lastGranule, track`lastPageIndex, track`lastPageOffset,
               track`lastPageHeaderType, track`lastPageWritten
      ensures file == old(file) + AllBytes(all)
      ensures hasRewriter ==>
                && track.lastPageWritten && track.LastPage() == all[|all| - 1]
                && track.lastPageOffset == |old(file)| + |AllBytes(all[..|all| - 1])|
      ensures !hasRewriter ==> track.lastPageWritten == old(track.lastPageWritten)
    {
      hide AllBytes, PageBytes, Lacing, RenderedAll;
      var offset := if hasRewriter then |file| else 0;
      BytesSnoc(all, 0);
      for k := 0 to |created|
        invariant file == old(file) + AllBytes(all[..k])
        invariant hasRewriter ==> offset == |file|
        invariant k == |created| && hasRewriter ==>
                    && track.lastPageWritten && track.LastPage() == all[|all| - 1]
                    && track.lastPageOffset == |old(file)| + |AllBytes(all[..|all| - 1])|
        invariant !hasRewriter ==> track.lastPageWritten == old(track.lastPageWritten)
      {
        var page := created[k];
        BytesSnoc(all, k);
        ConcatAssoc(old(file), AllBytes(all[..k]), PageBytes(all[k]));
        var pageOffset := offset;
        file := file + page.data;
        if hasRewriter {
          if k == |created| - 1 {
            track.lastPageOffset := pageOffset;
            track.lastPayload := page.payload;
            track.lastGranule := page.granule;
            track.lastPageIndex := page.index;
            track.lastPageHeaderType := page.headerType;
            track.lastPageWritten := true;
          }
          offset := offset + |page.data|;
        }
      }
      assert all[..|all|] == all;
    }

    /** The part of writePage that touches the file and the track. */
    method EmitPages(track: Track, p: Packet, ghost s: Stream)
      requires Crc32.IsTable(table) && track.serial == s.serial && track.pageIndex == NextIndex(s)
      requires track.previousGranule == s.granule && file == base + AllBytes(book.pages)
      modifies this`file, track
      ensures Emitted(base, book.pages, s, p, file, track.Status(), hasRewriter)
    {
      hide Valid, Sound, Registered, Tracked, BookOk, AllBytes, PutPacket, NextIndex, SsrcInUse, SerialInUse,
        Crc32.IsTable, Opus.IdHeader, Opus.SampleCount, OpusTags.HeaderBytes, OpusTags.ValidTags, Emitted,
        PagesFor, Lacing, RenderedAll, Rendered, PageBytes, PacketPageType, Logical, IndexAt, Full;
      ghost var all := PagesFor(p, s.serial, NextIndex(s), true);
      ghost var n := LastShape(p, s.serial, NextIndex(s));
      var created := CreatePages(table, p, track.serial, track.pageIndex);
      WritePages(track, created, all);
      track.pageIndex := (track.pageIndex + |created|) % UINT32_LIMIT;
      NextIndexPut(s, p);
      EmittedFrom(base, book.pages, s, p, file, track.Status(), hasRewriter);
    }

    /** writePage, on the i-th track. */
    method WritePage(track: Track, payload: seq<byte>, headerType: byte, granule: uint64, ghost i: nat)
      requires Sound() && hasStream && i < |trackOrder| && track == trackOrder[i]
      modifies this`file, this`book, track
      ensures Sound()
      ensures Abstract() == PutPacket(old(Abstract()), i, Packet(payload, headerType, granule), old(book.streams[i].granule))
    {
      hide Valid, Sound, Registered, Tracked, BookOk, AllBytes, PutPacket, NextIndex, SsrcInUse, SerialInUse,
        Crc32.IsTable, Opus.IdHeader, Opus.SampleCount, OpusTags.HeaderBytes, OpusTags.ValidTags, Emitted,
        Enter;
      SoundParts(i);
      ghost var p := Packet(payload, headerType, granule);
      EmitPages(track, Packet(payload, headerType, granule), book.streams[i]);
      OthersUntouched(i);
      EnteredState(Abstract(), book, i, p, track.Status());
      Record(i, p);
    }

    lemma SoundParts(i: nat)
      requires Sound() && hasStream && i < |trackOrder|
      ensures trackOrder[i].pageIndex == NextIndex(book.streams[i]) && trackOrder[i].serial == book.streams[i].serial
      ensures trackOrder[i].previousGranule == book.streams[i].granule
      ensures trackOrder[i].ssrc == book.streams[i].ssrc && trackOrder[i].Status() == book.status[i]
      ensures Tracked(-1) && BookOk(base, book, hasRewriter) && file == base + AllBytes(book.pages)
      ensures forall j :: 0 <= j < |trackOrder| && j != i ==> trackOrder[j] != trackOrder[i]
    {
      assert TrackOk(base, book.pages, book.streams[i], book.status[i], book.lastAt[i], hasRewriter);
    }

    twostate lemma OthersUntouched(i: nat)
      requires i < |trackOrder| == |book.status| && trackOrder == old(trackOrder) && book == old(book)
      requires old(Tracked(-1)) && forall j :: 0 <= j < |trackOrder| && j != i ==> unchanged(trackOrder[j])
      ensures Tracked(i)
    {
      forall j | 0 <= j < |trackOrder| && j != i
        ensures trackOrder[j].Status() == book.status[j]
      {
        assert old(trackOrder[j].Status()) == book.status[j];
      }
    }

    /** Brings the book up to date once the pages of `p` are in the file. */
    ghost method Record(i: nat, p: Packet)
      requires Registered() && hasStream && i < |trackOrder| && Tracked(i) && BookOk(base, book, hasRewriter)
      requires Emitted(base, book.pages, book.streams[i], p, file, trackOrder[i].Status(), hasRewriter)
      modifies this`book
      ensures Sound() && book == Enter(old(book), i, p, trackOrder[i].Status())
    {
      hide BookOk, Emitted, Enter, Opus.IdHeader, OpusTags.HeaderBytes, Crc32.IsTable, AllBytes, SsrcInUse;
      ghost var now, was := trackOrder[i].Status(), book;
      Entered(base, book, i, p, file, now, hasRewriter);
      EnterParts(book, i, p, now);
      SameSsrcs(book.streams, Enter(book, i, p, now).streams);
      book := Enter(book, i, p, now);
      assert forall j :: 0 <= j < |trackOrder| ==> trackOrder[j].Owns(was.streams[j]);
    }

    /** track.previousGranulePosition += sampleCount. */
    method AddSamples(track: Track, n: nat, ghost i: nat)
      requires Sound() && hasStream && i < |trackOrder| && track == trackOrder[i]
      modifies this`book, track`previousGranule
      ensures Sound() && track.previousGranule == (old(track.previousGranule) + n) % UINT64_LIMIT
      ensures old(track.previousGranule) == old(book.streams[i].granule)
      ensures Abstract() == Advanced(old(Abstract()), i, track.previousGranule)
    {
      hide Valid, Sound, Registered, Tracked, BookOk, AllBytes, PutPacket, NextIndex, SsrcInUse, SerialInUse,
        Crc32.IsTable, Opus.IdHeader, Opus.SampleCount, OpusTags.HeaderBytes, OpusTags.ValidTags;
      SoundParts(i);
      track.previousGranule := (track.previousGranule + n) % UINT64_LIMIT;
      OthersUntouched(i);
      RecordGranule(i);
    }

    ghost method RecordGranule(i: nat)
      requires Registered() && hasStream && i < |trackOrder| && Tracked(i) && BookOk(base, book, hasRewriter)
      requires file == base + AllBytes(book.pages)
      requires trackOrder[i].Status() == book.status[i].(granule := trackOrder[i].previousGranule)
      modifies this`book
      ensures Sound()
      ensures book == old(book).(
                streams := old(book.streams)[i := old(book.streams[i]).(granule := trackOrder[i].previousGranule)],
                status := old(book.status)[i := trackOrder[i].Status()])
    {
      hide NextIndex, LastOk, Opus.IdHeader, OpusTags.HeaderBytes, Crc32.IsTable, AllBytes, SsrcInUse;
      ghost var was := book;
      ghost var streams := book.streams[i := book.streams[i].(granule := trackOrder[i].previousGranule)];
      GranuleElsewhere(book.streams[i], trackOrder[i].previousGranule);
      SameSsrcs(book.streams, streams);
      book := book.(streams := streams, status := book.status[i := trackOrder[i].Status()]);
      assert forall j :: 0 <= j < |trackOrder| ==> trackOrder[j].Owns(was.streams[j]);
      assert forall j :: 0 <= j < |trackOrder| ==>
          TrackOk(base, was.pages, was.streams[j], was.status[j], was.lastAt[j], hasRewriter);
    }

    /** writeOpusPayload. */
    method WriteOpusPayload(track: Track, payload: seq<byte>, ghost i: nat) returns (err: Option<Error>)
      requires Valid() && hasStream && started && i < |trackOrder| && track == trackOrder[i]
      modifies this`file, this`book, track
      ensures Valid()
      ensures (Abstract(), err) == WriteOpus(old(Abstract()), i, payload)
    {
      hide Valid, Sound, Registered, Tracked, BookOk, AllBytes, PutPacket, Start, NextIndex, SsrcInUse, SerialInUse,
        Crc32.IsTable, Opus.IdHeader, Opus.SampleCount, OpusTags.HeaderBytes, OpusTags.ValidTags;
      ValidParts();
      var n := Opus.SampleCount(payload);
      if n.Err? {
        return Some(InvalidOpusPacket);
      }
      ghost var st := Abstract();
      AddSamples(track, n.value, i);
      PutAdvanced(st, i, Packet(payload, 0, track.previousGranule), track.previousGranule);
      label Before:
      WritePage(track, payload, 0, track.previousGranule, i);
      PutFilled(old@Before(Abstract()), i, Packet(payload, 0, old@Before(track.previousGranule)),
                old@Before(book.streams[i].granule));
      ValidFrom();
      err := None;
    }

    /** startLocked: the headers of all tracks, unless they have been written. */
    method StartLocked()
      requires Valid() && hasStream
      modifies this`file, this`book, this`started, trackOrder
      ensures Valid() && started && Abstract() == Start(old(Abstract()))
    {
      hide Valid, Sound, Registered, Tracked, BookOk, AllBytes, PutPacket, NextIndex, SsrcInUse, SerialInUse,
        Crc32.IsTable, Opus.IdHeader, Opus.SampleCount, OpusTags.HeaderBytes, OpusTags.ValidTags, HeaderPages,
        IdParts, TagParts, IdsDone, TagsDone, Untouched, AllBegun;
      ghost var st := Abstract();
      ValidParts();
      UntouchedBefore();
      if started {
        return;
      }
      IdsDoneNone(st);
      for i := 0 to |trackOrder|
        invariant Sound() && Abstract() == IdsDone(st, i)
      {
        var track := trackOrder[i];
        OwnsTrack(i);
        IdsDoneStep(st, i);
        WritePage(track, Opus.IdHeader(track.sampleRate, track.mapping), BEGINNING, 0, i);
      }
      TagsDoneNone(st);
      for i := 0 to |trackOrder|
        invariant Sound() && Abstract() == TagsDone(st, i)
      {
        var track := trackOrder[i];
        OwnsTrack(i);
        TagsDoneStep(st, i);
        var header := OpusTags.BuildCommentHeader(track.tags);
        WritePage(track, header[..], 0, 0, i);
      }
      TagsDoneAll(st);
      started := true;
      ValidFrom();
    }

    lemma UntouchedBefore()
      requires Valid() && hasStream
      ensures !started ==> Untouched(Abstract())
    {
      forall i | 0 <= i < |trackOrder|
        ensures |book.streams[i].id| < MAX_PAYLOAD
      {
        OwnsTrack(i);
      }
    }

    lemma OwnsTrack(i: nat)
      requires Registered() && i < |trackOrder|
      ensures trackOrder[i].serial == book.streams[i].serial && trackOrder[i].ssrc == book.streams[i].ssrc
      ensures book.streams[i].id == Opus.IdHeader(trackOrder[i].sampleRate, trackOrder[i].mapping)
      ensures book.streams[i].tags == OpusTags.HeaderBytes(trackOrder[i].tags) && |book.streams[i].id| < MAX_PAYLOAD
    {
      assert trackOrder[i].Owns(book.streams[i]);
      hide OpusTags.HeaderBytes;
    }

    /** markTrackEndOfStream: the saved last page, rewritten with the EOS flag. */
    method MarkTrackEndOfStream(track: Track, ghost pages: seq<Page>, ghost at: nat)
      requires Crc32.IsTable(table) && file == base + AllBytes(pages)
      requires track.lastPageWritten ==> LastOk(base, pages, at, track.LastPage(), track.lastPageOffset)
      modifies this`file
      ensures file == base + AllBytes(if track.lastPageWritten then MarkLast(pages, track.serial) else pages)
    {
      hide Valid, Sound, Registered, Tracked, BookOk, AllBytes, PutPacket, NextIndex, SsrcInUse, SerialInUse,
        Crc32.IsTable, Opus.IdHeader, Opus.SampleCount, OpusTags.HeaderBytes, OpusTags.ValidTags, LastOk,
        PagesFor, Lacing, MarkLast, Marked, PageBytes, WriteAt, WithEos;
      if !track.lastPageWritten {
        return;
      }
      ghost var page := track.LastPage();
      LastOkParts(base, pages, at, page, track.lastPageOffset);
      RewrittenPage(page);
      OneMarked(page);
      RewriteIsLocal(page);
      MarkLastIs(pages, at);
      PageReplaced(base, pages, at, Marked(page));
      var data := CreatePageForSerial(
        table, Packet(track.lastPayload, WithEos(track.lastPageHeaderType), track.lastGranule), track.serial,
        track.lastPageIndex);
      file := WriteAt(file, data, track.lastPageOffset);
    }

    /** The last page of every track is rewritten in place. */
    method MarkEnds()
      requires Sound() && hasStream && hasRewriter
      requires forall i :: 0 <= i < |book.streams| ==> book.streams[i].packets != []
      modifies this`file, this`book
      ensures Registered() && file == base + AllBytes(book.pages)
      ensures Abstract() == old(Abstract()).(pages := MarkAll(old(book.pages), old(book.streams)))
    {
      hide Valid, Sound, Registered, Tracked, BookOk, AllBytes, PutPacket, NextIndex, SsrcInUse, SerialInUse,
        Crc32.IsTable, Opus.IdHeader, Opus.SampleCount, OpusTags.HeaderBytes, OpusTags.ValidTags, MarkAll,
        MarkLast, LastOk;
      ghost var pages := book.pages;
      SoundTable();
      MarkNone(book);
      BookOfSound();
      BookLasts(base, book);
      for k := 0 to |trackOrder|
        invariant book == old(book) && Registered() && Tracked(-1) && BookOk(base, book, true)
        invariant pages == MarkAll(book.pages, book.streams[..k])
        invariant file == base + AllBytes(pages)
        invariant forall j :: k <= j < |trackOrder| ==>
                    LastOk(base, pages, book.lastAt[j], book.status[j].last, book.status[j].offset)
      {
        TrackShown(k);
        MarkTrackEndOfStream(trackOrder[k], pages, book.lastAt[k]);
        MarkMore(book, k);
        OthersUnmoved(base, book, pages, k);
        pages := MarkLast(pages, book.streams[k].serial);
      }
      assert book.streams[..|trackOrder|] == book.streams;
      RecordPages(pages);
    }

    lemma SoundTable()
      requires Sound()
      ensures file == base + AllBytes(book.pages)
    {}

    lemma BookOfSound()
      requires Sound() && hasStream
      ensures BookOk(base, book, hasRewriter) && Tracked(-1)
    {}

    lemma TrackShown(k: nat)
      requires Registered() && Tracked(-1) && k < |trackOrder| && BookOk(base, book, true)
      requires forall i :: 0 <= i < |book.streams| ==> book.streams[i].packets != []
      ensures trackOrder[k].lastPageWritten && trackOrder[k].LastPage() == book.status[k].last
      ensures trackOrder[k].lastPageOffset == book.status[k].offset
      ensures trackOrder[k].serial == book.streams[k].serial
    {
      hide Registered, Tracked, BookOk, PageBytes, Rendered, SsrcInUse, Crc32.IsTable, Opus.IdHeader,
        OpusTags.HeaderBytes;
      BookLasts(base, book);
      TrackedAt(k);
      OwnsTrack(k);
    }

    lemma TrackedAt(k: nat)
      requires |book.status| == |trackOrder| && Tracked(-1) && k < |trackOrder|
      ensures trackOrder[k].Status() == book.status[k]
    {}

    ghost method RecordPages(pages: seq<Page>)
      requires Registered()
      modifies this`book
      ensures Registered() && book == old(book).(pages := pages)
    {
      hide SsrcInUse, Opus.IdHeader, OpusTags.HeaderBytes, Crc32.IsTable;
      book := book.(pages := pages);
    }

    /** writeNilEndOfStreamPage. */
    method WriteNilEndOfStreamPage(track: Track, ghost s: Stream, ghost pages: seq<Page>)
      requires Crc32.IsTable(table) && file == base + AllBytes(pages)
      requires track.pageIndex == NextIndex(s) && track.previousGranule == s.granule && track.serial == s.serial
      modifies this`file, track`pageIndex
      ensures file == base + AllBytes(pages + EosPages(s))
    {
      hide PageBytes, Rendered, NextIndex, Crc32.IsTable, SsrcInUse, Opus.IdHeader, OpusTags.HeaderBytes;
      assert EosPages(s) != [] ==> EosPages(s)[1..] == [];
      PiecesConcat(pages, EosPages(s));
      ConcatAssoc(base, AllBytes(pages), AllBytes(EosPages(s)));
      if track.pageIndex == 0 {
        assert AllBytes(pages) + [] == AllBytes(pages);
        return;
      }
      var data := CreatePage(table, Page(ENDING, track.previousGranule, track.serial, track.pageIndex, [], []));
      file := file + data[..];
      track.pageIndex := (track.pageIndex + 1) % UINT32_LIMIT;
    }

    /** An empty page with the EOS flag is appended for every track. */
    method AppendEnds()
      requires Sound() && hasStream
      modifies this`file, this`book, trackOrder
      ensures Registered() && file == base + AllBytes(book.pages)
      ensures Abstract() == old(Abstract()).(pages := old(book.pages) + Flatten(EosParts(old(book.streams))))
    {
      hide Valid, Sound, Registered, Tracked, BookOk, AllBytes, PutPacket, NextIndex, SsrcInUse, SerialInUse,
        Crc32.IsTable, Opus.IdHeader, Opus.SampleCount, OpusTags.HeaderBytes, OpusTags.ValidTags, EosParts,
        EosPages, Flatten;
      ghost var pages := book.pages;
      SoundTable();
      EosNone(book.streams);
      assert pages + [] == pages;
      ghost var parts := EosParts(book.streams);
      for k := 0 to |trackOrder|
        invariant book == old(book) && Registered()
        invariant pages == book.pages + Flatten(parts[..k]) && file == base + AllBytes(pages)
        invariant forall j :: k <= j < |trackOrder| ==> unchanged(trackOrder[j])
      {
        OldTrack(k);
        EosMore(book.streams, k);
        ConcatAssoc(book.pages, Flatten(parts[..k]), parts[k]);
        Apart(k);
        WriteNilEndOfStreamPage(trackOrder[k], book.streams[k], pages);
        pages := pages + parts[k];
      }
      assert parts[..|trackOrder|] == parts;
      RecordPages(pages);
    }

    lemma Apart(k: nat)
      requires NoAliases() && k < |trackOrder|
      ensures forall j :: k < j < |trackOrder| ==> trackOrder[j] != trackOrder[k]
    {}

    /** A track that has not changed is as it was. */
    twostate lemma OldTrack(k: nat)
      requires old(Sound()) && hasStream && old(hasStream) && book == old(book) && trackOrder == old(trackOrder)
      requires k < |trackOrder| && |book.streams| == |trackOrder| && unchanged(trackOrder[k])
      ensures trackOrder[k].pageIndex == NextIndex(book.streams[k])
      ensures trackOrder[k].previousGranule == book.streams[k].granule
      ensures trackOrder[k].serial == book.streams[k].serial
    {
      OldParts(k);
    }

    twostate lemma OldParts(k: nat)
      requires old(Sound()) && old(hasStream) && k < |old(trackOrder)| && |old(book.streams)| == |old(trackOrder)|
      ensures old(trackOrder[k].pageIndex) == NextIndex(old(book.streams[k]))
      ensures old(trackOrder[k].previousGranule) == old(book.streams[k].granule)
      ensures old(trackOrder[k]).serial == old(book.streams[k]).serial
    {
      assert old(TrackOk(base, book.pages, book.streams[k], book.status[k], book.lastAt[k], hasRewriter));
    }

    /** Writer.Close. */
    method Close()
      requires Valid()
      modifies this`hasStream, this`hasRewriter, this`started, this`file, this`book, trackOrder
      ensures Valid() && !hasStream
      ensures Abstract() == OggMux.Close(old(Abstract()), old(hasRewriter))
    {
      hide Valid, Sound, Registered, Tracked, BookOk, AllBytes, PutPacket, Start, MarkAll, EosParts, Flatten, NextIndex,
        SsrcInUse, SerialInUse, Crc32.IsTable, Opus.IdHeader, Opus.SampleCount, OpusTags.HeaderBytes, OpusTags.ValidTags;
      ValidParts();
      if !hasStream {
        SoundTable();
        hasRewriter := false;
        ClosedValid();
        return;
      }
      StartLocked();
      ValidParts();
      if hasRewriter {
        MarkEnds();
      } else {
        AppendEnds();
      }
      label Ended:
      hasRewriter, hasStream := false, false;
      Unregistered@Ended();
      ClosedValid();
    }

    twostate lemma Unregistered()
      requires old(Registered()) && !hasStream && book == old(book) && trackOrder == old(trackOrder)
      ensures Registered()
    {
      hide SsrcInUse, Opus.IdHeader, OpusTags.HeaderBytes, Crc32.IsTable;
    }

    lemma ClosedValid()
      requires !hasStream && Registered() && file == base + AllBytes(book.pages)
      ensures Valid()
    {}

    /** serialInUse. */
    method SerialTaken(serial: uint32) returns (taken: bool)
      requires Registered()
      ensures taken == SerialInUse(book.streams, serial)
    {
      for i := 0 to |trackOrder|
        invariant forall j :: 0 <= j < i ==> book.streams[j].serial != serial
      {
        OwnsTrack(i);
        if trackOrder[i].serial == serial {
          return true;
        }
      }
      taken := false;
    }

    /** allocateSerial: draws until a serial is free; `draws` are the random numbers. */
    method AllocateSerial(draws: seq<uint32>) returns (serial: uint32, ghost n: nat)
      requires Registered() && exists i :: 0 <= i < |draws| && !SerialInUse(book.streams, draws[i])
      ensures n < |draws| && serial == draws[n] && !SerialInUse(book.streams, serial)
      ensures forall i :: 0 <= i < n ==> SerialInUse(book.streams, draws[i])
    {
      hide *;
      n := 0;
      var i: nat := 0;
      serial := draws[0];
      var taken := SerialTaken(serial);
      while taken
        invariant n == i < |draws| && serial == draws[i] && taken == SerialInUse(book.streams, serial)
        invariant forall j :: 0 <= j < i ==> SerialInUse(book.streams, draws[j])
        decreases |draws| - i
      {
        i := i + 1;
        n := i;
        serial := draws[i];
        taken := SerialTaken(serial);
      }
    }

    /** NewTrack. */
    method NewTrack(ssrc: uint32, c: TrackConfig, draws: seq<uint32>) returns (r: Result<Track, Error>, ghost drawn: uint32)
      requires Valid()
      requires c.serial == None ==> exists i :: 0 <= i < |draws| && !SerialInUse(book.streams, draws[i])
      modifies this`tracks, this`trackOrder, this`book
      ensures Valid() && (c.serial == None ==> drawn in draws && !SerialInUse(old(book.streams), drawn))
      ensures Abstract() == AddTrack(old(Abstract()), ssrc, c, drawn, utf8).0
      ensures AddTrack(old(Abstract()), ssrc, c, drawn, utf8).1 == if r.Err? then Some(r.error) else None
      ensures r.Err? ==> trackOrder == old(trackOrder)
      ensures r.Ok? ==> fresh(r.value) && trackOrder == old(trackOrder) + [r.value]
    {
      hide Valid, Sound, Registered, Tracked, BookOk, AllBytes, PutPacket, Start, NextIndex, SsrcInUse, SerialInUse,
        Crc32.IsTable, Opus.IdHeader, Opus.SampleCount, OpusTags.HeaderBytes, OpusTags.ValidTags;
      ValidParts();
      drawn := 0;
      if c.serial == None {
        ghost var i :| 0 <= i < |draws| && !SerialInUse(book.streams, draws[i]);
        drawn := draws[i];
      }
      if !hasStream {
        return Err(OutputNotOpened), drawn;
      }
      if started {
        return Err(TracksStarted), drawn;
      }
      SsrcsKnown();
      if ssrc in tracks {
        return Err(DuplicateSsrc), drawn;
      }
      if !OpusTags.ValidTags(c.tags, utf8) {
        return Err(InvalidTags), drawn;
      }
      var serial: uint32;
      if c.serial == None {
        ghost var n;
        serial, n := AllocateSerial(draws);
        drawn := serial;
      } else {
        serial := c.serial.value;
        var taken := SerialTaken(serial);
        if taken {
          return Err(DuplicateSerial), drawn;
        }
      }
      var track := new Track(ssrc, serial, c);
      Register(track);
      r := Ok(track);
    }

    method Register(track: Track)
      requires Valid() && hasStream && !started && track !in trackOrder
      requires !SsrcInUse(book.streams, track.ssrc) && !SerialInUse(book.streams, track.serial)
      requires track.pageIndex == 0 && track.previousGranule == 0 && !track.lastPageWritten
      modifies this`tracks, this`trackOrder, this`book
      ensures Valid() && trackOrder == old(trackOrder) + [track]
      ensures Abstract() == old(Abstract()).(streams := old(book.streams) + [NewStream(track)])
    {
      hide Valid, Sound, Registered, Tracked, BookOk, AllBytes, PutPacket, NextIndex, SsrcInUse, SerialInUse,
        Crc32.IsTable, Opus.IdHeader, Opus.SampleCount, OpusTags.HeaderBytes, OpusTags.ValidTags;
      ghost var s := NewStream(track);
      ValidParts();
      BookOfSound();
      SoundTable();
      BookGrows(base, book, s, track.Status(), hasRewriter);
      tracks := tracks[track.ssrc := track];
      trackOrder := trackOrder + [track];
      book := Grown(book, s, track.Status());
      RegisteredMore(track);
      TrackedMore(track);
      SoundFrom();
      ValidFrom();
    }

    twostate lemma RegisteredMore(track: Track)
      requires old(Registered()) && hasStream && old(hasStream) && track !in old(trackOrder)
      requires !SsrcInUse(old(book.streams), track.ssrc)
      requires trackOrder == old(trackOrder) + [track] && tracks == old(tracks)[track.ssrc := track]
      requires |book.streams| == |book.status| == |book.lastAt| == |trackOrder|
      requires book.streams == old(book.streams) + [NewStream(track)]
      ensures Registered()
    {
      hide Opus.IdHeader, OpusTags.HeaderBytes, Crc32.IsTable, SsrcInUse;
      SsrcsAppend(old(book.streams), NewStream(track));
      assert forall j :: 0 <= j < |old(trackOrder)| ==> old(trackOrder)[j].Owns(old(book.streams)[j]);
    }

    twostate lemma TrackedMore(track: Track)
      requires |old(book.status)| == |old(trackOrder)| && |book.status| == |trackOrder| && old(Tracked(-1))
      requires trackOrder == old(trackOrder) + [track] && book.status == old(book.status) + [track.Status()]
      requires forall j :: 0 <= j < |old(trackOrder)| ==> unchanged(old(trackOrder)[j])
      ensures Tracked(-1)
    {
      forall j | 0 <= j < |trackOrder|
        ensures trackOrder[j].Status() == book.status[j]
      {
        assert j < |old(trackOrder)| ==> old(trackOrder[j].Status()) == book.status[j];
      }
    }

    lemma SoundFrom()
      requires Registered() && file == base + AllBytes(book.pages) && BookOk(base, book, hasRewriter) && Tracked(-1)
      ensures Sound()
    {}

    ghost function NewStream(track: Track): Stream {
      Stream(track.ssrc, track.serial, Opus.IdHeader(track.sampleRate, track.mapping),
             OpusTags.HeaderBytes(track.tags), [], 0)
    }

    lemma SsrcsKnown()
      requires Sound() && hasStream
      ensures forall ssrc :: ssrc in tracks <==> SsrcInUse(book.streams, ssrc)
    {
      hide SsrcInUse;
    }

    /** Track.WriteRTP. */
    method WriteRtp(track: Track, packet: Option<Rtp>, ghost i: nat) returns (err: Option<Error>)
      requires Valid() && i < |trackOrder| && track == trackOrder[i]
      modifies this`file, this`book, this`started, trackOrder
      ensures Valid()
      ensures (Abstract(), err) == OggMux.WriteRtp(old(Abstract()), i, packet)
    {
      hide Valid, Sound, Registered, Tracked, BookOk, AllBytes, PutPacket, Start, WriteOpus, NextIndex, SsrcInUse,
        SerialInUse, Crc32.IsTable, Opus.IdHeader, Opus.SampleCount, OpusTags.HeaderBytes, OpusTags.ValidTags;
      ValidParts();
      OwnsTrack(i);
      if !hasStream {
        return Some(OutputNotOpened);
      }
      if packet == None {
        return Some(NilPacket);
      }
      if packet.value.ssrc != track.ssrc {
        return Some(SsrcMismatch);
      }
      match packet.value.opus {
        case Broken => return Some(Depacketize);
        case Nothing => return None;
        case Opus(payload) =>
          StartLocked();
          err := WriteOpusPayload(track, payload, i);
      }
    }

    lemma ValidParts()
      requires Valid()
      ensures Sound()
      ensures hasStream ==> forall i :: 0 <= i < |book.streams| ==> (book.streams[i].packets != [] <==> started)
    {}

    lemma ValidFrom()
      requires Sound()
      requires hasStream ==> forall i :: 0 <= i < |book.streams| ==> (book.streams[i].packets != [] <==> started)
      ensures Valid()
    {}
  }

  /** The book with one more track. */
  function Grown(b: Book, s: Stream, t: Status): Book {
    Book(b.pages, b.streams + [s], b.status + [t], b.lastAt + [0])
  }

  lemma BookGrows(base: seq<byte>, b: Book, s: Stream, t: Status, rewritable: bool)
    requires BookOk(base, b, rewritable) && !SerialInUse(b.streams, s.serial)
    requires s.packets == [] && s.granule == t.granule && t.pageIndex == 0 && !t.lastWritten
    ensures BookOk(base, Grown(b, s, t), rewritable)
  {
    FirstIndex(s);
    SerialsAppend(b.streams, s);
    hide LastOk, NextIndex, DistinctSerials, SerialInUse;
    assert forall j :: 0 <= j < |b.streams| ==>
        TrackOk(base, b.pages, b.streams[j], b.status[j], b.lastAt[j], rewritable);
  }

  lemma SsrcsAppend(streams: seq<Stream>, s: Stream)
    ensures forall ssrc :: SsrcInUse(streams + [s], ssrc) <==> SsrcInUse(streams, ssrc) || ssrc == s.ssrc
  {
    forall ssrc
      ensures SsrcInUse(streams + [s], ssrc) <==> SsrcInUse(streams, ssrc) || ssrc == s.ssrc
    {
      if SsrcInUse(streams, ssrc) {
        var j :| 0 <= j < |streams| && streams[j].ssrc == ssrc;
        assert (streams + [s])[j].ssrc == ssrc;
      }
      assert (streams + [s])[|streams|] == s;
    }
  }

  lemma SerialsAppend(streams: seq<Stream>, s: Stream)
    requires DistinctSerials(streams) && !SerialInUse(streams, s.serial)
    ensures DistinctSerials(streams + [s])
  {}

  // The state inside Close.

  lemma LastOkParts(base: seq<byte>, pages: seq<Page>, at: nat, page: Page, offset: nat)
    requires LastOk(base, pages, at, page, offset)
    ensures at < |pages| && pages[at] == page && offset == |base| + |AllBytes(pages[..at])|
    ensures |page.payload| < MAX_PAYLOAD && page.segments == Lacing(|page.payload|)
    ensures forall k :: at < k < |pages| ==> pages[k].serial != pages[at].serial
  {
    hide AllBytes, Lacing;
  }

  lemma OneMarked(p: Page)
    ensures AllBytes([Marked(p)]) == PageBytes(Marked(p))
  {
    hide PageBytes, Marked;
    assert [Marked(p)][1..] == [];
  }

  lemma MarkNone(b: Book)
    ensures MarkAll(b.pages, b.streams[..0]) == b.pages
  {}

  lemma MarkMore(b: Book, k: nat)
    requires k < |b.streams|
    ensures MarkAll(b.pages, b.streams[..k + 1]) == MarkLast(MarkAll(b.pages, b.streams[..k]), b.streams[k].serial)
  {
    hide MarkLast;
    assert b.streams[..k + 1][..k] == b.streams[..k];
  }

  lemma BookLasts(base: seq<byte>, b: Book)
    requires BookOk(base, b, true) && forall i :: 0 <= i < |b.streams| ==> b.streams[i].packets != []
    ensures |b.streams| == |b.status| == |b.lastAt|
    ensures forall i :: 0 <= i < |b.streams| ==>
              && b.status[i].lastWritten && b.status[i].last.serial == b.streams[i].serial
              && LastOk(base, b.pages, b.lastAt[i], b.status[i].last, b.status[i].offset)
  {
    hide LastOk, NextIndex;
    forall i | 0 <= i < |b.streams|
      ensures b.status[i].lastWritten && b.status[i].last.serial == b.streams[i].serial
      ensures LastOk(base, b.pages, b.lastAt[i], b.status[i].last, b.status[i].offset)
    {
      assert TrackOk(base, b.pages, b.streams[i], b.status[i], b.lastAt[i], true);
    }
  }

  lemma OthersUnmoved(base: seq<byte>, b: Book, pages: seq<Page>, k: nat)
    requires BookOk(base, b, true) && k < |b.streams| == |b.status| == |b.lastAt|
    requires forall i :: 0 <= i < |b.streams| ==> b.streams[i].packets != []
    requires forall j :: k <= j < |b.streams| ==> LastOk(base, pages, b.lastAt[j], b.status[j].last, b.status[j].offset)
    ensures var now := MarkLast(pages, b.streams[k].serial);
            forall j :: k < j < |b.streams| ==> LastOk(base, now, b.lastAt[j], b.status[j].last, b.status[j].offset)
  {
    hide *;
    BookLasts(base, b);
    BookParts(base, b, true);
    LastOkParts(base, pages, b.lastAt[k], b.status[k].last, b.status[k].offset);
    MarkLastIs(pages, b.lastAt[k]);
    forall j | k < j < |b.streams|
      ensures LastOk(base, MarkLast(pages, b.streams[k].serial), b.lastAt[j], b.status[j].last, b.status[j].offset)
    {
      LastUnmoved(base, pages, b.lastAt[j], b.status[j].last, b.status[j].offset, b.lastAt[k]);
    }
  }

  lemma EosNone(streams: seq<Stream>)
    ensures Flatten(EosParts(streams)[..0]) == []
  {}

  lemma EosMore(streams: seq<Stream>, k: nat)
    requires k < |streams|
    ensures Flatten(EosParts(streams)[..k + 1]) == Flatten(EosParts(streams)[..k]) + EosParts(streams)[k]
    ensures EosParts(streams)[k] == EosPages(streams[k])
  {
    hide EosPages;
    FlattenSnoc(EosParts(streams), k);
  }

  // The state inside startLocked.

  /** The first n tracks have their OpusHead. */
  function IdsDone(st: State, n: nat): (r: State)
    requires n <= |st.streams|
    ensures |r.streams| == |st.streams|
  {
    st.(streams := seq(|st.streams|, j requires 0 <= j < |st.streams| =>
                     if j < n then st.streams[j].(packets := [IdPacket(st.streams[j])]) else st.streams[j]),
        pages := st.pages + Flatten(IdParts(st.streams)[..n]))
  }

  /** All tracks have their OpusHead and the first n their OpusTags. */
  function TagsDone(st: State, n: nat): (r: State)
    requires n <= |st.streams|
    ensures |r.streams| == |st.streams|
  {
    st.(streams := seq(|st.streams|, j requires 0 <= j < |st.streams| =>
                     if j < n then Begun(st.streams[j]) else st.streams[j].(packets := [IdPacket(st.streams[j])])),
        pages := st.pages + (Flatten(IdParts(st.streams)) + Flatten(TagParts(st.streams)[..n])))
  }

  ghost predicate Untouched(st: State) {
    forall i :: 0 <= i < |st.streams| ==> st.streams[i].packets == [] && |st.streams[i].id| < MAX_PAYLOAD
  }

  lemma IdsDoneNone(st: State)
    ensures IdsDone(st, 0) == st
  {
    assert IdParts(st.streams)[..0] == [];
    assert st.pages + [] == st.pages;
    hide IdParts;
    assert IdsDone(st, 0).streams == st.streams;
  }

  lemma FlattenSnoc(parts: seq<seq<Page>>, n: nat)
    requires n < |parts|
    ensures Flatten(parts[..n + 1]) == Flatten(parts[..n]) + parts[n]
  {
    assert parts[..n + 1] == parts[..n] + [parts[n]];
    FlattenAppend(parts[..n], [parts[n]]);
    assert [parts[n]][1..] == [];
  }

  lemma FirstIndex(s: Stream)
    requires s.packets == []
    ensures NextIndex(s) == 0
  {}

  lemma SecondIndex(s: Stream)
    requires s.packets == [IdPacket(s)] && |s.id| < MAX_PAYLOAD
    ensures NextIndex(s) == 1
  {
    LogicalUnfold(s.packets, s.serial, 0);
    LogicalUnfold(s.packets[1..], s.serial, 1);
    hide Logical;
  }

  lemma IdsDoneStep(st: State, n: nat)
    requires n < |st.streams| && Untouched(st)
    ensures var s := st.streams[n];
            && IdsDone(st, n).streams[n] == s
            && PutPacket(IdsDone(st, n), n, IdPacket(s), s.granule) == IdsDone(st, n + 1)
  {
    var s := st.streams[n];
    FirstIndex(s);
    FlattenSnoc(IdParts(st.streams), n);
    hide PagesFor, NextIndex, Flatten;
    ConcatAssoc(st.pages, Flatten(IdParts(st.streams)[..n]), IdParts(st.streams)[n]);
    assert [] + [IdPacket(s)] == [IdPacket(s)];
    assert PutPacket(IdsDone(st, n), n, IdPacket(s), s.granule).streams == IdsDone(st, n + 1).streams;
  }

  lemma TagsDoneNone(st: State)
    ensures TagsDone(st, 0) == IdsDone(st, |st.streams|)
  {
    hide PagesFor;
    assert TagParts(st.streams)[..0] == [] && IdParts(st.streams)[..|st.streams|] == IdParts(st.streams);
    assert Flatten(IdParts(st.streams)) + [] == Flatten(IdParts(st.streams));
    assert TagsDone(st, 0).streams == IdsDone(st, |st.streams|).streams;
  }

  lemma TagsDoneStep(st: State, n: nat)
    requires n < |st.streams| && Untouched(st)
    ensures var s := st.streams[n];
            && TagsDone(st, n).streams[n] == s.(packets := [IdPacket(s)])
            && PutPacket(TagsDone(st, n), n, TagsPacket(s), s.granule) == TagsDone(st, n + 1)
  {
    var s := st.streams[n];
    SecondIndex(s.(packets := [IdPacket(s)]));
    FlattenSnoc(TagParts(st.streams), n);
    hide PagesFor, NextIndex, Flatten;
    var ids, tags := Flatten(IdParts(st.streams)), TagParts(st.streams);
    assert st.pages + (ids + Flatten(tags[..n])) + tags[n] == st.pages + (ids + (Flatten(tags[..n]) + tags[n]));
    assert [IdPacket(s)] + [TagsPacket(s)] == [IdPacket(s), TagsPacket(s)];
    assert PutPacket(TagsDone(st, n), n, TagsPacket(s), s.granule).streams == TagsDone(st, n + 1).streams;
  }

  lemma TagsDoneAll(st: State)
    ensures var r := TagsDone(st, |st.streams|);
            && r.streams == AllBegun(st.streams) && r.pages == st.pages + HeaderPages(st.streams)
            && r.open == st.open && forall i :: 0 <= i < |r.streams| ==> r.streams[i].packets != []
  {
    hide PagesFor;
    assert TagParts(st.streams)[..|st.streams|] == TagParts(st.streams);
  }

  /** A state in which the granule position of one stream has moved on. */
  function Advanced(st: State, i: nat, granule: uint64): State
    requires i < |st.streams|
  {
    st.(streams := st.streams[i := st.streams[i].(granule := granule)])
  }

  lemma GranuleElsewhere(s: Stream, granule: uint64)
    ensures NextIndex(s.(granule := granule)) == NextIndex(s)
  {}

  lemma PutAdvanced(st: State, i: nat, p: Packet, granule: uint64)
    requires i < |st.streams|
    ensures PutPacket(Advanced(st, i, granule), i, p, granule) == PutPacket(st, i, p, granule)
  {
    hide PagesFor, NextIndex;
    GranuleElsewhere(st.streams[i], granule);
  }

  lemma PutFilled(st: State, i: nat, p: Packet, granule: uint64)
    requires i < |st.streams|
    ensures var r := PutPacket(st, i, p, granule);
            && |r.streams| == |st.streams| && r.streams[i].packets != [] && r.open == st.open && r.started == st.started
            && forall j :: 0 <= j < |st.streams| && j != i ==> r.streams[j] == st.streams[j]
  {
    hide PagesFor, NextIndex;
  }

  lemma SameSsrcs(a: seq<Stream>, b: seq<Stream>)
    requires |a| == |b| && forall i :: 0 <= i < |a| ==> a[i].ssrc == b[i].ssrc
    ensures forall ssrc :: SsrcInUse(a, ssrc) == SsrcInUse(b, ssrc)
  {
    forall ssrc
      ensures SsrcInUse(a, ssrc) == SsrcInUse(b, ssrc)
    {
      if SsrcInUse(a, ssrc) {
        var j :| 0 <= j < |a| && a[j].ssrc == ssrc;
        assert b[j].ssrc == ssrc;
      }
      if SsrcInUse(b, ssrc) {
        var j :| 0 <= j < |b| && b[j].ssrc == ssrc;
        assert a[j].ssrc == ssrc;
      }
    }
  }

  lemma NextIndexPut(s: Stream, p: Packet)
    ensures var pages := PagesFor(p, s.serial, NextIndex(s), true);
            NextIndex(s.(packets := s.packets + [p])) == IndexAt(NextIndex(s), |pages|) ==
            (NextIndex(s) + |pages|) % UINT32_LIMIT
  {
    hide PagesFor, Logical;
    LogicalAppend(s.packets, p, s.serial, 0);
    IndexAdds(0, |Logical(s.packets, s.serial, 0)|, |PagesFor(p, s.serial, NextIndex(s), true)|);
  }
}
