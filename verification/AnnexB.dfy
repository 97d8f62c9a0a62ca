/** internal/annexb/reader.go: the streaming NAL unit reader, a counter of zero bytes, against
    the batch splitter of mpegts/h26x.go, a substring search. */
module AnnexB {
  import opened Bits
  import opened Bytes
  import opened H26x

  datatype NextResult = Unit(nal: Nal) | Eof | InvalidPrefix

  const START_CODE: seq<byte> := [0, 0, 0, 1]

  /** The length of the start code at the front of a stream, or 0. */
  function PrefixSize(s: seq<byte>): nat
    requires |s| >= 4
  {
    if s[0] == 0 && s[1] == 0 && s[2] == 1 then 3
    else if s[0] == 0 && s[1] == 0 && s[2] == 0 && s[3] == 1 then 4
    else 0
  }

  function Min(a: nat, b: nat): (m: nat)
    ensures m <= a && m <= b
  {
    if a <= b then a else b
  }

  /** Zero bytes at the end of a string. */
  function TrailingZeros(s: seq<byte>): (n: nat)
    ensures n <= |s|
    ensures forall i :: |s| - n <= i < |s| ==> s[i] == 0
    ensures n < |s| ==> s[|s| - n - 1] != 0
  {
    if s == [] || s[|s| - 1] != 0 then 0 else 1 + TrailingZeros(s[..|s| - 1])
  }

  /** The units of a stream, as successive calls of Next return them. */
  function Streamed(stream: seq<byte>): seq<Nal> {
    if |stream| < 4 || PrefixSize(stream) == 0 then [] else NalsAfter(stream[PrefixSize(stream)..])
  }

  class Reader {
    var rest: seq<byte>   // bytes of the stream not read yet
    var started: bool

    constructor (stream: seq<byte>)
      ensures rest == stream && !started
    {
      rest, started := stream, false;
    }

    /** The units this reader still has to return. */
    ghost function Pending(): seq<Nal>
      reads this
    {
      if started then NalsAfter(rest) else Streamed(rest)
    }

    method ReadPrefix() returns (r: NextResult)
      modifies this`rest
      ensures |old(rest)| < 4 ==> r == Eof && rest == old(rest)
      ensures |old(rest)| >= 4 && PrefixSize(old(rest)) == 0 ==> r == InvalidPrefix && rest == old(rest)
      ensures |old(rest)| >= 4 && PrefixSize(old(rest)) > 0 ==> r.Unit? && rest == old(rest)[PrefixSize(old(rest))..]
    {
      if |rest| < 4 {
        return Eof;
      }
      var size := PrefixSize(rest);
      if size == 0 {
        return InvalidPrefix;
      }
      rest := rest[size..];
      r := Unit([]);
    }

    /** Each call returns the next unit of the batch splitter; at the end of the stream, Eof. */
    method Next() returns (r: NextResult)
      modifies this
      ensures r == InvalidPrefix <==> !old(started) && |old(rest)| >= 4 && PrefixSize(old(rest)) == 0
      ensures r == InvalidPrefix ==> rest == old(rest) && !started
      ensures r == Eof <==> r != InvalidPrefix && old(Pending()) == []
      ensures r.Unit? ==> old(Pending()) == [r.nal] + Pending() && r.nal != [] && started
      ensures r == Eof ==> Pending() == []
    {
      hide NalsAfter, PrefixSize, Index, NonEmpty, TrailingZeros, Min;
      if !started {
        var prefix := ReadPrefix();
        if !prefix.Unit? {
          return prefix;
        }
        started := true;
      }
      var data: seq<byte> := [];
      var zeros := 0;
      NothingBefore(rest);
      while true
        invariant started && NalsAfter(data + rest) == old(Pending())
        invariant zeros == TrailingZeros(data) && Index(data) == -1
        decreases |rest|
      {
        if rest == [] {
          UnitAtEnd(data);
          NonEmptyCases(data, []);
          if |data| > 0 {
            return Unit(data);
          }
          return Eof;
        }
        var readByte := rest[0];
        ghost var unread := rest;
        rest := rest[1..];
        if readByte == 1 && zeros >= 2 {
          UnitBeforeStartCode(data, unread);
          data := data[..|data| - Min(zeros, 3)];
          zeros := 0;
          NonEmptyCases(data, NalsAfter(rest));
          if |data| > 0 {
            return Unit(data);
          }
          NothingBefore(rest);
          continue;
        }
        NoStartCodeYet(data, readByte);
        assert unread == [readByte] + rest;
        ConcatAssoc(data, [readByte], rest);
        data := data + [readByte];
        if readByte == 0 {
          zeros := zeros + 1;
        } else {
          zeros := 0;
        }
      }
    }
  }

  lemma NothingBefore(rest: seq<byte>)
    ensures [] + rest == rest
  {}

  lemma UnitAtEnd(data: seq<byte>)
    requires Index(data) == -1
    ensures NalsAfter(data + []) == NonEmpty(data) && NalsAfter([]) == []
  {
    assert data + [] == data;
  }

  lemma NonEmptyCases(t: seq<byte>, after: seq<Nal>)
    ensures NonEmpty(t) + after == if t == [] then after else [t] + after
  {}

  /** Two zeros and a one end the unit: stripping at most three zeros is the batch rule. */
  lemma UnitBeforeStartCode(data: seq<byte>, unread: seq<byte>)
    requires unread != [] && unread[0] == 1 && TrailingZeros(data) >= 2
    requires Index(data) == -1
    ensures var nal := data[..|data| - Min(TrailingZeros(data), 3)];
            NalsAfter(data + unread) == NonEmpty(nal) + NalsAfter(unread[1..])
  {
    hide NalsAfter, Index;
    var s, r := data + unread, |data| - 2;
    IndexAtEnd(data, unread);
    assert s[r + 3..] == unread[1..];
    assert s[..UnitEnd(s, r)] == data[..|data| - Min(TrailingZeros(data), 3)];
    NalsAfterUnfolds(s);
  }

  lemma IndexAtEnd(data: seq<byte>, unread: seq<byte>)
    requires unread != [] && unread[0] == 1 && TrailingZeros(data) >= 2 && Index(data) == -1
    ensures Index(data + unread) == |data| - 2
  {
    hide Index;
    var s := data + unread;
    assert StartCodeAt(s, |data| - 2);
    var i := Index(s);
    assert i + 3 > |data| || StartCodeAt(data, i);
  }

  lemma NoStartCodeYet(data: seq<byte>, b: byte)
    requires Index(data) == -1
    requires b != 1 || TrailingZeros(data) < 2
    ensures Index(data + [b]) == -1
    ensures TrailingZeros(data + [b]) == if b == 0 then TrailingZeros(data) + 1 else 0
  {
    hide Index;
    var s := data + [b];
    assert s[..|data|] == data;
    var i := Index(s);
    assert i == -1 || i + 3 > |data| || StartCodeAt(data, i);
    TwoZeros(data);
  }

  lemma TwoZeros(data: seq<byte>)
    ensures |data| >= 2 && data[|data| - 1] == 0 && data[|data| - 2] == 0 ==> TrailingZeros(data) >= 2
  {}

  /** Every result of Next up to the end of the stream, in order. */
  method ReadAll(stream: seq<byte>) returns (nals: seq<Nal>, last: NextResult)
    ensures nals == Streamed(stream)
    ensures last == if |stream| >= 4 && PrefixSize(stream) == 0 then InvalidPrefix else Eof
    ensures StartsWithCode(stream) ==> last == Eof && nals == Nals(stream)
  {
    var reader := new Reader(stream);
    nals := [];
    PrefixIsFirstStartCode(stream);
    hide NalsAfter, Nals, StartsWithCode, PrefixSize;
    ghost var all := reader.Pending();
    last := reader.Next();
    while last.Unit?
      invariant last == InvalidPrefix <==> |stream| >= 4 && PrefixSize(stream) == 0
      invariant last == InvalidPrefix ==> nals == []
      invariant last.Unit? ==> all == nals + [last.nal] + reader.Pending() && reader.started
      invariant last == Eof ==> all == nals
      decreases if last.Unit? then 1 + |reader.Pending()| else 0
    {
      nals := nals + [last.nal];
      last := reader.Next();
    }
  }

  /** The stream begins with a three- or four-byte start code. */
  predicate StartsWithCode(s: seq<byte>) {
    StartCodeAt(s, 0) || (|s| >= 4 && s[0] == 0 && StartCodeAt(s, 1))
  }

  lemma PrefixIsFirstStartCode(s: seq<byte>)
    ensures StartsWithCode(s) && |s| >= 4 ==> PrefixSize(s) > 0 && Nals(s) == NalsAfter(s[PrefixSize(s)..])
    ensures StartsWithCode(s) && |s| < 4 ==> Nals(s) == []
  {
    hide Index, NalsAfter;
    NalsUnfolds(s);
    if StartsWithCode(s) && |s| < 4 {
      assert s[3..] == [];
      NoUnits();
    }
  }

  lemma NoUnits()
    ensures NalsAfter([]) == []
  {}

  // Framing: each unit behind a four-byte start code.

  function Join(nals: seq<Nal>): seq<byte> {
    if nals == [] then [] else START_CODE + nals[0] + Join(nals[1..])
  }

  ghost predicate Framable(nals: seq<Nal>) {
    forall nal :: nal in nals ==> nal != [] && Index(nal) == -1
  }

  lemma {:induction false} FramingRoundTrip(nals: seq<Nal>)
    requires Framable(nals)
    ensures Nals(Join(nals)) == nals
  {
    if nals == [] {
    } else {
      FramableTail(nals);
      hide *;
      JoinIndex(nals);
      NalsUnfolds(Join(nals));
      UnitThenJoin(nals[0], nals[1..]);
      FramingRoundTrip(nals[1..]);
      assert [nals[0]] + nals[1..] == nals;
    }
  }

  /** The streaming reader returns the joined list as well, and then the end of the stream. */
  lemma StreamedFraming(nals: seq<Nal>)
    requires Framable(nals)
    ensures Streamed(Join(nals)) == nals && (nals == [] || StartsWithCode(Join(nals)))
  {
    FramingRoundTrip(nals);
    if nals != [] {
      PrefixIsFirstStartCode(Join(nals));
    }
    hide NalsAfter, Nals;
  }

  lemma FramableTail(nals: seq<Nal>)
    requires Framable(nals) && nals != []
    ensures nals[0] != [] && Index(nals[0]) == -1 && Framable(nals[1..])
  {
    assert nals[0] in nals && forall nal :: nal in nals[1..] ==> nal in nals;
  }

  lemma JoinIndex(nals: seq<Nal>)
    requires nals != []
    ensures Index(Join(nals)) == 1 && |Join(nals)| >= 4
    ensures Join(nals)[..3] == [0, 0, 0]
    ensures Join(nals)[4..] == nals[0] + Join(nals[1..])
  {
    hide Index;
    var t := nals[0] + Join(nals[1..]);
    ConcatAssoc(START_CODE, nals[0], Join(nals[1..]));
    IndexBehindStartCode(t);
  }

  lemma IndexBehindStartCode(t: seq<byte>)
    ensures var s := START_CODE + t; Index(s) == 1 && s[..3] == [0, 0, 0] && s[4..] == t
  {
    hide Index;
    var s := START_CODE + t;
    assert !StartCodeAt(s, 0) && StartCodeAt(s, 1);
  }

  lemma UnitThenJoin(nal: Nal, nals: seq<Nal>)
    requires nal != [] && Index(nal) == -1
    ensures NalsAfter(nal + Join(nals)) == [nal] + Nals(Join(nals))
  {
    var rest := Join(nals);
    var t := nal + rest;
    NalsUnfolds(rest);
    NalsAfterUnfolds(t);
    if nals == [] {
      assert t == nal;
    } else {
      JoinIndex(nals);
      hide Index, NalsAfter, Nals, Join;
      IndexBehindUnit(nal, rest);
      assert t[..UnitEnd(t, |nal| + 1)] == nal;
      assert t[|nal| + 4..] == rest[4..];
      NonEmptyCases(nal, NalsAfter(rest[4..]));
    }
  }

  lemma IndexBehindUnit(nal: Nal, rest: seq<byte>)
    requires Index(nal) == -1 && Index(rest) == 1 && |rest| >= 4 && rest[..3] == [0, 0, 0]
    ensures Index(nal + rest) == |nal| + 1
  {
    hide Index;
    var t := nal + rest;
    assert rest[0] == rest[..3][0] && rest[1] == rest[..3][1] && rest[2] == rest[..3][2];
    assert StartCodeAt(t, |nal| + 1);
    NoneAcross(nal, rest, Index(t));
  }

  lemma NoneAcross(nal: Nal, rest: seq<byte>, i: int)
    requires StartCodeAt(nal + rest, i) && |rest| >= 4 && rest[0] == rest[1] == rest[2] == 0
    ensures i >= |nal| + 1 || StartCodeAt(nal, i)
  {}
}
