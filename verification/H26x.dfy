/** mpegts/h26x.go: NAL units of one Annex-B access unit, access unit delimiters and
    random access points. */
module H26x {
  import opened Bits
  import opened Bytes

  datatype Codec = H264 | H265

  type Nal = seq<byte>

  predicate StartCodeAt(s: seq<byte>, i: int) {
    0 <= i && i + 3 <= |s| && s[i] == 0 && s[i + 1] == 0 && s[i + 2] == 1
  }

  /** bytes.Index for the three-byte start code: its first position, or -1. */
  function Index(s: seq<byte>): (r: int)
    ensures r == -1 || StartCodeAt(s, r)
    ensures forall i :: StartCodeAt(s, i) ==> 0 <= r <= i
  {
    if |s| < 3 then -1
    else if StartCodeAt(s, 0) then 0
    else
      var r := Index(s[1..]);
      assert forall i :: i > 0 ==> (StartCodeAt(s, i) <==> StartCodeAt(s[1..], i - 1));
      if r == -1 then -1 else r + 1
  }

  /** Where the unit before the start code at `r` ends: a zero byte before it belongs to it. */
  function UnitEnd(t: seq<byte>, r: nat): (end: nat)
    requires r <= |t|
    ensures end <= r
  {
    if r > 0 && t[r - 1] == 0 then r - 1 else r
  }

  function NonEmpty(t: seq<byte>): (units: seq<Nal>)
    ensures forall i :: 0 <= i < |units| ==> units[i] != []
  {
    if t == [] then [] else [t]
  }

  /** The units of a byte string that starts just after a start code. */
  function NalsAfter(t: seq<byte>): (nals: seq<Nal>)
    ensures forall i :: 0 <= i < |nals| ==> nals[i] != []
    decreases |t|
  {
    var r := Index(t);
    if r == -1 then NonEmpty(t) else NonEmpty(t[..UnitEnd(t, r)]) + NalsAfter(t[r + 3..])
  }

  /** All units of an access unit; nothing before the first start code counts. */
  function Nals(au: seq<byte>): (nals: seq<Nal>)
    ensures forall i :: 0 <= i < |nals| ==> nals[i] != []
  {
    var r := Index(au);
    if r == -1 then [] else NalsAfter(au[r + 3..])
  }

  /** The units a visitor sees when it stops at the first one it answers false for. */
  function Visited(nals: seq<Nal>, fn: Nal -> bool): seq<Nal> {
    if nals == [] then [] else [nals[0]] + if fn(nals[0]) then Visited(nals[1..], fn) else []
  }

  method ForEachNal(annexB: seq<byte>, fn: Nal -> bool) returns (visited: seq<Nal>)
    ensures visited == Visited(Nals(annexB), fn)
  {
    hide *;
    visited := [];
    var idx := Index(annexB);
    IndexBound(annexB);
    ghost var todo := Nals(annexB);
    NalsUnfolds(annexB);
    VisitedNone(fn);
    assert [] + Visited(todo, fn) == Visited(todo, fn);
    while idx != -1
      invariant idx == -1 || 0 <= idx <= |annexB| - 3
      invariant todo == if idx == -1 then [] else NalsAfter(annexB[idx + 3..])
      invariant Visited(Nals(annexB), fn) == visited + Visited(todo, fn)
      decreases if idx == -1 then 0 else 1 + |annexB| - idx
    {
      var start := idx + 3;
      var rel := Index(annexB[start..]);
      IndexBound(annexB[start..]);
      if rel == -1 {
        LastUnit(annexB[start..], fn);
        assert visited + [] == visited;
        if start < |annexB| {
          visited := visited + [annexB[start..]];
        }
        return;
      }
      var end := start + rel;
      if end > start && annexB[end - 1] == 0 {
        end := end - 1;
      }
      ghost var rest := NalsAfter(annexB[start + rel + 3..]);
      NextUnit(annexB, start, rel, end, fn);
      if end > start {
        ConcatAssoc(visited, [annexB[start..end]], Visited(rest, fn));
        visited := visited + [annexB[start..end]];
        if !fn(annexB[start..end]) {
          return;
        }
      }
      todo := rest;
      idx := start + rel;
    }
    assert visited + [] == visited;
  }

  /** What is visited when no further start code follows. */
  lemma LastUnit(t: seq<byte>, fn: Nal -> bool)
    requires Index(t) == -1
    ensures Visited(NalsAfter(t), fn) == if t == [] then [] else [t]
  {
    VisitedNone(fn);
    VisitedStep(t, [], fn);
    NalsAfterUnfolds(t);
    assert NonEmpty(t) + [] == NonEmpty(t);
  }

  /** What is visited from a unit on that ends at a start code. */
  lemma NextUnit(s: seq<byte>, start: nat, rel: nat, end: nat, fn: Nal -> bool)
    requires start + rel + 3 <= |s| && Index(s[start..]) == rel
    requires end == if rel > 0 && s[start + rel - 1] == 0 then start + rel - 1 else start + rel
    ensures start <= end <= |s|
    ensures var rest := NalsAfter(s[start + rel + 3..]);
            Visited(NalsAfter(s[start..]), fn) ==
            if start == end then Visited(rest, fn)
            else if fn(s[start..end]) then [s[start..end]] + Visited(rest, fn)
            else [s[start..end]]
  {
    hide *;
    NalsAfterUnfolds(s[start..]);
    UnitSlice(s, start, rel, end);
    VisitedStep(s[start..end], NalsAfter(s[start + rel + 3..]), fn);
  }

  lemma NalsUnfolds(au: seq<byte>)
    ensures Nals(au) == if Index(au) == -1 then [] else NalsAfter(au[Index(au) + 3..])
  {}

  lemma VisitedNone(fn: Nal -> bool)
    ensures Visited([], fn) == []
  {}

  lemma VisitedStep(unit: seq<byte>, rest: seq<Nal>, fn: Nal -> bool)
    ensures Visited(NonEmpty(unit) + rest, fn) ==
            if unit == [] then Visited(rest, fn) else if fn(unit) then [unit] + Visited(rest, fn) else [unit]
  {
    if unit == [] {
      assert NonEmpty(unit) + rest == rest;
    } else {
      assert ([unit] + rest)[1..] == rest;
    }
  }

  lemma NalsAfterUnfolds(t: seq<byte>)
    ensures var r := Index(t);
            NalsAfter(t) == if r == -1 then NonEmpty(t) else NonEmpty(t[..UnitEnd(t, r)]) + NalsAfter(t[r + 3..])
  {}

  lemma IndexBound(s: seq<byte>)
    ensures -1 <= Index(s) <= |s| - 3 || Index(s) == -1
  {}

  lemma UnitSlice(s: seq<byte>, start: nat, rel: nat, end: nat)
    requires start + rel + 3 <= |s|
    requires end == if rel > 0 && s[start + rel - 1] == 0 then start + rel - 1 else start + rel
    ensures start <= end <= |s|
    ensures s[start..end] == s[start..][..UnitEnd(s[start..], rel)]
    ensures s[start + rel + 3..] == s[start..][rel + 3..]
  {}

  function NalType(codec: Codec, nal: Nal): byte
    requires nal != []
  {
    if codec == H265 then nal[0] / 2 % 64 else nal[0] % 32
  }

  function AudType(codec: Codec): byte {
    if codec == H265 then 35 else 9
  }

  /** The access unit delimiter prepended by the writer, start code included. */
  function Aud(codec: Codec): seq<byte> {
    if codec == H265 then [0, 0, 0, 1, 0x46, 0x01, 0x50] else [0, 0, 0, 1, 0x09, 0xF0]
  }

  predicate IsRandomAccessNal(codec: Codec, nal: Nal) {
    nal != [] && if codec == H265 then 16 <= NalType(codec, nal) <= 23 else NalType(codec, nal) == 5
  }

  predicate StartsWithAud(codec: Codec, au: seq<byte>) {
    var nals := Nals(au);
    nals != [] && NalType(codec, nals[0]) == AudType(codec)
  }

  predicate IsRandomAccess(codec: Codec, au: seq<byte>) {
    exists nal :: nal in Nals(au) && IsRandomAccessNal(codec, nal)
  }

  method FirstNalType(codec: Codec, au: seq<byte>) returns (result: byte)
    ensures result == if Nals(au) == [] then 0xFF else NalType(codec, Nals(au)[0])
  {
    result := 0xFF;
    var visited := ForEachNal(au, (nal: Nal) => false);
    if visited != [] {
      result := NalType(codec, visited[|visited| - 1]);
    }
  }

  method CheckAud(codec: Codec, au: seq<byte>) returns (starts: bool)
    ensures starts == StartsWithAud(codec, au)
  {
    var first := FirstNalType(codec, au);
    starts := first == AudType(codec);
    assert Nals(au) == [] ==> !starts;
  }

  method CheckRandomAccess(codec: Codec, au: seq<byte>) returns (found: bool)
    ensures found == IsRandomAccess(codec, au)
  {
    var visited := ForEachNal(au, (nal: Nal) => !IsRandomAccessNal(codec, nal));
    found := visited != [] && IsRandomAccessNal(codec, visited[|visited| - 1]);
    VisitedFinds(codec, Nals(au));
  }

  lemma {:induction false} VisitedFinds(codec: Codec, nals: seq<Nal>)
    ensures var visited := Visited(nals, (nal: Nal) => !IsRandomAccessNal(codec, nal));
            (visited != [] && IsRandomAccessNal(codec, visited[|visited| - 1])) <==>
            exists nal :: nal in nals && IsRandomAccessNal(codec, nal)
  {
    hide IsRandomAccessNal;
    if nals != [] {
      if IsRandomAccessNal(codec, nals[0]) {
        assert nals[0] in nals;
      } else {
        VisitedFinds(codec, nals[1..]);
        assert nals == [nals[0]] + nals[1..];
      }
    }
  }

  /** What the writer puts into the stream for one access unit. */
  function WithAud(codec: Codec, au: seq<byte>): seq<byte> {
    if StartsWithAud(codec, au) then au else Aud(codec) + au
  }

  /** A byte other than zero in front moves every start code by one and adds none. */
  lemma IndexPrepend(b: byte, t: seq<byte>)
    requires b != 0
    ensures Index([b] + t) == if Index(t) == -1 then -1 else Index(t) + 1
  {
    var s := [b] + t;
    assert s[1..] == t;
    assert forall i :: i > 0 ==> (StartCodeAt(s, i) <==> StartCodeAt(t, i - 1));
  }

  /** Bytes without zeros in front of an access unit become the start of the first unit. */
  lemma {:induction false} IndexPrependAll(head: seq<byte>, t: seq<byte>)
    requires 0 !in head
    ensures Index(head + t) == if Index(t) == -1 then -1 else Index(t) + |head|
  {
    if head == [] {
      assert head + t == t;
    } else {
      assert head + t == [head[0]] + (head[1..] + t);
      IndexPrependAll(head[1..], t);
      IndexPrepend(head[0], head[1..] + t);
    }
  }

  /** Prepending a delimiter adds one unit in front and leaves the original units as they were. */
  lemma AudAddsOneNal(codec: Codec, au: seq<byte>)
    ensures var nals := Nals(Aud(codec) + au);
            && |nals| == |Nals(au)| + 1
            && nals[1..] == Nals(au)
            && NalType(codec, nals[0]) == AudType(codec)
            && AudUnit(codec) <= nals[0]
  {
    AudIndex(codec, au);
    AudShape(codec);
    hide *;
    assert (Aud(codec) + au)[4..] == AudUnit(codec) + au;
    FirstNalGrows(Aud(codec) + au, AudUnit(codec), au);
    var first: Nal :| AudUnit(codec) <= first && Nals(Aud(codec) + au) == [first] + Nals(au);
    SameFirstByte(codec, AudUnit(codec), first);
  }

  function AudUnit(codec: Codec): seq<byte> {
    Aud(codec)[4..]
  }

  lemma AudShape(codec: Codec)
    ensures |Aud(codec)| > 4 && AudUnit(codec) == Aud(codec)[4..]
    ensures 0 !in AudUnit(codec) && NalType(codec, AudUnit(codec)) == AudType(codec)
  {}

  lemma SameFirstByte(codec: Codec, head: Nal, nal: Nal)
    requires head != [] && head <= nal
    ensures NalType(codec, nal) == NalType(codec, head)
  {}

  lemma FirstNalGrows(s: seq<byte>, head: seq<byte>, au: seq<byte>)
    requires |s| >= 4 && Index(s) == 1 && s[4..] == head + au
    requires head != [] && 0 !in head
    ensures exists first: Nal :: head <= first && Nals(s) == [first] + Nals(au)
  {
    hide *;
    var t := head + au;
    var r := Index(t);
    RestOfNals(head, au);
    if r == -1 {
      assert [t] + [] == [t];
      FirstNal(s, t, au, t);
    } else {
      HeadKept(head, au, r);
      FirstNal(s, t, au, t[..UnitEnd(t, r)]);
    }
  }

  lemma RestOfNals(head: seq<byte>, au: seq<byte>)
    requires head != [] && 0 !in head
    ensures var t, r := head + au, Index(head + au);
            if r == -1 then Index(au) == -1
            else |head| <= r <= |t| - 3 && 0 <= Index(au) <= |au| - 3 && t[r + 3..] == au[Index(au) + 3..]
  {
    hide Index, StartCodeAt, NalsAfter;
    IndexPrependAll(head, au);
    IndexBound(au);
  }

  lemma HeadKept(head: seq<byte>, au: seq<byte>, r: nat)
    requires head != [] && 0 !in head && |head| <= r <= |head + au|
    ensures head <= (head + au)[..UnitEnd(head + au, r)]
  {
    var t := head + au;
    assert t[|head| - 1] == head[|head| - 1];
  }

  lemma FirstNal(s: seq<byte>, t: seq<byte>, au: seq<byte>, first: Nal)
    requires |s| >= 4 && Index(s) == 1 && s[4..] == t && first != []
    requires var r := Index(t);
             if r == -1 then first == t && Index(au) == -1
             else 0 <= r <= |t| - 3 && first == t[..UnitEnd(t, r)] &&
                  0 <= Index(au) <= |au| - 3 && t[r + 3..] == au[Index(au) + 3..]
    ensures Nals(s) == [first] + Nals(au)
  {
    hide Index, StartCodeAt, NalsAfter, UnitEnd;
    NalsAfterUnfolds(t);
    NalsUnfolds(s);
    NalsUnfolds(au);
    assert [first] + [] == [first];
  }

  lemma AudIndex(codec: Codec, au: seq<byte>)
    ensures Index(Aud(codec) + au) == 1
  {
    var s := Aud(codec) + au;
    assert StartCodeAt(s, 1) && !StartCodeAt(s, 0);
  }

  /** The written form is a normal form: it starts with a delimiter, writing it again adds
      nothing, and the units and the random-access verdict are those of the original. */
  lemma AudNormalForm(codec: Codec, au: seq<byte>)
    ensures StartsWithAud(codec, WithAud(codec, au))
    ensures WithAud(codec, WithAud(codec, au)) == WithAud(codec, au)
    ensures IsRandomAccess(codec, WithAud(codec, au)) == IsRandomAccess(codec, au)
    ensures Nals(WithAud(codec, au)) == Nals(au) ||
            (Nals(WithAud(codec, au)) != [] && Nals(WithAud(codec, au))[1..] == Nals(au))
  {
    if !StartsWithAud(codec, au) {
      AudAddsOneNal(codec, au);
      var nals := Nals(Aud(codec) + au);
      assert nals == [nals[0]] + Nals(au);
      assert !IsRandomAccessNal(codec, nals[0]);
      if nal :| nal in Nals(au) && IsRandomAccessNal(codec, nal) {
        assert nal in nals;
      }
    }
  }
}
