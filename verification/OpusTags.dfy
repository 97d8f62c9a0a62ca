/** The OpusTags packet (section 5.2 of RFC 7845): buildCommentHeader and validateOpusTags of
    oggwriter/oggwriter.go, ParseOpusTags of oggreader/oggreader.go. Strings are byte strings. */
module OpusTags {
  import opened Bits
  import opened Bytes
  import opened OggPage

  datatype UserComment = UserComment(comment: seq<byte>, value: seq<byte>)

  datatype Tags = Tags(vendor: seq<byte>, comments: seq<UserComment>)

  datatype Error = TooShort | BadSignature | VendorTooLong | CommentCount | CommentTooLong | NoSeparator

  const MAGIC: seq<byte> := [0x4F, 0x70, 0x75, 0x73, 0x54, 0x61, 0x67, 0x73]   // OpusTags
  const EQUALS: byte := 0x3D
  const MAX_INT: int := INT64_LIMIT - 1

  function CommentText(c: UserComment): (s: seq<byte>)
    ensures |s| == |c.comment| + 1 + |c.value|
  {
    c.comment + [EQUALS] + c.value
  }

  function CommentBytes(c: UserComment): (s: seq<byte>)
    ensures |s| == 4 + |CommentText(c)|
  {
    Le32(|CommentText(c)|) + CommentText(c)
  }

  function CommentsBytes(comments: seq<UserComment>): seq<byte> {
    if comments == [] then [] else CommentBytes(comments[0]) + CommentsBytes(comments[1..])
  }

  /** The packet of a tag set. */
  function HeaderBytes(t: Tags): (s: seq<byte>)
    ensures |s| >= 16
  {
    MAGIC + Le32(|t.vendor|) + t.vendor + Le32(|t.comments|) + CommentsBytes(t.comments)
  }

  lemma {:induction false} CommentsConcat(a: seq<UserComment>, b: seq<UserComment>)
    ensures CommentsBytes(a + b) == CommentsBytes(a) + CommentsBytes(b)
  {
    hide CommentBytes;
    if a == [] {
      assert a + b == b;
    } else {
      assert (a + b)[1..] == a[1..] + b;
      CommentsConcat(a[1..], b);
      ConcatAssoc(CommentBytes(a[0]), CommentsBytes(a[1..]), CommentsBytes(b));
    }
  }

  lemma CommentsSnoc(comments: seq<UserComment>, i: nat)
    requires i < |comments|
    ensures CommentsBytes(comments[..i + 1]) == CommentsBytes(comments[..i]) + CommentBytes(comments[i])
  {
    hide CommentBytes;
    assert comments[..i + 1] == comments[..i] + [comments[i]];
    CommentsConcat(comments[..i], [comments[i]]);
    assert [comments[i]][1..] == [];
  }

  /** The length loop of buildCommentHeader. */
  method PayloadLength(t: Tags) returns (n: nat)
    ensures n == |HeaderBytes(t)|
  {
    n := |MAGIC| + 4 + |t.vendor| + 4;
    for i := 0 to |t.comments|
      invariant n == |MAGIC| + 4 + |t.vendor| + 4 + |CommentsBytes(t.comments[..i])|
    {
      CommentsSnoc(t.comments, i);
      n := n + 4 + |t.comments[i].comment| + 1 + |t.comments[i].value|;
    }
    assert t.comments[..|t.comments|] == t.comments;
  }

  method Append(h: array<byte>, pos: nat, data: seq<byte>) returns (next: nat)
    requires pos + |data| <= h.Length
    modifies h
    ensures next == pos + |data| && h[..next] == old(h[..pos]) + data
  {
    forall i | 0 <= i < |data| {
      h[pos + i] := data[i];
    }
    next := pos + |data|;
  }

  method AppendComment(h: array<byte>, pos: nat, c: UserComment) returns (next: nat)
    requires pos + |CommentBytes(c)| <= h.Length
    modifies h
    ensures next == pos + |CommentBytes(c)| && h[..next] == old(h[..pos]) + CommentBytes(c)
  {
    hide Le32;
    var userCommentLen := |c.comment| + 1 + |c.value|;
    ghost var before := h[..pos];
    next := Append(h, pos, Le32(userCommentLen));
    next := Append(h, next, c.comment);
    next := Append(h, next, [EQUALS]);
    next := Append(h, next, c.value);
    assert CommentBytes(c) == Le32(userCommentLen) + c.comment + [EQUALS] + c.value;
    assert before + Le32(userCommentLen) + c.comment + [EQUALS] + c.value == before + CommentBytes(c);
  }

  /** buildCommentHeader. */
  method BuildCommentHeader(t: Tags) returns (h: array<byte>)
    ensures fresh(h) && h[..] == HeaderBytes(t)
  {
    hide *;
    var n := PayloadLength(t);
    h := new byte[n](_ => 0);
    FixedPart(t);
    ghost var fixed := MAGIC + Le32(|t.vendor|) + t.vendor + Le32(|t.comments|);
    var pos: nat := Append(h, 0, MAGIC);
    pos := Append(h, pos, Le32(|t.vendor|));
    pos := Append(h, pos, t.vendor);
    pos := Append(h, pos, Le32(|t.comments|));
    assert h[..pos] == fixed == fixed + CommentsBytes(t.comments[..0]);
    for i := 0 to |t.comments|
      invariant pos <= h.Length == n && h[..pos] == fixed + CommentsBytes(t.comments[..i])
    {
      CommentFits(t, i);
      CommentsSnoc(t.comments, i);
      ConcatAssoc(fixed, CommentsBytes(t.comments[..i]), CommentBytes(t.comments[i]));
      pos := AppendComment(h, pos, t.comments[i]);
    }
    assert t.comments[..|t.comments|] == t.comments;
    assert |h[..pos]| == pos == n;
    assert h[..pos] == h[..];
  }

  lemma FixedPart(t: Tags)
    ensures HeaderBytes(t) == MAGIC + Le32(|t.vendor|) + t.vendor + Le32(|t.comments|) + CommentsBytes(t.comments)
    ensures CommentsBytes(t.comments[..0]) == [] && |HeaderBytes(t)| == 16 + |t.vendor| + |CommentsBytes(t.comments)|
    ensures |MAGIC| == 8
  {}

  lemma CommentFits(t: Tags, i: nat)
    requires i < |t.comments|
    ensures |CommentsBytes(t.comments[..i])| + |CommentBytes(t.comments[i])| <= |CommentsBytes(t.comments)|
  {
    CommentsSnoc(t.comments, i);
    assert t.comments[..i + 1] + t.comments[i + 1..] == t.comments;
    CommentsConcat(t.comments[..i + 1], t.comments[i + 1..]);
  }

  // Parsing.

  /** The position of the first equals sign, or the length. */
  function Separator(s: seq<byte>): (i: nat)
    ensures i <= |s| && (i < |s| ==> s[i] == EQUALS) && forall k :: 0 <= k < i ==> s[k] != EQUALS
  {
    if s == [] || s[0] == EQUALS then 0 else 1 + Separator(s[1..])
  }

  datatype Next = Next(comment: UserComment, rest: seq<byte>)

  /** parseSingleUserComment; `src` is the payload from the current position on. */
  function ParseComment(src: seq<byte>): (r: Result<Next, Error>)
    ensures r.Ok? ==> |r.value.rest| < |src|
  {
    if |src| < 4 then Err(CommentTooLong)
    else
      var n := FromLe32(src[..4]);
      if n > |src| - 4 then Err(CommentTooLong)
      else
        var text := src[4..4 + n];
        var i := Separator(text);
        if i == n then Err(NoSeparator)
        else Ok(Next(UserComment(text[..i], text[i + 1..]), src[4 + n..]))
  }

  function ParseComments(src: seq<byte>, n: nat): Result<seq<UserComment>, Error>
    decreases n
  {
    if n == 0 then Ok([])
    else
      match ParseComment(src)
      case Err(e) => Err(e)
      case Ok(next) =>
        match ParseComments(next.rest, n - 1)
        case Err(e) => Err(e)
        case Ok(later) => Ok([next.comment] + later)
  }

  /** ParseOpusTags. Bytes after the last comment are ignored. */
  function Parse(payload: seq<byte>): Result<Tags, Error> {
    if |payload| < 16 then Err(TooShort)
    else if payload[..8] != MAGIC then Err(BadSignature)
    else
      var vendorLen := FromLe32(payload[8..12]);
      if vendorLen > |payload| - 16 then Err(VendorTooLong)
      else
        var vendorEnd := 12 + vendorLen;
        var count := FromLe32(payload[vendorEnd..vendorEnd + 4]);
        if count > (|payload| - vendorEnd) / 4 then Err(CommentCount)
        else
          match ParseComments(payload[vendorEnd + 4..], count)
          case Err(e) => Err(e)
          case Ok(comments) => Ok(Tags(payload[12..vendorEnd], comments))
  }

  /** parseUserComments: the loop over the comments. */
  method ReadComments(payload: seq<byte>, start: nat, count: nat) returns (r: Result<seq<UserComment>, Error>)
    requires start <= |payload|
    ensures r == ParseComments(payload[start..], count)
  {
    hide ParseComment;
    var comments, pos: nat := [], start;
    assert ParseComments(payload[start..], count).Ok? ==>
        [] + ParseComments(payload[start..], count).value == ParseComments(payload[start..], count).value;
    for i := 0 to count
      invariant pos <= |payload|
      invariant ParseComments(payload[start..], count) ==
                match ParseComments(payload[pos..], count - i)
                case Err(e) => Err(e)
                case Ok(later) => Ok(comments + later)
    {
      var next := ParseComment(payload[pos..]);
      if next.Err? {
        return Err(next.error);
      }
      CommentConsumed(payload[pos..]);
      var now := pos + |payload[pos..]| - |next.value.rest|;
      assert payload[now..] == next.value.rest;
      var later := ParseComments(next.value.rest, count - i - 1);
      if later.Ok? {
        ConcatAssoc(comments, [next.value.comment], later.value);
      }
      comments := comments + [next.value.comment];
      pos := now;
    }
    assert comments + [] == comments;
    r := Ok(comments);
  }

  lemma CommentConsumed(src: seq<byte>)
    requires ParseComment(src).Ok?
    ensures var next := ParseComment(src).value;
            |next.rest| <= |src| && src[|src| - |next.rest|..] == next.rest
  {}

  method ParseOpusTags(payload: seq<byte>) returns (r: Result<Tags, Error>)
    ensures r == Parse(payload)
  {
    hide FromLe32, ParseComments;
    if |payload| < 16 {
      return Err(TooShort);
    }
    if payload[..8] != MAGIC {
      return Err(BadSignature);
    }
    var vendorLen := FromLe32(payload[8..12]);
    if vendorLen > |payload| - 16 {
      return Err(VendorTooLong);
    }
    var vendorEnd := 12 + vendorLen;
    var count := FromLe32(payload[vendorEnd..vendorEnd + 4]);
    if count > (|payload| - vendorEnd) / 4 {
      return Err(CommentCount);
    }
    var comments := ReadComments(payload, vendorEnd + 4, count);
    r := if comments.Ok? then Ok(Tags(payload[12..vendorEnd], comments.value)) else Err(comments.error);
  }

  // Both directions.

  ghost predicate Plain(name: seq<byte>) {
    forall k :: 0 <= k < |name| ==> name[k] != EQUALS
  }

  ghost predicate PlainNames(comments: seq<UserComment>) {
    forall i :: 0 <= i < |comments| ==> Plain(comments[i].comment)
  }

  /** Lengths and counts fit their 32-bit fields. */
  ghost predicate Fits(t: Tags) {
    && |t.vendor| < UINT32_LIMIT && |t.comments| < UINT32_LIMIT
    && forall i :: 0 <= i < |t.comments| ==> |CommentText(t.comments[i])| < UINT32_LIMIT
  }

  lemma CommentParsed(c: UserComment, rest: seq<byte>)
    requires |CommentText(c)| < UINT32_LIMIT && Plain(c.comment)
    ensures ParseComment(CommentBytes(c) + rest) == Ok(Next(c, rest))
  {
    hide Le32, FromLe32;
    var text := CommentText(c);
    var src := CommentBytes(c) + rest;
    Le32Inverse(|text|, Le32(|text|));
    assert src[..4] == Le32(|text|);
    assert src[4..4 + |text|] == text && src[4 + |text|..] == rest;
    var i := Separator(text);
    assert text[|c.comment|] == EQUALS;
    assert forall k :: 0 <= k < |c.comment| ==> text[k] == c.comment[k];
    assert i == |c.comment|;
    assert text[..i] == c.comment && text[i + 1..] == c.value;
  }

  /** What ParseComment accepts starts with the bytes of the comment it returns. */
  lemma CommentIsCanonical(src: seq<byte>)
    requires ParseComment(src).Ok?
    ensures var next := ParseComment(src).value;
            && src == CommentBytes(next.comment) + next.rest
            && Plain(next.comment.comment) && |CommentText(next.comment)| < UINT32_LIMIT
  {
    hide Le32, FromLe32;
    var n := FromLe32(src[..4]);
    var text := src[4..4 + n];
    var i := Separator(text);
    Le32Inverse(0, src[..4]);
    assert text == text[..i] + [EQUALS] + text[i + 1..];
    assert src == src[..4] + text + src[4 + n..];
  }

  lemma {:induction false} CommentsParsed(comments: seq<UserComment>, rest: seq<byte>)
    requires PlainNames(comments)
    requires forall i :: 0 <= i < |comments| ==> |CommentText(comments[i])| < UINT32_LIMIT
    ensures ParseComments(CommentsBytes(comments) + rest, |comments|) == Ok(comments)
  {
    hide CommentBytes, ParseComment, CommentText, Plain;
    if comments != [] {
      var later := CommentsBytes(comments[1..]) + rest;
      ConcatAssoc(CommentBytes(comments[0]), CommentsBytes(comments[1..]), rest);
      assert Plain(comments[0].comment);
      CommentParsed(comments[0], later);
      CommentsParsed(comments[1..], rest);
      assert [comments[0]] + comments[1..] == comments;
    }
  }

  lemma {:induction false} CommentsAreCanonical(src: seq<byte>, n: nat)
    requires ParseComments(src, n).Ok?
    ensures var comments := ParseComments(src, n).value;
            && |comments| == n && CommentsBytes(comments) <= src && PlainNames(comments)
            && forall i :: 0 <= i < n ==> |CommentText(comments[i])| < UINT32_LIMIT
    decreases n
  {
    hide CommentBytes, ParseComment, CommentText, Plain;
    if n > 0 {
      var next := ParseComment(src).value;
      CommentIsCanonical(src);
      CommentsAreCanonical(next.rest, n - 1);
      var later := ParseComments(next.rest, n - 1).value;
      assert ([next.comment] + later)[1..] == later;
      var tail := next.rest[|CommentsBytes(later)|..];
      ConcatAssoc(CommentBytes(next.comment), CommentsBytes(later), tail);
    }
  }

  lemma ParseIs(payload: seq<byte>, vendor: seq<byte>, count: nat, rest: seq<byte>)
    requires |vendor| < UINT32_LIMIT && count < UINT32_LIMIT && 4 * count <= |rest|
    requires payload == MAGIC + Le32(|vendor|) + vendor + Le32(count) + rest
    ensures Parse(payload) ==
            match ParseComments(rest, count)
            case Err(e) => Err(e)
            case Ok(comments) => Ok(Tags(vendor, comments))
  {
    hide Le32, FromLe32, ParseComments;
    Le32Inverse(|vendor|, Le32(|vendor|));
    Le32Inverse(count, Le32(count));
    Pieces(MAGIC, Le32(|vendor|), vendor, Le32(count), rest);
  }

  lemma {:induction false} CommentsLength(comments: seq<UserComment>)
    ensures |CommentsBytes(comments)| >= 5 * |comments|
  {
    hide CommentBytes;
    if comments != [] {
      CommentsLength(comments[1..]);
    }
  }

  /** Parsing a tag set's packet returns the tag set, whatever follows it, if and only if no
      comment name contains an equals sign. */
  lemma TagsRoundTrip(t: Tags, rest: seq<byte>)
    requires Fits(t)
    ensures Parse(HeaderBytes(t) + rest) == Ok(t) <==> PlainNames(t.comments)
  {
    hide CommentsBytes, Parse, ParseComments, CommentText, Le32, Plain;
    var comments := CommentsBytes(t.comments) + rest;
    assert HeaderBytes(t) + rest == MAGIC + Le32(|t.vendor|) + t.vendor + Le32(|t.comments|) + comments;
    CommentsLength(t.comments);
    ParseIs(HeaderBytes(t) + rest, t.vendor, |t.comments|, comments);
    if PlainNames(t.comments) {
      CommentsParsed(t.comments, rest);
    }
    if ParseComments(comments, |t.comments|) == Ok(t.comments) {
      CommentsAreCanonical(comments, |t.comments|);
    }
  }

  /** A name that is an equals sign is cut short. */
  lemma EqualsInName()
    ensures var t := Tags([], [UserComment([EQUALS], [])]); Parse(HeaderBytes(t)) != Ok(t)
  {
    hide HeaderBytes, Parse;
    var t := Tags([], [UserComment([EQUALS], [])]);
    assert !Plain(t.comments[0].comment) by {
      assert t.comments[0].comment[0] == EQUALS;
    }
    TagsRoundTrip(t, []);
    assert HeaderBytes(t) + [] == HeaderBytes(t);
  }

  /** Every accepted packet begins with the canonical bytes of the tag set it was read as. */
  lemma TagsAreCanonical(payload: seq<byte>)
    requires Parse(payload).Ok?
    ensures var t := Parse(payload).value;
            HeaderBytes(t) <= payload && Fits(t) && PlainNames(t.comments)
  {
    hide CommentsBytes, ParseComments, CommentText, Le32, FromLe32, Plain, Fits, HeaderBytes;
    var t := Parse(payload).value;
    var count := ParsedParts(payload);
    var front := payload[..16 + |t.vendor|];
    var rest := payload[16 + |t.vendor|..];
    CommentsAreCanonical(rest, count);
    var tail := rest[|CommentsBytes(t.comments)|..];
    assert rest == CommentsBytes(t.comments) + tail;
    HeaderBytesAre(t);
    ConcatAssoc(front, CommentsBytes(t.comments), tail);
    assert payload == front + rest;
    assert payload == HeaderBytes(t) + tail;
    FitsFrom(t);
  }

  /** The fixed fields of an accepted packet, read backwards. */
  lemma ParsedParts(payload: seq<byte>) returns (count: nat)
    requires Parse(payload).Ok?
    ensures var t := Parse(payload).value;
            && |t.vendor| < UINT32_LIMIT && count < UINT32_LIMIT && 16 + |t.vendor| <= |payload|
            && payload[..16 + |t.vendor|] == MAGIC + Le32(|t.vendor|) + t.vendor + Le32(count)
            && ParseComments(payload[16 + |t.vendor|..], count) == Ok(t.comments)
  {
    hide ParseComments, Le32, FromLe32;
    var t := Parse(payload).value;
    var vendorEnd := 12 + |t.vendor|;
    count := FromLe32(payload[vendorEnd..vendorEnd + 4]);
    Le32Inverse(0, payload[8..12]);
    Le32Inverse(0, payload[vendorEnd..vendorEnd + 4]);
    Cut(payload, 0, 8, 12);
    Cut(payload, 0, 12, vendorEnd);
    Cut(payload, 0, vendorEnd, vendorEnd + 4);
  }

  lemma HeaderBytesAre(t: Tags)
    ensures HeaderBytes(t) == MAGIC + Le32(|t.vendor|) + t.vendor + Le32(|t.comments|) + CommentsBytes(t.comments)
  {
    hide Le32, CommentsBytes;
  }

  lemma FitsFrom(t: Tags)
    requires |t.vendor| < UINT32_LIMIT && |t.comments| < UINT32_LIMIT
    requires forall i :: 0 <= i < |t.comments| ==> |CommentText(t.comments[i])| < UINT32_LIMIT
    ensures Fits(t)
  {
    hide CommentText;
  }

  // Validation.

  predicate ValidName(name: seq<byte>) {
    name != [] && forall k :: 0 <= k < |name| ==> 0x20 <= name[k] <= 0x7D && name[k] != EQUALS
  }

  function HeaderLen(comments: seq<UserComment>, sofar: nat): nat {
    if comments == [] then sofar else HeaderLen(comments[1..], sofar + |CommentBytes(comments[0])|)
  }

  /** validateOpusTags; `utf8` says which strings are valid UTF-8. */
  predicate ValidTags(t: Tags, utf8: seq<byte> -> bool) {
    && utf8(t.vendor) && |t.vendor| < UINT32_LIMIT && |t.comments| < UINT32_LIMIT
    && (forall i :: 0 <= i < |t.comments| ==> ValidComment(t.comments[i], utf8))
    && HeaderLen(t.comments, 16 + |t.vendor|) <= MAX_INT
  }

  predicate ValidComment(c: UserComment, utf8: seq<byte> -> bool) {
    ValidName(c.comment) && utf8(c.value) && |CommentText(c)| < UINT32_LIMIT
  }

  /** Every tag set that passes validation survives being written and parsed. */
  lemma ValidTagsRoundTrip(t: Tags, utf8: seq<byte> -> bool, rest: seq<byte>)
    requires ValidTags(t, utf8)
    ensures Parse(HeaderBytes(t) + rest) == Ok(t) && |HeaderBytes(t)| <= MAX_INT
  {
    hide Parse, HeaderLen, CommentText, CommentsBytes;
    assert PlainNames(t.comments);
    TagsRoundTrip(t, rest);
    HeaderLenIs(t.comments, 16 + |t.vendor|);
  }

  lemma {:induction false} HeaderLenIs(comments: seq<UserComment>, sofar: nat)
    ensures HeaderLen(comments, sofar) == sofar + |CommentsBytes(comments)|
  {
    hide CommentBytes;
    if comments != [] {
      HeaderLenIs(comments[1..], sofar + |CommentBytes(comments[0])|);
    }
  }
}
