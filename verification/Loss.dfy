/** Packet loss: as long as the counter reveals every gap inside a unit that is being collected, a
    reader returns exactly the written units that arrived whole, and nothing else. */
module Loss {
  import opened Bits
  import opened Bytes
  import opened Channels
  import opened EsStream
  import opened H26x
  import opened Packet
  import opened Packetizer
  import Pes
  import opened RoundTrip
  import opened Tracks
  import TsReader
  import opened TsWriter

  /** What arrives when the entries whose flag is false are lost. */
  function Delivered<T>(xs: seq<T>, keep: seq<bool>): seq<T>
    requires |keep| == |xs|
  {
    if xs == [] then [] else (if keep[0] then [xs[0]] else []) + Delivered(xs[1..], keep[1..])
  }

  /** A packet that arrives after `lost` losses in a row shows by its counter that some were lost:
      it is not the one expected and does not pass for a repetition, which a unit start never does. */
  predicate Noticed(lost: nat, unitStart: bool) {
    lost == 0 || (lost % 16 != 0 && (unitStart || lost % 16 != 15))
  }

  /** Whether a unit may be under way once a packet has arrived. */
  predicate OpenAt(p: EsPacket, isOpen: bool, lost: nat) {
    p.unitStart || (isOpen && lost == 0)
  }

  /** Every gap that ends while a unit is under way is noticed. At the start `lost` packets have
      just been lost, and `isOpen` says whether a unit was under way before them. */
  predicate GapsNoticed(chunks: seq<EsPacket>, keep: seq<bool>, isOpen: bool, lost: nat)
    requires |keep| == |chunks|
    decreases |chunks|
  {
    chunks == [] ||
    if keep[0] then
      (isOpen ==> Noticed(lost, chunks[0].unitStart)) &&
      GapsNoticed(chunks[1..], keep[1..], OpenAt(chunks[0], isOpen, lost), 0)
    else GapsNoticed(chunks[1..], keep[1..], isOpen, lost + 1)
  }

  function OpenAfter(chunks: seq<EsPacket>, keep: seq<bool>, isOpen: bool, lost: nat): bool
    requires |keep| == |chunks|
    decreases |chunks|
  {
    if chunks == [] then isOpen
    else if keep[0] then OpenAfter(chunks[1..], keep[1..], OpenAt(chunks[0], isOpen, lost), 0)
    else OpenAfter(chunks[1..], keep[1..], isOpen, lost + 1)
  }

  /** How many losses in a row there are at the end. */
  function LostAfter(keep: seq<bool>, lost: nat): nat {
    if keep == [] then lost else LostAfter(keep[1..], if keep[0] then 0 else lost + 1)
  }

  predicate AllKept(keep: seq<bool>) {
    keep == [] || (keep[0] && AllKept(keep[1..]))
  }

  /** The flags of the usable packets of one PID. */
  function KeepFor(pkts: seq<seq<byte>>, keep: seq<bool>, pid: uint16): (k: seq<bool>)
    requires |keep| == |pkts|
    ensures |k| == |ForPid(pkts, pid)|
  {
    if pkts == [] then []
    else
      var p := Packetizer.Usable(pkts[0]);
      (if p.Some? && p.value.pid == pid then [keep[0]] else []) + KeepFor(pkts[1..], keep[1..], pid)
  }

  lemma {:induction false} DeliveredForPid(pkts: seq<seq<byte>>, keep: seq<bool>, pid: uint16)
    requires |keep| == |pkts|
    ensures ForPid(Delivered(pkts, keep), pid) == Delivered(ForPid(pkts, pid), KeepFor(pkts, keep, pid))
  {
    if pkts == [] {
      DeliveredNone<EsPacket>(KeepFor(pkts, keep, pid));
    } else {
      DeliveredForPid(pkts[1..], keep[1..], pid);
      DeliveredStep(pkts, keep);
      ForPidStep(pkts, pid);
      KeepForStep(pkts, keep, pid);
      hide *;
      var rest := Delivered(pkts[1..], keep[1..]);
      if keep[0] {
        ForPidConcat([pkts[0]], rest, pid);
      }
      assert [] + ForPid(rest, pid) == ForPid(rest, pid);
      if Own(pkts[0], pid) {
        DeliveredStep(ForPid(pkts, pid), KeepFor(pkts, keep, pid));
      }
    }
  }

  predicate Own(pkt: seq<byte>, pid: uint16) {
    var p := Packetizer.Usable(pkt);
    p.Some? && p.value.pid == pid
  }

  lemma ForPidStep(pkts: seq<seq<byte>>, pid: uint16)
    requires pkts != []
    ensures var all, more := ForPid(pkts, pid), ForPid(pkts[1..], pid);
            if Own(pkts[0], pid) then
              |all| == |more| + 1 && all[1..] == more && ForPid([pkts[0]], pid) == [all[0]] && [all[0]] + more == all
            else all == more && ForPid([pkts[0]], pid) == []
  {
    hide Packetizer.Usable;
    assert [pkts[0]][1..] == [];
    if !Own(pkts[0], pid) {
      assert [] + ForPid(pkts[1..], pid) == ForPid(pkts[1..], pid);
    }
  }

  lemma KeepForStep(pkts: seq<seq<byte>>, keep: seq<bool>, pid: uint16)
    requires |keep| == |pkts| && pkts != []
    ensures var flags, later := KeepFor(pkts, keep, pid), KeepFor(pkts[1..], keep[1..], pid);
            if Own(pkts[0], pid) then |flags| == |later| + 1 && flags[0] == keep[0] && flags[1..] == later
            else flags == later
  {
    hide Packetizer.Usable, ForPid;
    if !Own(pkts[0], pid) {
      assert [] + KeepFor(pkts[1..], keep[1..], pid) == KeepFor(pkts[1..], keep[1..], pid);
    }
  }

  lemma {:induction false} DeliveredConcat<T>(a: seq<T>, b: seq<T>, keep: seq<bool>)
    requires |keep| == |a| + |b|
    ensures Delivered(a + b, keep) == Delivered(a, keep[..|a|]) + Delivered(b, keep[|a|..])
  {
    if a == [] {
      assert a + b == b && keep[0..] == keep;
      assert [] + Delivered(b, keep) == Delivered(b, keep);
    } else {
      assert (a + b)[1..] == a[1..] + b;
      DeliveredConcat(a[1..], b, keep[1..]);
      assert keep[..|a|][1..] == keep[1..][..|a| - 1] && keep[1..][|a| - 1..] == keep[|a|..];
      ConcatAssoc(if keep[0] then [a[0]] else [], Delivered(a[1..], keep[1..][..|a| - 1]), Delivered(b, keep[|a|..]));
    }
  }

  lemma {:induction false} GapsSplit(a: seq<EsPacket>, b: seq<EsPacket>, keep: seq<bool>, isOpen: bool, lost: nat)
    requires |keep| == |a| + |b| && GapsNoticed(a + b, keep, isOpen, lost)
    ensures GapsNoticed(a, keep[..|a|], isOpen, lost)
    ensures GapsNoticed(b, keep[|a|..], OpenAfter(a, keep[..|a|], isOpen, lost), LostAfter(keep[..|a|], lost))
  {
    if a == [] {
      assert a + b == b && keep[0..] == keep && keep[..0] == [];
    } else {
      assert (a + b)[1..] == a[1..] + b && (a + b)[0] == a[0];
      assert keep[..|a|][1..] == keep[1..][..|a| - 1] && keep[1..][|a| - 1..] == keep[|a|..];
      hide Noticed, OpenAt;
      GapsSplit(a[1..], b, keep[1..], if keep[0] then OpenAt(a[0], isOpen, lost) else isOpen,
                if keep[0] then 0 else lost + 1);
    }
  }

  // A simpler condition.

  const MAX_RUN: nat := 14

  /** No run of losses, counting the `lost` before, exceeds 14. */
  predicate RunsBounded(keep: seq<bool>, lost: nat) {
    keep == [] ||
    if keep[0] then RunsBounded(keep[1..], 0) else lost < MAX_RUN && RunsBounded(keep[1..], lost + 1)
  }

  /** Up to 14 losses in a row are always noticed, wherever they begin and end. */
  lemma {:induction false} ShortGapsNoticed(chunks: seq<EsPacket>, keep: seq<bool>, isOpen: bool, lost: nat)
    requires |keep| == |chunks| && lost <= MAX_RUN && RunsBounded(keep, lost)
    ensures GapsNoticed(chunks, keep, isOpen, lost)
    decreases |chunks|
  {
    if chunks != [] {
      ShortGapsNoticed(chunks[1..], keep[1..], if keep[0] then OpenAt(chunks[0], isOpen, lost) else isOpen,
                       if keep[0] then 0 else lost + 1);
    }
  }

  // One stream under loss.

  /** A returned unit is a written one: exact bytes and flag, both timestamps modulo 2^33. */
  predicate Matches(u: Unit, call: Call) {
    && u.data == WithAud(call.codec, call.au) && u.rai == IsRandomAccess(call.codec, call.au)
    && Pes.Low33(u.pts) == Pes.Low33(call.pts) && Pes.Low33(u.dts) == Pes.Low33(call.dts)
  }

  /** The units match the calls one by one. */
  ghost predicate MatchAll(units: seq<Unit>, calls: seq<Call>) {
    |units| == |calls| && forall i :: 0 <= i < |units| ==> Matches(units[i], calls[i])
  }

  /** `cc` is the counter of the next packet of the stream, `lost` packets before it were lost. */
  predicate InSync(s: Es, cc: byte, isOpen: bool, lost: nat) {
    && s.cc < 16 && cc < 16 && (s.hasCc ==> CounterAt(s.cc, lost + 1) == cc)
    && (!s.collecting ==> s.buf == []) && (s.collecting ==> s.hasCc && isOpen)
  }

  /** If nothing was lost since the last packet, a stream holds `buf` of this call while the unit
      is alive, and nothing otherwise. */
  predicate Collected(s: Es, lost: nat, alive: bool, call: Call, buf: seq<byte>) {
    lost == 0 ==>
      if alive then
        s.collecting && s.buf == buf && Matches(Unit(s.pts, s.dts, s.rai, WithAud(call.codec, call.au)), call)
      else !s.collecting
  }

  /** The beginning of a written unit, with its flag and its timestamps modulo 2^33. */
  predicate Truncated(u: Unit, call: Call) {
    u.data <= WithAud(call.codec, call.au) && Matches(u.(data := WithAud(call.codec, call.au)), call)
  }

  /** Whatever is collected, even behind an unnoticed gap, is the beginning of a written unit. */
  ghost predicate Partial(s: Es, all: seq<Call>) {
    s.collecting ==> exists i :: 0 <= i < |all| && Truncated(Unit(s.pts, s.dts, s.rai, s.buf), all[i])
  }

  lemma PartialFrom(s: Es, all: seq<Call>, i: nat, alive: bool, buf: seq<byte>)
    requires i < |all| && Collected(s, 0, alive, all[i], buf) && buf <= WithAud(all[i].codec, all[i].au)
    ensures Partial(s, all)
  {
    hide Matches, WithAud;
    if s.collecting {
      assert Truncated(Unit(s.pts, s.dts, s.rai, s.buf), all[i]) by {
        assert Unit(s.pts, s.dts, s.rai, s.buf).(data := WithAud(all[i].codec, all[i].au)) ==
            Unit(s.pts, s.dts, s.rai, WithAud(all[i].codec, all[i].au));
      }
    }
  }

  /** A continuation packet that arrives adds to a living unit, or leaves nothing collected. */
  lemma ContinuationArrives(
    s: Es, isOpen: bool, lost: nat, alive: bool, p: EsPacket, call: Call, buf: seq<byte>, maxAu: nat)
    requires InSync(s, p.cc, isOpen, lost) && Collected(s, lost, alive, call, buf) && (lost > 0 ==> !alive)
    requires !p.unitStart && (isOpen ==> Noticed(lost, false))
    ensures var (t, unit) := Handle(s, p, maxAu);
            && unit == None && InSync(t, NextCounter(p.cc), OpenAt(p, isOpen, lost), 0)
            && Collected(t, 0, alive && |buf + p.payload| <= maxAu, call, buf + p.payload)
  {
    hide Matches, NextCounter, CounterAt, WithAud;
    GapNoticed(s.cc, lost);
    CounterAtOne(p.cc);
  }

  /** After `lost` losses the counter of the next packet equals the last one seen, or is the one
      expected, only if the losses make up whole rounds of 16, one short or exactly. */
  lemma GapNoticed(cc: byte, lost: nat)
    requires cc < 16
    ensures CounterAt(cc, lost + 1) == cc <==> lost % 16 == 15
    ensures CounterAt(cc, lost + 1) == NextCounter(cc) <==> lost % 16 == 0
  {
    Rounds(cc as int, lost);
    NextAsInt(cc);
  }

  lemma Rounds(c: nat, lost: nat)
    requires c < 16
    ensures (c + (lost + 1)) % 16 == c <==> lost % 16 == 15
    ensures (c + (lost + 1)) % 16 == (c + 1) % 16 <==> lost % 16 == 0
  {
    WholeRounds(c + lost % 16 + 1, lost / 16);
    assert c + lost % 16 + 1 + 16 * (lost / 16) == c + (lost + 1);
    BelowTwoRounds(c, lost % 16);
  }

  lemma WholeRounds(x: nat, q: nat)
    ensures (x + 16 * q) % 16 == x % 16
  {}

  lemma BelowTwoRounds(c: nat, r: nat)
    requires c < 16 && r < 16
    ensures (c + r + 1) % 16 == c <==> r == 15
    ensures (c + r + 1) % 16 == (c + 1) % 16 <==> r == 0
  {}

  lemma PacketLost(s: Es, isOpen: bool, lost: nat, cc: byte, call: Call, more: seq<byte>)
    requires InSync(s, cc, isOpen, lost)
    ensures InSync(s, NextCounter(cc), isOpen, lost + 1) && Collected(s, lost + 1, false, call, more)
  {
    hide NextCounter, CounterAt, Matches, WithAud;
    CounterAtOne(cc);
    if s.hasCc {
      CounterThenNext(s.cc, lost + 1);
    }
  }

  /** All continuation packets of a unit, some of them lost. */
  lemma {:induction false} ContinuationLoss(
    s: Es, isOpen: bool, lost: nat, alive: bool, job: Job, cc: byte, payload: seq<byte>, keep: seq<bool>,
    all: seq<Call>, i: nat, buf: seq<byte>, maxAu: nat)
    requires payload != [] && |keep| == |Chunks(job, cc, false, payload)| && i < |all|
    requires GapsNoticed(Chunks(job, cc, false, payload), keep, isOpen, lost)
    requires InSync(s, cc, isOpen, lost) && Collected(s, lost, alive, all[i], buf) && (lost > 0 ==> !alive)
    requires Partial(s, all) && buf + payload == WithAud(all[i].codec, all[i].au)
    ensures var chunks := Chunks(job, cc, false, payload);
            var (t, units) := HandleAll(s, Delivered(chunks, keep), maxAu);
            && units == [] && Partial(t, all)
            && InSync(t, CounterAt(cc, |chunks|), OpenAfter(chunks, keep, isOpen, lost), LostAfter(keep, lost))
            && Collected(t, LostAfter(keep, lost), alive && AllKept(keep) && |buf + payload| <= maxAu,
                         all[i], buf + payload)
    decreases |payload|
  {
    hide *;
    InSyncBelow(s, cc, isOpen, lost);
    var call := all[i];
    var chunks := Chunks(job, cc, false, payload);
    var n := Taken(job, false, payload);
    ChunksUnfold(job, cc, payload);
    GapsStep(chunks, keep, isOpen, lost);
    DeliveredStep(chunks, keep);
    CounterAtOne(cc);
    var piece := payload[..n];
    var t, nowOpen, now, nowAlive := s, isOpen, lost + 1, false;
    if keep[0] {
      ContinuationArrives(s, isOpen, lost, alive, chunks[0], call, buf, maxAu);
      t, nowOpen, now := Handle(s, chunks[0], maxAu).0, OpenAt(chunks[0], isOpen, lost), 0;
      nowAlive := alive && |buf + piece| <= maxAu;
      PrefixGrows(buf, payload, n);
      PartialFrom(t, all, i, nowAlive, buf + piece);
      HandleAllUnfold(s, Delivered(chunks, keep), maxAu);
    } else {
      PacketLost(s, isOpen, lost, cc, call, buf + piece);
    }
    HandleNone(t, maxAu);
    NoUnit();
    if n == |payload| {
      assert piece == payload;
      assert chunks[1..] == [] && |keep| == 1;
      DeliveredNone<EsPacket>(keep[1..]);
      EndOfUnit(chunks, keep, isOpen, lost);
    } else {
      var rest := payload[n..];
      assert piece + rest == payload;
      ConcatAssoc(buf, piece, rest);
      ContinuationLoss(t, nowOpen, now, nowAlive, job, NextCounter(cc), rest, keep[1..], all, i, buf + piece, maxAu);
      CounterStep(cc, |chunks| - 1);
    }
  }

  lemma InSyncBelow(s: Es, cc: byte, isOpen: bool, lost: nat)
    requires InSync(s, cc, isOpen, lost)
    ensures cc < 16
  {}

  lemma EndOfUnit(chunks: seq<EsPacket>, keep: seq<bool>, isOpen: bool, lost: nat)
    requires |keep| == |chunks| == 1
    ensures OpenAfter(chunks, keep, isOpen, lost) == (if keep[0] then OpenAt(chunks[0], isOpen, lost) else isOpen)
    ensures LostAfter(keep, lost) == (if keep[0] then 0 else lost + 1) && AllKept(keep) == keep[0]
  {
    assert keep[1..] == [] && chunks[1..] == [];
  }

  lemma PrefixGrows(buf: seq<byte>, payload: seq<byte>, n: nat)
    requires n <= |payload|
    ensures buf + payload[..n] <= buf + payload
  {}

  /** What is held between two units, if nothing was lost since: a whole unit that may still be
      returned, or nothing. */
  predicate Held(s: Es, lost: nat, pending: seq<Call>) {
    && |pending| <= 1 && (lost > 0 ==> pending == [])
    && (pending == [] && lost == 0 ==> !s.collecting)
    && (pending != [] ==>
          pending[0].au != [] && Collected(s, 0, true, pending[0], WithAud(pending[0].codec, pending[0].au)))
  }

  /** The first packet of a unit brings out the unit that is held, if any, and starts the next one. */
  lemma StartArrives(
    s: Es, isOpen: bool, lost: nat, p: EsPacket, call: Call, n: nat, pending: seq<Call>, maxAu: nat)
    requires InSync(s, p.cc, isOpen, lost) && Held(s, lost, pending) && (isOpen ==> Noticed(lost, true))
    requires p.unitStart && HeaderLen(call) <= n <= |PesBytes(call)| && p.payload == PesBytes(call)[..n]
    requires p.rai == IsRandomAccess(call.codec, call.au)
    ensures n - HeaderLen(call) <= |WithAud(call.codec, call.au)|
    ensures var (t, unit) := Handle(s, p, maxAu);
            && MatchAll(AsSeq(unit), pending)
            && InSync(t, NextCounter(p.cc), true, 0)
            && Collected(t, 0, true, call, WithAud(call.codec, call.au)[..n - HeaderLen(call)])
  {
    hide *;
    InSyncBelow(s, p.cc, isOpen, lost);
    StartPacket(s, call, p, maxAu, n);
    FinishedIntact(s, isOpen, lost, p, pending);
    StartedFields(s.lastTs, call, p.cc, n);
    StartedIntact(s.lastTs, call, p.cc, WithAud(call.codec, call.au)[..n - HeaderLen(call)]);
  }

  /** A gap empties the stream, so only a unit without losses comes out, and it does. */
  lemma FinishedIntact(s: Es, isOpen: bool, lost: nat, p: EsPacket, pending: seq<Call>)
    requires InSync(s, p.cc, isOpen, lost) && Held(s, lost, pending) && (isOpen ==> Noticed(lost, true))
    ensures MatchAll(AsSeq(Finish(Admit(s, p)).1), pending)
  {
    hide Matches, CounterAt, WithAud, NextCounter;
    GapNoticed(s.cc, lost);
    if pending != [] {
      WithAudNonEmpty(pending[0].codec, pending[0].au);
    }
  }

  lemma StartedIntact(lastTs: int64, call: Call, cc: byte, buf: seq<byte>)
    requires cc < 16
    ensures InSync(Started(lastTs, call, cc, buf), NextCounter(cc), true, 0)
    ensures Collected(Started(lastTs, call, cc, buf), 0, true, call, buf)
  {
    StartedMatches(lastTs, call, cc, buf);
    CounterAtOne(cc);
    hide Matches, NextCounter, CounterAt, WithAud, IsRandomAccess, Pes.Extend;
  }

  lemma StartedMatches(lastTs: int64, call: Call, cc: byte, buf: seq<byte>)
    ensures var t := Started(lastTs, call, cc, buf);
            Matches(Unit(t.pts, t.dts, t.rai, WithAud(call.codec, call.au)), call)
  {
    hide WithAud, IsRandomAccess, Pes.Extend, Pes.Low33;
    Pes.ExtendCongruent(lastTs, Pes.Low33(call.dts));
    Pes.ExtendCongruent(Pes.Extend(lastTs, Pes.Low33(call.dts)), Pes.Low33(call.pts));
  }

  /** The call whose unit is held once its packets have been sent: all of them arrived, and it fits. */
  function Kept(tracks: seq<Track>, call: Call, keep: seq<bool>, maxAu: nat): seq<Call>
    requires tracks != []
  {
    if AllKept(keep) && SizeOk(tracks, call, maxAu) then [call] else []
  }

  /** One whole unit, some of its packets lost. */
  lemma UnitLoss(
    s: Es, isOpen: bool, lost: nat, tracks: seq<Track>, all: seq<Call>, i: nat, cc: byte, keep: seq<bool>,
    pending: seq<Call>, maxAu: nat)
    requires i < |all| && tracks != [] && |keep| == |UnitChunks(tracks, all[i], cc)| && all[i].au != []
    requires GapsNoticed(UnitChunks(tracks, all[i], cc), keep, isOpen, lost)
    requires InSync(s, cc, isOpen, lost) && Held(s, lost, pending) && Partial(s, all)
    ensures var chunks := UnitChunks(tracks, all[i], cc);
            var (t, units) := HandleAll(s, Delivered(chunks, keep), maxAu);
            && MatchAll(units, if keep[0] then pending else []) && Partial(t, all)
            && InSync(t, CounterAt(cc, |chunks|), OpenAfter(chunks, keep, isOpen, lost), LostAfter(keep, lost))
            && Held(t, LostAfter(keep, lost), Kept(tracks, all[i], keep, maxAu))
  {
    hide *;
    var call := all[i];
    InSyncBelow(s, cc, isOpen, lost);
    var job, payload, chunks := JobFor(tracks, call), PesBytes(call), UnitChunks(tracks, call, cc);
    var n, data := Taken(job, true, payload), WithAud(call.codec, call.au);
    FirstTaken(tracks, call);
    UnitChunksUnfold(tracks, call, cc);
    GapsStep(chunks, keep, isOpen, lost);
    DeliveredStep(chunks, keep);
    CounterAtOne(cc);
    DataOf(call, n);
    var got := data[..n - HeaderLen(call)];
    var t, nowOpen, now, units := s, isOpen, lost + 1, AsSeq<Unit>(None);
    if keep[0] {
      StartArrives(s, isOpen, lost, chunks[0], call, n, pending, maxAu);
      t, units := Handle(s, chunks[0], maxAu).0, AsSeq(Handle(s, chunks[0], maxAu).1);
      nowOpen, now := true, 0;
      PrefixOf(data, n - HeaderLen(call));
      PartialFrom(t, all, i, true, got);
      HandleAllUnfold(s, Delivered(chunks, keep), maxAu);
    } else {
      PacketLost(s, isOpen, lost, cc, call, got);
      NoneMatch();
    }
    assert units + [] == units;
    HandleNone(t, maxAu);
    OpenAtStart(chunks[0], isOpen, lost);
    if n == |payload| {
      assert chunks[1..] == [] && |keep| == 1;
      DeliveredNone<EsPacket>(keep[1..]);
      EndOfUnit(chunks, keep, isOpen, lost);
    } else {
      ContinuationLoss(t, nowOpen, now, keep[0], job, NextCounter(cc), payload[n..], keep[1..], all, i, got, maxAu);
      CounterStep(cc, |chunks| - 1);
    }
    SizeIs(tracks, call, n, maxAu);
    LostIsNotKept(keep, lost);
    HeldWhole(HandleAll(s, Delivered(chunks, keep), maxAu).0, LostAfter(keep, lost), tracks, call, keep, maxAu);
  }

  lemma PrefixOf(s: seq<byte>, n: nat)
    requires n <= |s|
    ensures s[..n] <= s
  {}

  lemma NoneMatch()
    ensures AsSeq<Unit>(None) == [] && MatchAll([], [])
  {}

  lemma OpenAtStart(p: EsPacket, isOpen: bool, lost: nat)
    ensures p.unitStart ==> OpenAt(p, isOpen, lost)
  {}

  /** The size test of the reader, for the unit whose first packet takes n bytes. */
  lemma SizeIs(tracks: seq<Track>, call: Call, n: nat, maxAu: nat)
    requires tracks != []
    requires n == |PesBytes(call)| <==> |PesBytes(call)| <= PAYLOAD_SIZE - MinField(JobFor(tracks, call), true)
    ensures SizeOk(tracks, call, maxAu) <==> n == |PesBytes(call)| || |WithAud(call.codec, call.au)| <= maxAu
  {
    hide PesBytes, WithAud, MinField, JobFor;
  }

  lemma {:induction false} LostIsNotKept(keep: seq<bool>, lost: nat)
    requires keep != []
    ensures LostAfter(keep, lost) > 0 ==> !AllKept(keep)
  {
    var now := if keep[0] then 0 else lost + 1;
    if |keep| > 1 {
      LostIsNotKept(keep[1..], now);
    } else {
      assert keep[1..] == [] && LostAfter(keep[1..], now) == now;
    }
  }

  lemma HeldWhole(s: Es, lost: nat, tracks: seq<Track>, call: Call, keep: seq<bool>, maxAu: nat)
    requires tracks != [] && call.au != [] && (lost > 0 ==> !AllKept(keep))
    requires Collected(s, lost, AllKept(keep) && SizeOk(tracks, call, maxAu), call, WithAud(call.codec, call.au))
    ensures Held(s, lost, Kept(tracks, call, keep, maxAu))
  {
    hide Matches, WithAud, SizeOk, AllKept;
  }

  /** The calls whose units come out before the end of the input: those of which every packet
      arrives, that fit, and whose following unit starts with a packet that arrives. The call in
      `pending` is in the state to come out next. */
  function Surviving(
    tracks: seq<Track>, pending: seq<Call>, calls: seq<Call>, cc: byte, keep: seq<bool>, maxAu: nat): seq<Call>
    requires tracks != []
    decreases |calls|
  {
    if calls == [] || |keep| < |UnitChunks(tracks, calls[0], cc)| then []
    else
      var n := |UnitChunks(tracks, calls[0], cc)|;
      (if keep[0] then pending else []) +
      Surviving(tracks, Kept(tracks, calls[0], keep[..n], maxAu), calls[1..], CounterAt(cc, n), keep[n..], maxAu)
  }

  /** Some of the calls, in order. */
  predicate Subsequence(some: seq<Call>, calls: seq<Call>)
    decreases |calls|
  {
    some == [] ||
    (calls != [] && ((some[0] == calls[0] && Subsequence(some[1..], calls[1..])) || Subsequence(some, calls[1..])))
  }

  lemma {:induction false} SubsequenceConcat(a: seq<Call>, b: seq<Call>, x: seq<Call>, y: seq<Call>)
    requires Subsequence(a, x) && Subsequence(b, y)
    ensures Subsequence(a + b, x + y)
    decreases |x|
  {
    if x == [] {
      assert a + b == b && x + y == y;
    } else {
      assert (x + y)[1..] == x[1..] + y;
      if a == [] {
        assert Subsequence(a, x[1..]);
      }
      if Subsequence(a, x[1..]) {
        SubsequenceConcat(a, b, x[1..], y);
      } else {
        assert (a + b)[1..] == a[1..] + b;
        SubsequenceConcat(a[1..], b, x[1..], y);
      }
    }
  }

  /** Surviving calls are some of the calls sent, in order. */
  lemma {:induction false} SurvivingSent(
    tracks: seq<Track>, pending: seq<Call>, calls: seq<Call>, cc: byte, keep: seq<bool>, maxAu: nat)
    requires tracks != [] && |pending| <= 1
    ensures Subsequence(Surviving(tracks, pending, calls, cc, keep, maxAu), pending + calls)
    decreases |calls|
  {
    hide UnitChunks, Kept, CounterAt, Subsequence;
    NothingSubsequence(pending + calls);
    if calls != [] && |keep| >= |UnitChunks(tracks, calls[0], cc)| {
      var n := |UnitChunks(tracks, calls[0], cc)|;
      var kept := Kept(tracks, calls[0], keep[..n], maxAu);
      KeptIs(tracks, calls[0], keep[..n], maxAu);
      SurvivingSent(tracks, kept, calls[1..], CounterAt(cc, n), keep[n..], maxAu);
      var later := Surviving(tracks, kept, calls[1..], CounterAt(cc, n), keep[n..], maxAu);
      assert [calls[0]] + calls[1..] == calls;
      OneSubsequence(pending);
      NothingSubsequence(pending);
      if kept == [] {
        NothingSubsequence([calls[0]]);
        assert kept + calls[1..] == calls[1..];
        SubsequenceConcat([], later, [calls[0]], calls[1..]);
        assert [] + later == later;
      }
      SubsequenceConcat(if keep[0] then pending else [], later, pending, calls);
    }
  }

  lemma KeptIs(tracks: seq<Track>, call: Call, keep: seq<bool>, maxAu: nat)
    requires tracks != []
    ensures Kept(tracks, call, keep, maxAu) == [] || Kept(tracks, call, keep, maxAu) == [call]
  {
    hide AllKept, SizeOk;
  }

  lemma NothingSubsequence(calls: seq<Call>)
    ensures Subsequence([], calls)
  {}

  lemma OneSubsequence(calls: seq<Call>)
    requires |calls| <= 1
    ensures Subsequence(calls, calls)
  {}

  /** Under noticed losses a stream returns exactly the surviving units, in order. */
  lemma {:induction false} StreamLoss(
    s: Es, isOpen: bool, lost: nat, tracks: seq<Track>, all: seq<Call>, from: nat, cc: byte, keep: seq<bool>,
    pending: seq<Call>, maxAu: nat)
    requires from <= |all| && tracks != [] && |keep| == |ChunkRun(tracks, all[from..], cc)| && NonEmptyUnits(all)
    requires GapsNoticed(ChunkRun(tracks, all[from..], cc), keep, isOpen, lost)
    requires InSync(s, cc, isOpen, lost) && Held(s, lost, pending) && Partial(s, all)
    ensures var (end, units) := HandleAll(s, Delivered(ChunkRun(tracks, all[from..], cc), keep), maxAu);
            MatchAll(units, Surviving(tracks, pending, all[from..], cc, keep, maxAu)) && Partial(end, all)
    decreases |all| - from
  {
    hide *;
    var calls := all[from..];
    ChunkRunUnfold(tracks, calls, cc);
    SurvivingUnfold(tracks, pending, calls, cc, keep, maxAu);
    if calls == [] {
      DeliveredNone<EsPacket>(keep);
      HandleNone(s, maxAu);
      NoneMatch();
    } else {
      var chunks := UnitChunks(tracks, calls[0], cc);
      var next := CounterAt(cc, |chunks|);
      var rest := ChunkRun(tracks, calls[1..], next);
      var now, later := keep[..|chunks|], keep[|chunks|..];
      NonEmptyAt(all, from);
      GapsSplit(chunks, rest, keep, isOpen, lost);
      DeliveredConcat(chunks, rest, keep);
      UnitLoss(s, isOpen, lost, tracks, all, from, cc, now, pending, maxAu);
      var (t, units) := HandleAll(s, Delivered(chunks, now), maxAu);
      var kept := Kept(tracks, calls[0], now, maxAu);
      assert calls[1..] == all[from + 1..];
      StreamLoss(t, OpenAfter(chunks, now, isOpen, lost), LostAfter(now, lost), tracks, all, from + 1, next, later,
                 kept, maxAu);
      HandleAllConcat(s, Delivered(chunks, now), Delivered(rest, later), maxAu);
      MatchConcat(units, HandleAll(t, Delivered(rest, later), maxAu).1, if keep[0] then pending else [],
                  Surviving(tracks, kept, calls[1..], next, later, maxAu));
    }
  }

  lemma NonEmptyAt(all: seq<Call>, i: nat)
    requires NonEmptyUnits(all) && i < |all|
    ensures all[i].au != []
  {}

  lemma MatchConcat(a: seq<Unit>, b: seq<Unit>, x: seq<Call>, y: seq<Call>)
    requires MatchAll(a, x) && MatchAll(b, y)
    ensures MatchAll(a + b, x + y)
  {
    hide Matches;
  }

  lemma SurvivingUnfold(
    tracks: seq<Track>, pending: seq<Call>, calls: seq<Call>, cc: byte, keep: seq<bool>, maxAu: nat)
    requires tracks != []
    ensures calls == [] ==> Surviving(tracks, pending, calls, cc, keep, maxAu) == []
    ensures calls != [] && |keep| >= |UnitChunks(tracks, calls[0], cc)| ==>
              var n := |UnitChunks(tracks, calls[0], cc)|;
              Surviving(tracks, pending, calls, cc, keep, maxAu) ==
              (if keep[0] then pending else []) +
              Surviving(tracks, Kept(tracks, calls[0], keep[..n], maxAu), calls[1..], CounterAt(cc, n), keep[n..], maxAu)
  {
    hide UnitChunks, Kept, CounterAt;
  }

  lemma ChunkRunUnfold(tracks: seq<Track>, calls: seq<Call>, cc: byte)
    requires tracks != []
    ensures ChunkRun(tracks, calls, cc) ==
            if calls == [] then []
            else
              UnitChunks(tracks, calls[0], cc) +
              ChunkRun(tracks, calls[1..], CounterAt(cc, |UnitChunks(tracks, calls[0], cc)|))
  {}

  /** Lose any packets of a written stream after the first two, which hold the tables, so that the
      counter reveals every gap inside a unit under way. The tracks are found, and before the end
      of the input is reached the units returned on a track are exactly the surviving ones, byte
      for byte and in order. What is still held when the input ends may lack its end: it is the
      beginning of a written unit. */
  lemma LossSafe(tracks: seq<Track>, calls: seq<Call>, maxAu: nat, keep: seq<bool>)
    requires ValidTracks(tracks) && SomeAccepted(tracks, calls)
    requires var pkts := WriteAll(ConfigFor(tracks), INITIAL, calls).1;
             && |keep| == |pkts| && |keep| >= 2 && keep[0] && keep[1]
             && forall i :: 0 <= i < |tracks| ==>
                  GapsNoticed(ForPid(pkts, tracks[i].pid), KeepFor(pkts, keep, tracks[i].pid), false, 0)
    ensures var pkts := WriteAll(ConfigFor(tracks), INITIAL, calls).1;
            var got := Delivered(pkts, keep);
            && |got| >= 2
            && TsReader.FindTracks(TsReader.NEW_SEARCH, got) == Ok((tracks, got[2..]))
            && var (end, units) := TsReader.DemuxAll(tracks, TsReader.NewStreams(|tracks|), maxAu, got[2..]);
               forall i :: 0 <= i < |tracks| ==>
                 var sent := Sent(tracks, calls, tracks[i].pid);
                 var survivors := Surviving(tracks, [], sent, 0, KeepFor(pkts, keep, tracks[i].pid), maxAu);
                 && MatchAll(Of(units, tracks[i]), survivors) && Subsequence(survivors, sent)
                 && TailOf(Of(TsReader.Flush(tracks, end, 0), tracks[i]), sent)
  {
    hide *;
    var c := ConfigFor(tracks);
    var pkts := WriteAll(c, INITIAL, calls).1;
    var got := Delivered(pkts, keep);
    NoneCounted(|tracks|);
    TracksNotEmpty(tracks);
    TablesDelivered(c, calls, keep);
    TablesFound(c, map[], got[2..]);
    var (end, units) := TsReader.DemuxAll(tracks, TsReader.NewStreams(|tracks|), maxAu, got[2..]);
    forall i | 0 <= i < |tracks|
      ensures var sent := Sent(tracks, calls, tracks[i].pid);
              var survivors := Surviving(tracks, [], sent, 0, KeepFor(pkts, keep, tracks[i].pid), maxAu);
              && MatchAll(Of(units, tracks[i]), survivors) && Subsequence(survivors, sent)
              && TailOf(Of(TsReader.Flush(tracks, end, 0), tracks[i]), sent)
    {
      assert GapsNoticed(ForPid(pkts, tracks[i].pid), KeepFor(pkts, keep, tracks[i].pid), false, 0);
      TrackLoss(c, calls, maxAu, keep, i);
    }
  }

  /** At most one unit, the beginning of a written one. */
  ghost predicate TailOf(units: seq<Unit>, calls: seq<Call>) {
    units == [] || (|units| == 1 && exists i :: 0 <= i < |calls| && Truncated(units[0], calls[i]))
  }

  lemma PartialTail(s: Es, all: seq<Call>)
    requires Partial(s, all)
    ensures TailOf(AsSeq(Finish(s).1), all)
  {
    hide Truncated;
  }

  lemma TablesDelivered(c: Config, calls: seq<Call>, keep: seq<bool>)
    requires Ready(c) && SomeAccepted(c.tracks, calls)
    requires |keep| == |WriteAll(c, INITIAL, calls).1| && |keep| >= 2 && keep[0] && keep[1]
    ensures var got := Delivered(WriteAll(c, INITIAL, calls).1, keep);
            |got| >= 2 && got == PsiPackets(c, map[]) + got[2..]
  {
    hide *;
    var pkts := WriteAll(c, INITIAL, calls).1;
    TablesFirst(c, calls);
    DeliveredStep(pkts, keep);
    DeliveredStep(pkts[1..], keep[1..]);
    var got := Delivered(pkts, keep);
    assert got[..2] == pkts[..2] == PsiPackets(c, map[]);
  }

  lemma InSyncAtFirst()
    ensures InSync(NEW_ES, 0, false, 0) && Held(NEW_ES, 0, [])
  {}

  lemma TrackLoss(c: Config, calls: seq<Call>, maxAu: nat, keep: seq<bool>, i: nat)
    requires Configures(c) && Ready(c) && SomeAccepted(c.tracks, calls) && i < |c.tracks|
    requires |keep| == |WriteAll(c, INITIAL, calls).1| && |keep| >= 2 && keep[0] && keep[1]
    requires GapsNoticed(ForPid(WriteAll(c, INITIAL, calls).1, c.tracks[i].pid),
                         KeepFor(WriteAll(c, INITIAL, calls).1, keep, c.tracks[i].pid), false, 0)
    requires |Delivered(WriteAll(c, INITIAL, calls).1, keep)| >= 2
    ensures var pkts := WriteAll(c, INITIAL, calls).1;
            var got := Delivered(pkts, keep);
            var sent := Sent(c.tracks, calls, c.tracks[i].pid);
            var survivors := Surviving(c.tracks, [], sent, 0, KeepFor(pkts, keep, c.tracks[i].pid), maxAu);
            var (end, units) := TsReader.DemuxAll(c.tracks, TsReader.NewStreams(|c.tracks|), maxAu, got[2..]);
            && MatchAll(Of(units, c.tracks[i]), survivors) && Subsequence(survivors, sent)
            && TailOf(Of(TsReader.Flush(c.tracks, end, 0), c.tracks[i]), sent)
  {
    hide *;
    FreshTrack(c, i);
    InSyncAtFirst();
    var pid, es := c.tracks[i].pid, TsReader.NewStreams(|c.tracks|);
    var pkts, sent := WriteAll(c, INITIAL, calls).1, Sent(c.tracks, calls, pid);
    var got := Delivered(pkts, keep);
    TablesDelivered(c, calls, keep);
    PsiForPid(c, map[], pid);
    ForPidConcat(PsiPackets(c, map[]), got[2..], pid);
    assert [] + ForPid(got[2..], pid) == ForPid(got[2..], pid);
    DeliveredForPid(pkts, keep, pid);
    WrittenForPid(c, INITIAL, calls, pid);
    DemuxProjects(c.tracks, es, maxAu, got[2..], i);
    NothingPartial(sent);
    SentNonEmpty(c.tracks, calls, pid);
    assert sent[0..] == sent;
    StreamLoss(NEW_ES, false, 0, c.tracks, sent, 0, 0, KeepFor(pkts, keep, pid), [], maxAu);
    SurvivingSent(c.tracks, [], sent, 0, KeepFor(pkts, keep, pid), maxAu);
    assert [] + sent == sent;
    var end := TsReader.DemuxAll(c.tracks, es, maxAu, got[2..]).0;
    FlushProjects(c.tracks, end, 0, i);
    PartialTail(end[i], sent);
  }

  lemma NothingPartial(all: seq<Call>)
    ensures Partial(NEW_ES, all)
  {}

  /** The gap test of the code, exactly: after a loss, the bytes held from before are given up,
      neither returned nor added to, if and only if the gap is noticed. */
  lemma NoticedExactly(s: Es, p: EsPacket, lost: nat, maxAu: nat)
    requires s.hasCc && s.cc < 16 && s.collecting && s.buf != [] && |s.buf + p.payload| <= maxAu
    requires lost > 0 && p.cc == CounterAt(s.cc, lost + 1)
    ensures var (t, unit) := Handle(s, p, maxAu);
            Noticed(lost, p.unitStart) <==> unit == None && (p.unitStart || !t.collecting)
  {
    hide CounterAt, NextCounter, StartUnit;
    GapNoticed(s.cc, lost);
  }

  lemma GapsStep(chunks: seq<EsPacket>, keep: seq<bool>, isOpen: bool, lost: nat)
    requires |keep| == |chunks| && chunks != [] && GapsNoticed(chunks, keep, isOpen, lost)
    ensures var nowOpen := if keep[0] then OpenAt(chunks[0], isOpen, lost) else isOpen;
            var now := if keep[0] then 0 else lost + 1;
            && (keep[0] && isOpen ==> Noticed(lost, chunks[0].unitStart))
            && GapsNoticed(chunks[1..], keep[1..], nowOpen, now)
            && OpenAfter(chunks, keep, isOpen, lost) == OpenAfter(chunks[1..], keep[1..], nowOpen, now)
            && LostAfter(keep, lost) == LostAfter(keep[1..], now)
            && AllKept(keep) == (keep[0] && AllKept(keep[1..]))
  {
    hide Noticed, OpenAt;
  }

  lemma DeliveredStep<T>(xs: seq<T>, keep: seq<bool>)
    requires |keep| == |xs| && xs != []
    ensures var rest := Delivered(xs[1..], keep[1..]);
            Delivered(xs, keep) == if keep[0] then [xs[0]] + rest else rest
  {
    assert [] + Delivered(xs[1..], keep[1..]) == Delivered(xs[1..], keep[1..]);
  }

  lemma DeliveredNone<T>(keep: seq<bool>)
    requires keep == []
    ensures Delivered<T>([], keep) == []
  {}

  lemma CounterAtOne(cc: byte)
    requires cc < 16
    ensures CounterAt(cc, 1) == NextCounter(cc) < 16
  {}

  lemma NoUnit()
    ensures AsSeq<Unit>(None) + [] == []
  {}
}
