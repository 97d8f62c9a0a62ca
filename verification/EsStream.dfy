/** esStream of mpegts/reader.go: reassembling the access units of one elementary stream. */
module EsStream {
  import opened Bits
  import opened Bytes
  import opened Packetizer
  import Pes

  /** A unit as handed to the caller. */
  datatype Unit = Unit(pts: int64, dts: int64, rai: bool, data: seq<byte>)

  datatype Es = Es(buf: seq<byte>, collecting: bool, hasCc: bool, cc: byte,
                   pts: int64, dts: int64, rai: bool, lastTs: int64)

  const NEW_ES := Es([], false, false, 0, 0, 0, false, -1)

  function Finish(s: Es): (Es, Option<Unit>) {
    if !s.collecting || s.buf == [] then (s.(collecting := false), None)
    else (s.(buf := [], collecting := false), Some(Unit(s.pts, s.dts, s.rai, s.buf)))
  }

  function StartUnit(s: Es, rai: bool, payload: seq<byte>): Es {
    var h := Pes.ParseHeader(payload);
    if h.Err? || h.value.pts == None then s.(collecting := false)
    else
      var dts := Pes.Extend(s.lastTs, Pes.WireDts(h.value));
      s.(lastTs := dts, pts := Pes.Extend(dts, h.value.pts.value), dts := dts, rai := rai,
         buf := payload[h.value.headerLength..], collecting := true)
  }

  function Discard(s: Es): Es {
    s.(buf := [], collecting := false)
  }

  /** A packet that only repeats the previous one. */
  predicate Duplicate(s: Es, p: EsPacket) {
    s.hasCc && p.cc == s.cc && !p.unitStart
  }

  /** The state once the continuity counter has been looked at. */
  function Admit(s: Es, p: EsPacket): Es {
    (if s.hasCc && p.cc != NextCounter(s.cc) then Discard(s) else s).(cc := p.cc, hasCc := true)
  }

  /** handleES: one usable packet of the stream. */
  function Handle(s: Es, p: EsPacket, maxAu: nat): (Es, Option<Unit>) {
    if Duplicate(s, p) then (s, None)
    else
      var t := Admit(s, p);
      if p.unitStart then
        var (idle, unit) := Finish(t);
        (StartUnit(idle, p.rai, p.payload), unit)
      else if !t.collecting then (t, None)
      else if |t.buf + p.payload| > maxAu then (Discard(t), None)
      else (t.(buf := t.buf + p.payload), None)
  }

  /** A run of packets of one stream. */
  function HandleAll(s: Es, ps: seq<EsPacket>, maxAu: nat): (Es, seq<Unit>)
    decreases |ps|
  {
    if ps == [] then (s, [])
    else
      var (t, unit) := Handle(s, ps[0], maxAu);
      var (end, rest) := HandleAll(t, ps[1..], maxAu);
      (end, (if unit.Some? then [unit.value] else []) + rest)
  }

  lemma {:induction false} HandleAllConcat(s: Es, a: seq<EsPacket>, b: seq<EsPacket>, maxAu: nat)
    ensures var (t, now) := HandleAll(s, a, maxAu);
            var (end, later) := HandleAll(t, b, maxAu);
            HandleAll(s, a + b, maxAu) == (end, now + later)
    decreases |a|
  {
    if a == [] {
      assert a + b == b;
      assert [] + HandleAll(s, b, maxAu).1 == HandleAll(s, b, maxAu).1;
    } else {
      hide Handle;
      assert (a + b)[1..] == a[1..] + b;
      var (t, unit) := Handle(s, a[0], maxAu);
      HandleAllConcat(t, a[1..], b, maxAu);
      var (u, rest) := HandleAll(t, a[1..], maxAu);
      ConcatAssoc(if unit.Some? then [unit.value] else [], rest, HandleAll(u, b, maxAu).1);
    }
  }

  /** The longest payload a packet can carry is 184 bytes, 170 behind the shortest PES header. */
  const FIRST_PAYLOAD: nat := 170

  ghost predicate Tidy(s: Es, maxAu: nat) {
    && (!s.collecting ==> s.buf == [])
    && |s.buf| <= (if maxAu > FIRST_PAYLOAD then maxAu else FIRST_PAYLOAD)
    && s.cc < 16
  }

  /** Whatever arrives, a stream that does not collect holds nothing, and memory is bounded. */
  lemma HandleTidy(s: Es, p: EsPacket, maxAu: nat)
    requires Tidy(s, maxAu) && p.cc < 16 && |p.payload| <= PAYLOAD_SIZE
    ensures Tidy(Handle(s, p, maxAu).0, maxAu)
  {
    if p.unitStart && !Duplicate(s, p) {
      var h := Pes.ParseHeader(p.payload);
      assert h.Ok? && h.value.pts.Some? ==> h.value.headerLength >= 14;
    }
  }

  /** A Go slice: the first `len` elements of its storage. */
  datatype Slice = Slice(store: array<byte>, len: nat)

  ghost predicate InBounds(s: Slice)
  {
    s.len <= s.store.Length
  }

  function Contents(s: Slice): seq<byte>
    requires s.len <= s.store.Length
    reads s.store
  {
    s.store[..s.len]
  }

  /** Go's append: in place while the capacity lasts, into new storage otherwise. */
  method Append(dst: Slice, data: seq<byte>) returns (r: Slice)
    requires InBounds(dst)
    modifies dst.store
    ensures InBounds(r)
    ensures if dst.len + |data| <= dst.store.Length then r.store == dst.store else fresh(r.store)
    ensures Contents(r) == old(Contents(dst)) + data
  {
    ghost var was := dst.store[..dst.len];
    var len := dst.len + |data|;
    if len <= dst.store.Length {
      forall i | 0 <= i < |data| {
        dst.store[dst.len + i] := data[i];
      }
      r := Slice(dst.store, len);
    } else {
      var grown := new byte[2 * len](_ => 0);
      forall i | 0 <= i < dst.len {
        grown[i] := dst.store[i];
      }
      forall i | 0 <= i < |data| {
        grown[dst.len + i] := data[i];
      }
      r := Slice(grown, len);
    }
    assert r.store[..dst.len] == was && r.store[dst.len..len] == data;
    Cut(r.store[..], 0, dst.len, len);
    assert r.store[..][..len] == Contents(r);
  }

  /** AccessUnit without its track; `data` is the stream's own buffer. */
  datatype Returned = Returned(pts: int64, dts: int64, rai: bool, data: Slice)

  class Stream {
    var buf: Slice   // access unit being accumulated
    var out: Slice   // buffer of the last returned access unit, reused
    var collecting: bool
    var hasCc: bool
    var cc: byte
    var pts: int64
    var dts: int64
    var rai: bool
    var lastTs: int64

    /** The two buffers never share storage. */
    ghost predicate Valid()
      reads this
    {
      InBounds(buf) && InBounds(out) && buf.store != out.store
    }

    function State(): Es
      requires InBounds(buf)
      reads this, buf.store
    {
      Es(Contents(buf), collecting, hasCc, cc, pts, dts, rai, lastTs)
    }

    constructor ()
      ensures Valid() && State() == NEW_ES
      ensures fresh(buf.store) && fresh(out.store)
    {
      var noBuf, noOut := new byte[0], new byte[0];
      buf, out := Slice(noBuf, 0), Slice(noOut, 0);
      collecting, hasCc, cc := false, false, 0;
      pts, dts, rai, lastTs := 0, 0, false, -1;
      new;
      assert Contents(buf) == [];
    }

    /** Swaps the buffers and returns what was accumulated, without copying it. */
    method FinishUnit() returns (unit: Option<Returned>)
      requires Valid()
      modifies this
      ensures Valid()
      ensures {buf.store, out.store} == {old(buf.store), old(out.store)}
      ensures State() == Finish(old(State())).0
      ensures unit.Some? <==> Finish(old(State())).1.Some?
      ensures unit.Some? ==> Shows(unit.value, Finish(old(State())).1.value) && unit.value.data == out
    {
      if !collecting || buf.len == 0 {
        collecting := false;
        return None;
      }
      buf, out := Slice(out.store, 0), buf;
      collecting := false;
      unit := Some(Returned(pts, dts, rai, out));
    }

    method StartNext(unitRai: bool, payload: seq<byte>)
      requires Valid()
      modifies this, buf.store
      ensures Valid() && out == old(out)
      ensures buf.store == old(buf.store) || fresh(buf.store)
      ensures State() == StartUnit(old(State()), unitRai, payload)
    {
      hide Pes.ParseHeader, Pes.Extend, Pes.WireDts;
      WireDtsIs(payload);
      var h := Pes.ParseHeader(payload);
      if h.Err? || h.value.pts == None {
        collecting := false;   // resync at the next payload unit start
        return;
      }
      var dts33 := h.value.pts.value;
      if h.value.dts.Some? {
        dts33 := h.value.dts.value;
      }
      var extended := Pes.Extend(lastTs, dts33);
      lastTs := extended;
      pts := Pes.Extend(extended, h.value.pts.value);
      dts := extended;
      rai := unitRai;
      buf := Append(Slice(buf.store, 0), payload[h.value.headerLength..]);
      collecting := true;
    }

    /** handleES. A returned unit lives in `out`, untouched by the unit that starts in the
        same call. */
    method HandlePacket(p: EsPacket, maxAu: nat) returns (unit: Option<Returned>)
      requires Valid()
      modifies this, buf.store, out.store
      ensures Valid()
      ensures buf.store in {old(buf.store), old(out.store)} || fresh(buf.store)
      ensures out.store in {old(buf.store), old(out.store)}
      ensures State() == Handle(old(State()), p, maxAu).0
      ensures unit.Some? <==> Handle(old(State()), p, maxAu).1.Some?
      ensures unit.Some? ==> Shows(unit.value, Handle(old(State()), p, maxAu).1.value) && unit.value.data == out
    {
      hide StartUnit, Finish;
      if hasCc {
        if p.cc == cc && !p.unitStart {
          return None;   // duplicate packet
        }
        if p.cc != (cc % 16 + 1) % 16 {
          // Packet loss: the partial access unit is unusable.
          buf := Slice(buf.store, 0);
          collecting := false;
        }
      }
      cc, hasCc := p.cc, true;
      assert State() == Admit(old(State()), p);
      if p.unitStart {
        unit := FinishUnit();
        StartNext(p.rai, p.payload);
        return;
      }
      unit := None;
      if !collecting {
        return;
      }
      buf := Append(buf, p.payload);
      if buf.len > maxAu {
        buf := Slice(buf.store, 0);
        collecting := false;
      }
    }
  }

  lemma WireDtsIs(payload: seq<byte>)
    ensures var h := Pes.ParseHeader(payload);
            h.Ok? ==>
              && h.value.headerLength <= |payload|
              && (h.value.pts.Some? ==>
                    Pes.WireDts(h.value) == if h.value.dts.Some? then h.value.dts.value else h.value.pts.value)
  {}

  /** The returned unit, read through its buffer. */
  ghost predicate Shows(r: Returned, u: Unit)
    reads r.data.store
  {
    InBounds(r.data) && u == Unit(r.pts, r.dts, r.rai, Contents(r.data))
  }
}
