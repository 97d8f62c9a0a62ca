/** CRC-32 with polynomial 0x04C11DB7, most significant bit first: the table-driven form of
    mpegts/crc32.go, repeated in oggwriter and oggreader for page checksums, against the
    bit-serial shift register of Annex A of ISO/IEC 13818-1. */
module Crc32 {
  import opened Bits
  import opened Bytes

  const POLYNOMIAL: bv32 := 0x04C1_1DB7
  const MPEG_SEED: bv32 := 0xFFFF_FFFF

  function Xor(x: bv32, y: bv32): bv32 { x ^ y }

  function Twice(x: bv32): bv32 { x << 1 }

  predicate Top(x: bv32) { x & 0x8000_0000 != 0 }

  function BitsAtTop(x: bv8): bv32 { (x as bv32) << 24 }

  function AtTop(b: byte): bv32 { BitsAtTop(ToBits(b)) }

  /** One clock of the register with one input bit. */
  function ClockBit(r: bv32, bit: bool): bv32 {
    if Top(r) != bit then Xor(Twice(r), POLYNOMIAL) else Twice(r)
  }

  /** `n` clocks; the input bits are the leading bits of `w`. */
  function Feed(r: bv32, w: bv32, n: nat): bv32
    decreases n
  {
    if n == 0 then r else Feed(ClockBit(r, Top(w)), Twice(w), n - 1)
  }

  function FeedByte(r: bv32, b: byte): bv32 {
    Feed(r, AtTop(b), 8)
  }

  /** The register after a byte string. */
  function Register(r: bv32, data: seq<byte>): bv32
    decreases |data|
  {
    if data == [] then r else Register(FeedByte(r, data[0]), data[1..])
  }

  function TableEntry(i: byte): bv32 {
    Feed(AtTop(i), 0, 8)
  }

  ghost predicate IsTable(table: seq<bv32>) {
    |table| == 256 && forall i: nat :: i < 256 ==> table[i] == TableEntry(i as byte)
  }

  function ShiftByte(x: bv32): bv32 { x << 8 }

  function LowPart(r: bv32): bv32 { r & 0x00FF_FFFF }

  /** The table slot for one input byte, and the register after using it. */
  function SlotBits(r: bv32, x: bv8): bv8 { ((r >> 24) as bv8) ^ x }

  function Slot(r: bv32, b: byte): byte { FromBits(SlotBits(r, ToBits(b))) }

  function Fold(r: bv32, entry: bv32): bv32 { (r << 8) ^ entry }

  /** crc32MPEG of mpegts/crc32.go as a value. */
  function Mpeg(data: seq<byte>): bv32 {
    Register(MPEG_SEED, data)
  }

  method BuildTable() returns (table: array<bv32>)
    ensures fresh(table) && IsTable(table[..])
  {
    hide TableEntry;
    table := new bv32[256](_ => 0);
    for i := 0 to 256
      invariant forall j: nat :: j < i ==> table[j] == TableEntry(j as byte)
    {
      table[i] := ClockEntry(i as byte);
    }
  }

  /** The inner loop of the table construction. */
  method ClockEntry(i: byte) returns (crc: bv32)
    ensures crc == TableEntry(i)
  {
    hide Feed;
    crc := (ToBits(i) as bv32) << 24;
    for k := 0 to 8
      invariant Feed(crc, 0, 8 - k) == TableEntry(i)
    {
      ClockedWithoutInput(crc, 8 - k);
      if crc & 0x8000_0000 != 0 {
        crc := (crc << 1) ^ 0x04C1_1DB7;
      } else {
        crc := crc << 1;
      }
    }
    FeedNone(crc);
  }

  lemma FeedNone(r: bv32)
    ensures Feed(r, 0, 0) == r
  {}

  lemma ClockedWithoutInput(r: bv32, n: nat)
    requires n > 0
    ensures Feed(r, 0, n) == Feed(if r & 0x8000_0000 != 0 then (r << 1) ^ 0x04C1_1DB7 else r << 1, 0, n - 1)
  {
    TwiceZero();
  }

  method TableDriven(table: seq<bv32>, seed: bv32, data: seq<byte>) returns (crc: bv32)
    requires IsTable(table)
    ensures crc == Register(seed, data)
  {
    crc := seed;
    for i := 0 to |data|
      invariant Register(crc, data[i..]) == Register(seed, data)
    {
      hide TableEntry, FeedByte, Slot, Fold;
      assert data[i..][1..] == data[i + 1..];
      TableStep(crc, data[i]);
      TableAt(table, Slot(crc, data[i]));
      crc := Fold(crc, table[Slot(crc, data[i]) as nat]);
    }
    assert data[|data|..] == [];
  }

  lemma TableAt(table: seq<bv32>, b: byte)
    requires IsTable(table)
    ensures table[b as nat] == TableEntry(b)
  {
    hide TableEntry;
    ByteIndex(b);
  }

  lemma ByteIndex(b: byte)
    ensures (b as nat) as byte == b
  {}

  // Algebra of the register.

  lemma XorComm(x: bv32, y: bv32)
    ensures Xor(x, y) == Xor(y, x)
  {}

  lemma XorAssoc(x: bv32, y: bv32, z: bv32)
    ensures Xor(Xor(x, y), z) == Xor(x, Xor(y, z))
  {}

  lemma XorZero(x: bv32)
    ensures Xor(x, 0) == x && Xor(x, x) == 0
  {}

  lemma XorKernel(x: bv32, y: bv32)
    ensures Xor(x, y) == 0 <==> x == y
  {
    hide Xor;
    XorAssoc(x, y, y);
    XorZero(x);
    XorZero(y);
    XorComm(0, y);
  }

  lemma TwiceXor(x: bv32, y: bv32)
    ensures Twice(Xor(x, y)) == Xor(Twice(x), Twice(y))
  {}

  lemma TopXor(x: bv32, y: bv32)
    ensures Top(Xor(x, y)) == (Top(x) != Top(y))
  {}

  lemma TwiceZero()
    ensures Twice(0) == 0 && !Top(0)
  {}

  /** Clocking in the leading bit of `w` is the same as having xored `w` into the register. */
  lemma ClockBitAbsorbs(r: bv32, w: bv32)
    ensures ClockBit(Xor(r, w), false) == Xor(ClockBit(r, Top(w)), Twice(w))
  {
    hide Xor, Twice, Top, POLYNOMIAL;
    TwiceXor(r, w);
    TopXor(r, w);
    XorAssoc(Twice(r), Twice(w), POLYNOMIAL);
    XorAssoc(Twice(r), POLYNOMIAL, Twice(w));
    XorComm(Twice(w), POLYNOMIAL);
  }

  function Doubled(w: bv32, n: nat): bv32
    decreases n
  {
    if n == 0 then w else Doubled(Twice(w), n - 1)
  }

  lemma {:induction false} FeedAbsorbs(r: bv32, w: bv32, n: nat)
    ensures Feed(Xor(r, w), 0, n) == Xor(Feed(r, w, n), Doubled(w, n))
    decreases n
  {
    hide Xor, Twice, Top, POLYNOMIAL, ClockBit;
    if n > 0 {
      TwiceZero();
      ClockBitAbsorbs(r, w);
      FeedAbsorbs(ClockBit(r, Top(w)), Twice(w), n - 1);
    }
  }

  lemma {:induction false} FeedLinear(x: bv32, y: bv32, n: nat)
    ensures Feed(Xor(x, y), 0, n) == Xor(Feed(x, 0, n), Feed(y, 0, n))
    decreases n
  {
    hide Xor, Twice, Top, POLYNOMIAL, ClockBit;
    if n > 0 {
      TwiceZero();
      ClockBitLinear(x, y);
      FeedLinear(ClockBit(x, false), ClockBit(y, false), n - 1);
    }
  }

  lemma ClockBitLinear(x: bv32, y: bv32)
    ensures ClockBit(Xor(x, y), false) == Xor(ClockBit(x, false), ClockBit(y, false))
  {
    hide Xor, Twice, Top, POLYNOMIAL;
    ClockBitAbsorbs(x, y);
    XorAssoc(Twice(x), POLYNOMIAL, Twice(y));
    XorAssoc(Twice(x), POLYNOMIAL, Xor(Twice(y), POLYNOMIAL));
    XorComm(Twice(y), POLYNOMIAL);
    XorAssoc(POLYNOMIAL, POLYNOMIAL, Twice(y));
    XorZero(POLYNOMIAL);
    XorZero(Twice(y));
    XorComm(Twice(y), 0);
  }

  lemma ClockBitKernel(x: bv32)
    requires ClockBit(x, false) == 0
    ensures x == 0
  {}

  lemma {:induction false} FeedInjective(x: bv32, y: bv32, n: nat)
    requires Feed(x, 0, n) == Feed(y, 0, n)
    ensures x == y
    decreases n
  {
    hide Xor, Twice, Top, POLYNOMIAL, ClockBit;
    if n > 0 {
      TwiceZero();
      FeedInjective(ClockBit(x, false), ClockBit(y, false), n - 1);
      XorKernel(ClockBit(x, false), ClockBit(y, false));
      ClockBitLinear(x, y);
      ClockBitKernel(Xor(x, y));
      XorKernel(x, y);
    }
  }

  function ShiftNibble(x: bv32): bv32 { x << 4 }

  lemma NibbleByDoubling(w: bv32)
    ensures ShiftNibble(w) == Twice(Twice(Twice(Twice(w))))
  {}

  lemma ByteByNibbles(w: bv32)
    ensures ShiftByte(w) == ShiftNibble(ShiftNibble(w))
  {}

  lemma DoubledFour(w: bv32)
    ensures Doubled(w, 4) == ShiftNibble(w)
  {
    hide Twice, ShiftNibble;
    NibbleByDoubling(w);
    DoubledSplit(w, 2, 2);
  }

  lemma DoubledEight(w: bv32)
    ensures Doubled(w, 8) == ShiftByte(w)
  {
    hide Twice, ShiftByte, ShiftNibble, Doubled;
    ByteByNibbles(w);
    DoubledSplit(w, 4, 4);
    DoubledFour(w);
    DoubledFour(ShiftNibble(w));
  }

  /** A register whose leading byte is clear shifts without feedback. */
  lemma FeedLow(r: bv32)
    ensures Feed(LowPart(r), 0, 8) == ShiftByte(LowPart(r))
  {
    DoubledEight(LowPart(r));
  }

  /** The recurrence of crc32MPEG: one table lookup per byte. */
  lemma TableStep(r: bv32, b: byte)
    ensures FeedByte(r, b) == Fold(r, TableEntry(Slot(r, b)))
  {
    hide Xor, Twice, Top, ClockBit, AtTop, Feed, Doubled, Fold, Slot, LowPart, ShiftByte;
    SplitInput(r, b);
    FoldSplits(r, TableEntry(Slot(r, b)));
    FeedLow(r);
    TopShiftsOut(b);
    TableStepXor(r, b, LowPart(r), AtTop(Slot(r, b)));
  }

  lemma TableStepXor(r: bv32, b: byte, low: bv32, index: bv32)
    requires Xor(r, AtTop(b)) == Xor(low, index) && ShiftByte(AtTop(b)) == 0
    ensures FeedByte(r, b) == Xor(Feed(low, 0, 8), Feed(index, 0, 8))
  {
    hide Xor, Twice, Top, ClockBit, AtTop, Feed, Doubled, ShiftByte;
    FeedAbsorbs(r, AtTop(b), 8);
    DoubledEight(AtTop(b));
    XorZero(FeedByte(r, b));
    FeedLinear(low, index, 8);
  }

  lemma SplitInput(r: bv32, b: byte)
    ensures Xor(r, AtTop(b)) == Xor(LowPart(r), AtTop(Slot(r, b)))
  {
    hide Xor, BitsAtTop, SlotBits, LowPart, ToBits, FromBits;
    SplitBits(r, ToBits(b));
    ByteOfBits(SlotBits(r, ToBits(b)));
  }

  lemma SplitBits(r: bv32, x: bv8)
    ensures Xor(r, BitsAtTop(x)) == Xor(LowPart(r), BitsAtTop(SlotBits(r, x)))
  {}

  lemma FoldSplits(r: bv32, entry: bv32)
    ensures Fold(r, entry) == Xor(ShiftByte(LowPart(r)), entry)
  {}

  lemma TopShiftsOut(b: byte)
    ensures ShiftByte(AtTop(b)) == 0
  {}

  // Error detection.

  lemma {:induction false} RegisterConcat(r: bv32, a: seq<byte>, b: seq<byte>)
    ensures Register(r, a + b) == Register(Register(r, a), b)
    decreases |a|
  {
    if a == [] {
      assert a + b == b;
    } else {
      assert (a + b)[1..] == a[1..] + b;
      RegisterConcat(FeedByte(r, a[0]), a[1..], b);
    }
  }

  lemma {:induction false} RegisterInjective(x: bv32, y: bv32, data: seq<byte>)
    requires Register(x, data) == Register(y, data)
    ensures x == y
    decreases |data|
  {
    hide Xor, Twice, Top, ClockBit, AtTop, Feed, Doubled;
    if data != [] {
      var w := AtTop(data[0]);
      RegisterInjective(FeedByte(x, data[0]), FeedByte(y, data[0]), data[1..]);
      FeedAbsorbs(x, w, 8);
      FeedAbsorbs(y, w, 8);
      FeedInjective(Xor(x, w), Xor(y, w), 8);
      XorCancel(x, y, w);
    }
  }

  lemma XorCancel(x: bv32, y: bv32, w: bv32)
    requires Xor(x, w) == Xor(y, w)
    ensures x == y
  {}

  /** Up to four bytes, left-aligned in a register word. */
  function Pack(w: seq<byte>): bv32
    requires |w| <= 4
  {
    var b := w + [0, 0, 0, 0];
    PackBits(ToBits(b[0]), ToBits(b[1]), ToBits(b[2]), ToBits(b[3]))
  }

  function PackBits(b0: bv8, b1: bv8, b2: bv8, b3: bv8): bv32 {
    ((b0 as bv32) << 24) | ((b1 as bv32) << 16) | ((b2 as bv32) << 8) | (b3 as bv32)
  }

  /** `n` input clocks depend on the n leading bits of the word only. */
  ghost predicate Agree(v: bv32, w: bv32, n: nat)
    decreases n
  {
    n == 0 || (Top(v) == Top(w) && Agree(Twice(v), Twice(w), n - 1))
  }

  lemma {:induction false} FeedAgrees(r: bv32, v: bv32, w: bv32, n: nat)
    requires Agree(v, w, n)
    ensures Feed(r, v, n) == Feed(r, w, n)
    decreases n
  {
    hide Xor, Twice, Top, ClockBit;
    if n > 0 {
      FeedAgrees(ClockBit(r, Top(v)), Twice(v), Twice(w), n - 1);
    }
  }

  lemma {:induction false} FeedSplit(r: bv32, w: bv32, m: nat, n: nat)
    ensures Feed(r, w, m + n) == Feed(Feed(r, w, m), Doubled(w, m), n)
    decreases m
  {
    hide Xor, Twice, Top, ClockBit;
    if m > 0 {
      FeedSplit(ClockBit(r, Top(w)), Twice(w), m - 1, n);
    }
  }

  function And(x: bv32, y: bv32): bv32 { x & y }

  /** The n leading bits of a mask are ones. */
  ghost predicate AllTop(mask: bv32, n: nat)
    decreases n
  {
    n == 0 || (Top(mask) && AllTop(Twice(mask), n - 1))
  }

  lemma AndBit(w: bv32, mask: bv32)
    ensures Top(mask) ==> Top(And(w, mask)) == Top(w)
    ensures Twice(And(w, mask)) == And(Twice(w), Twice(mask))
  {}

  /** A word agrees with itself under a mask as far as the mask's leading ones go. */
  lemma {:induction false} AgreeMasked(w: bv32, mask: bv32, n: nat)
    requires AllTop(mask, n)
    ensures Agree(w, And(w, mask), n)
    decreases n
  {
    hide And, Twice, Top;
    if n > 0 {
      AndBit(w, mask);
      AgreeMasked(Twice(w), Twice(mask), n - 1);
    }
  }

  lemma OneMore(mask: bv32, n: nat)
    requires n > 0 && Top(mask) && AllTop(Twice(mask), n - 1)
    ensures AllTop(mask, n)
  {}

  lemma EightOnes()
    ensures AllTop(0xFF00_0000, 8)
  {
    MaskBits();
    hide Twice, Top;
    OneMore(0x8000_0000, 1);
    OneMore(0xC000_0000, 2);
    OneMore(0xE000_0000, 3);
    OneMore(0xF000_0000, 4);
    OneMore(0xF800_0000, 5);
    OneMore(0xFC00_0000, 6);
    OneMore(0xFE00_0000, 7);
    OneMore(0xFF00_0000, 8);
  }

  lemma MaskBits()
    ensures Top(0x8000_0000) && Top(0xC000_0000) && Top(0xE000_0000) && Top(0xF000_0000)
    ensures Top(0xF800_0000) && Top(0xFC00_0000) && Top(0xFE00_0000) && Top(0xFF00_0000)
    ensures Twice(0xC000_0000) == 0x8000_0000 && Twice(0xE000_0000) == 0xC000_0000
    ensures Twice(0xF000_0000) == 0xE000_0000 && Twice(0xF800_0000) == 0xF000_0000
    ensures Twice(0xFC00_0000) == 0xF800_0000 && Twice(0xFE00_0000) == 0xFC00_0000
    ensures Twice(0xFF00_0000) == 0xFE00_0000
  {}

  lemma AgreeTop(w: bv32)
    ensures Agree(w, And(w, 0xFF00_0000), 8)
  {
    hide And, Twice, Top, AllTop, Agree;
    EightOnes();
    AgreeMasked(w, 0xFF00_0000, 8);
  }

  lemma PackSteps(w: seq<byte>)
    requires 0 < |w| <= 4
    ensures And(Pack(w), 0xFF00_0000) == AtTop(w[0])
    ensures ShiftByte(Pack(w)) == Pack(w[1..])
  {
    hide BitsAtTop, ShiftByte, PackBits, ToBits, And;
    var b, c := w + [0, 0, 0, 0], w[1..] + [0, 0, 0, 0];
    assert b[1] == c[0] && b[2] == c[1] && b[3] == c[2] && c[3] == 0;
    PackBitsSteps(ToBits(b[0]), ToBits(b[1]), ToBits(b[2]), ToBits(b[3]));
    ZeroBits();
  }

  lemma ZeroBits()
    ensures ToBits(0) == 0
  {}

  lemma PackBitsSteps(b0: bv8, b1: bv8, b2: bv8, b3: bv8)
    ensures And(PackBits(b0, b1, b2, b3), 0xFF00_0000) == BitsAtTop(b0)
    ensures ShiftByte(PackBits(b0, b1, b2, b3)) == PackBits(b1, b2, b3, 0)
  {}

  lemma PackEmpty()
    ensures Pack([]) == 0
  {}

  /** Running the register over at most four bytes is feeding it their packed word. */
  lemma {:induction false} RegisterPacked(r: bv32, w: seq<byte>)
    requires |w| <= 4
    ensures Register(r, w) == Feed(r, Pack(w), 8 * |w|)
    decreases |w|
  {
    hide Xor, Twice, Top, ClockBit, AtTop, Pack, ShiftByte;
    if w != [] {
      PackSteps(w);
      AgreeTop(Pack(w));
      FeedAgrees(r, Pack(w), AtTop(w[0]), 8);
      FeedSplit(r, Pack(w), 8, 8 * (|w| - 1));
      DoubledEight(Pack(w));
      RegisterPacked(FeedByte(r, w[0]), w[1..]);
    }
  }

  lemma PackInjective(v: seq<byte>, w: seq<byte>)
    requires |v| == |w| <= 4 && Pack(v) == Pack(w)
    ensures v == w
  {
    hide PackBits, ToBits, FromBits;
    var b, c := v + [0, 0, 0, 0], w + [0, 0, 0, 0];
    PackBitsInjective(ToBits(b[0]), ToBits(b[1]), ToBits(b[2]), ToBits(b[3]),
                      ToBits(c[0]), ToBits(c[1]), ToBits(c[2]), ToBits(c[3]));
    forall i | 0 <= i < |v|
      ensures v[i] == w[i]
    {
      assert v[i] == b[i] && w[i] == c[i];
      BitsOfByte(b[i]);
      BitsOfByte(c[i]);
    }
  }

  lemma PackBitsInjective(b0: bv8, b1: bv8, b2: bv8, b3: bv8, c0: bv8, c1: bv8, c2: bv8, c3: bv8)
    requires PackBits(b0, b1, b2, b3) == PackBits(c0, c1, c2, c3)
    ensures b0 == c0 && b1 == c1 && b2 == c2 && b3 == c3
  {}

  lemma {:induction false} PackShiftsOut(w: seq<byte>)
    requires |w| <= 4
    ensures Doubled(Pack(w), 8 * |w|) == 0
    decreases |w|
  {
    hide Xor, Twice, Top, ClockBit, AtTop, Pack, ShiftByte;
    if w == [] {
      PackEmpty();
    } else {
      PackSteps(w);
      DoubledSplit(Pack(w), 8, 8 * (|w| - 1));
      DoubledEight(Pack(w));
      PackShiftsOut(w[1..]);
    }
  }

  lemma {:induction false} DoubledSplit(w: bv32, m: nat, n: nat)
    ensures Doubled(w, m + n) == Doubled(Doubled(w, m), n)
    decreases m
  {
    hide Twice;
    if m > 0 {
      DoubledSplit(Twice(w), m - 1, n);
    }
  }

  /** A window of at most four bytes changes the register exactly as its packed word, xored in. */
  lemma WindowAbsorbed(r: bv32, w: seq<byte>)
    requires |w| <= 4
    ensures Register(r, w) == Feed(Xor(r, Pack(w)), 0, 8 * |w|)
  {
    hide Xor, Feed, Pack, Doubled, Register;
    RegisterPacked(r, w);
    FeedAbsorbs(r, Pack(w), 8 * |w|);
    PackShiftsOut(w);
    XorZero(Register(r, w));
  }

  /** Equal-length strings that differ only inside four consecutive bytes have different CRCs. */
  lemma BurstDetected(seed: bv32, before: seq<byte>, v: seq<byte>, w: seq<byte>, after: seq<byte>)
    requires |v| == |w| <= 4 && v != w
    ensures Register(seed, before + v + after) != Register(seed, before + w + after)
  {
    hide Xor, Feed, Pack, Doubled, Register;
    if Register(seed, before + v + after) == Register(seed, before + w + after) {
      var r := Register(seed, before);
      RegisterConcat(seed, before + v, after);
      RegisterConcat(seed, before + w, after);
      RegisterInjective(Register(seed, before + v), Register(seed, before + w), after);
      RegisterConcat(seed, before, v);
      RegisterConcat(seed, before, w);
      WindowAbsorbed(r, v);
      WindowAbsorbed(r, w);
      FeedInjective(Xor(r, Pack(v)), Xor(r, Pack(w)), 8 * |v|);
      XorComm(r, Pack(v));
      XorComm(r, Pack(w));
      XorCancel(Pack(v), Pack(w), r);
      PackInjective(v, w);
    }
  }

  /** A string followed by its own CRC, and no other four bytes, drives the register to zero. */
  lemma ZeroResidue(seed: bv32, data: seq<byte>, check: seq<byte>)
    requires |check| == 4
    ensures Register(seed, data + check) == 0 <==> Pack(check) == Register(seed, data)
  {
    hide Xor, Feed, Pack, Doubled, Register;
    var r := Register(seed, data);
    RegisterConcat(seed, data, check);
    WindowAbsorbed(r, check);
    FeedZero(32);
    if Register(seed, data + check) == 0 {
      FeedInjective(Xor(r, Pack(check)), 0, 32);
    }
    XorKernel(r, Pack(check));
  }

  lemma {:induction false} FeedZero(n: nat)
    ensures Feed(0, 0, n) == 0
  {
    if n > 0 {
      assert ClockBit(0, false) == 0 && Twice(0) == 0;
      FeedZero(n - 1);
    }
  }

  /** The i-th byte of a register value, 0 the least significant. */
  function Octet(crc: bv32, i: nat): bv8
    requires i < 4
  {
    if i == 3 then (crc >> 24) as bv8
    else if i == 2 then ((crc >> 16) & 0xFF) as bv8
    else if i == 1 then ((crc >> 8) & 0xFF) as bv8
    else (crc & 0xFF) as bv8
  }

  /** A register value as four bytes, most significant first. */
  function CrcBytes(crc: bv32): (s: seq<byte>)
    ensures |s| == 4
  {
    [FromBits(Octet(crc, 3)), FromBits(Octet(crc, 2)), FromBits(Octet(crc, 1)), FromBits(Octet(crc, 0))]
  }

  lemma PackOfFour(w: seq<byte>)
    requires |w| == 4
    ensures Pack(w) == PackBits(ToBits(w[0]), ToBits(w[1]), ToBits(w[2]), ToBits(w[3]))
  {
    hide ToBits, PackBits;
  }

  lemma CrcBytesPack(crc: bv32)
    ensures Pack(CrcBytes(crc)) == crc
  {
    hide FromBits, ToBits, PackBits, Octet, Pack;
    PackOfFour(CrcBytes(crc));
    ByteOfBits(Octet(crc, 3));
    ByteOfBits(Octet(crc, 2));
    ByteOfBits(Octet(crc, 1));
    ByteOfBits(Octet(crc, 0));
    PackedAgain(crc);
  }

  lemma PackedAgain(crc: bv32)
    ensures PackBits(Octet(crc, 3), Octet(crc, 2), Octet(crc, 1), Octet(crc, 0)) == crc
  {}

  lemma PackCrcBytes(w: seq<byte>)
    requires |w| == 4
    ensures CrcBytes(Pack(w)) == w
  {
    hide FromBits, ToBits, PackBits, Octet, Pack;
    PackOfFour(w);
    PackedParts(ToBits(w[0]), ToBits(w[1]), ToBits(w[2]), ToBits(w[3]));
    BitsOfByte(w[0]);
    BitsOfByte(w[1]);
    BitsOfByte(w[2]);
    BitsOfByte(w[3]);
  }

  lemma PackedParts(b0: bv8, b1: bv8, b2: bv8, b3: bv8)
    ensures var crc := PackBits(b0, b1, b2, b3);
            Octet(crc, 3) == b0 && Octet(crc, 2) == b1 && Octet(crc, 1) == b2 && Octet(crc, 0) == b3
  {}
}
