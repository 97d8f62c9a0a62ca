/** Bytes as numbers and as bit patterns. */
module Bits {
  newtype byte = x: int | 0 <= x < 256

  function Nibble(n: byte): bv8 { n as bv8 }

  function NibbleValue(x: bv8): byte { x as byte }

  /** The eight bits of a byte, for the operations that need them. */
  function ToBits(b: byte): bv8 { Join(Nibble(b / 16), Nibble(b % 16)) }

  function FromBits(x: bv8): byte
  {
    NibbleRange(x >> 4);
    NibbleRange(x & 0x0F);
    NibbleValue(x >> 4) * 16 + NibbleValue(x & 0x0F)
  }

  function Join(high: bv8, low: bv8): bv8 { (high << 4) | low }

  lemma NibbleRange(x: bv8)
    requires x < 16
    ensures NibbleValue(x) < 16 && Nibble(NibbleValue(x)) == x
  {}

  lemma NibbleOfValue(n: byte)
    requires n < 16
    ensures Nibble(n) < 16 && NibbleValue(Nibble(n)) == n
  {}

  lemma JoinParts(high: bv8, low: bv8)
    requires high < 16 && low < 16
    ensures Join(high, low) >> 4 == high && Join(high, low) & 0x0F == low
  {}

  lemma PartsJoin(x: bv8)
    ensures Join(x >> 4, x & 0x0F) == x
  {}

  lemma BitsOfByte(b: byte)
    ensures FromBits(ToBits(b)) == b
  {
    hide Nibble, NibbleValue, Join;
    NibbleOfValue(b / 16);
    NibbleOfValue(b % 16);
    JoinParts(Nibble(b / 16), Nibble(b % 16));
  }

  lemma ByteOfBits(x: bv8)
    ensures ToBits(FromBits(x)) == x
  {
    hide Nibble, NibbleValue, Join;
    var high, low := x >> 4, x & 0x0F;
    NibbleRange(high);
    NibbleRange(low);
    PartsJoin(x);
    ValueParts(NibbleValue(high), NibbleValue(low));
  }

  lemma ValueParts(high: byte, low: byte)
    requires high < 16 && low < 16
    ensures (high * 16 + low) / 16 == high && (high * 16 + low) % 16 == low
  {}
}

/** Byte strings and the fixed-width integer fields that the containers are made of. */
module Bytes {
  import opened Bits

  const INT64_LIMIT: int := 0x8000_0000_0000_0000
  const UINT64_LIMIT: int := 0x1_0000_0000_0000_0000

  type uint16 = x: int | 0 <= x < 0x1_0000

  const UINT32_LIMIT: int := 0x1_0000_0000

  type uint32 = x: int | 0 <= x < UINT32_LIMIT

  type uint64 = x: int | 0 <= x < UINT64_LIMIT

  /** A Go int64. */
  type int64 = x: int | -INT64_LIMIT <= x < INT64_LIMIT

  /** Two's-complement wrap-around of an int64 result. */
  function Wrap64(x: int): (r: int64)
    ensures (x - r) % UINT64_LIMIT == 0
    ensures -INT64_LIMIT <= x < INT64_LIMIT ==> r == x
  {
    (x + INT64_LIMIT) % UINT64_LIMIT - INT64_LIMIT
  }

  /** Go's byte(x): the low eight bits of an integer. */
  function LowByte(x: int): byte {
    (x % 256) as byte
  }

  datatype Result<+T, +E> = Ok(value: T) | Err(error: E)

  datatype Option<+T> = None | Some(value: T)

  function Flatten<T>(parts: seq<seq<T>>): seq<T> {
    if parts == [] then [] else parts[0] + Flatten(parts[1..])
  }

  lemma {:induction false} FlattenAppend<T>(a: seq<seq<T>>, b: seq<seq<T>>)
    ensures Flatten(a + b) == Flatten(a) + Flatten(b)
  {
    if a == [] {
      assert a + b == b;
    } else {
      assert (a + b)[1..] == a[1..] + b;
      FlattenAppend(a[1..], b);
    }
  }

  lemma Cut<T>(s: seq<T>, i: nat, j: nat, k: nat)
    requires i <= j <= k <= |s|
    ensures s[i..k] == s[i..j] + s[j..k]
  {}

  lemma ConcatAssoc<T>(a: seq<T>, b: seq<T>, c: seq<T>)
    ensures (a + b) + c == a + (b + c)
  {}

  /** Where five parts are found in their concatenation. */
  lemma Pieces<T>(a: seq<T>, b: seq<T>, c: seq<T>, d: seq<T>, e: seq<T>)
    ensures var p := a + b + c + d + e;
            var i, j, k, l := |a|, |a + b|, |a + b + c|, |a + b + c + d|;
            p[..i] == a && p[i..j] == b && p[j..k] == c && p[k..l] == d && p[l..] == e
  {
    var p := a + b + c + d + e;
    assert p[..|a + b + c + d|] == a + b + c + d;
    assert p[..|a + b + c|] == a + b + c;
    assert p[..|a + b|] == a + b;
  }
}
