/** Big-endian integers as byte sequences, the form every multi-byte field of a mirror frame takes. */
module Bytes {

  type Byte = b: int | 0 <= b < 0x100

  const MAX16: nat := 0x1_0000
  const MAX32: nat := 0x1_0000_0000
  const MAX64: nat := 0x1_0000_0000_0000_0000

  function Pow256(n: nat): (p: nat)
    ensures p > 0
  {
    if n == 0 then 1 else 0x100 * Pow256(n - 1)
  }

  // A Go conversion to an unsigned type keeps the low-order bits, and so does writing to a fixed width.
  function Put(v: int, width: nat): (bs: seq<Byte>)
    ensures |bs| == width
    decreases width, v
  {
    if width == 0 then [] else Put(v / 0x100, width - 1) + [v % 0x100]
  }

  function Get(bs: seq<Byte>): (v: nat)
    ensures v < Pow256(|bs|)
  {
    if bs == [] then 0 else
    var high: nat := Get(bs[..|bs| - 1]);
    high * 0x100 + bs[|bs| - 1]
  }

  function PutU16(v: int): (bs: seq<Byte>) ensures |bs| == 2 { Put(v, 2) }
  function PutU32(v: int): (bs: seq<Byte>) ensures |bs| == 4 { Put(v, 4) }
  function PutU64(v: int): (bs: seq<Byte>) ensures |bs| == 8 { Put(v, 8) }

  function GetU16(bs: seq<Byte>): (v: nat) requires |bs| == 2 ensures v < MAX16 { Get(bs) }
  function GetU32(bs: seq<Byte>): (v: nat) requires |bs| == 4 ensures v < MAX32 { Get(bs) }
  function GetU64(bs: seq<Byte>): (v: nat) requires |bs| == 8 ensures v < MAX64 { Get(bs) }

  // Dropping the last base-256 digit and putting it back.
  lemma LastDigit(v: int, p: nat)
    requires p > 0
    ensures v / 0x100 % p * 0x100 + v % 0x100 == v % (0x100 * p)
  {
    var low := v / 0x100 % p * 0x100 + v % 0x100;
    var q := v / 0x100 / p;
    assert v == q * (0x100 * p) + low by {
      assert v / 0x100 == q * p + v / 0x100 % p;
    }
    RemainderIsUnique(v, 0x100 * p, q, low);
  }

  lemma SmallMultiple(d: int, m: nat)
    requires 0 < d * m + m && d * m < m
    ensures d == 0
  {
  }

  lemma RemainderIsUnique(v: int, m: nat, q: int, r: int)
    requires m > 0 && v == q * m + r && 0 <= r < m
    ensures v % m == r
  {
    assert (v / m - q) * m == r - v % m;
    SmallMultiple(v / m - q, m);
  }

  /** Writing any integer to a width and reading it back yields its low-order bits. */
  lemma {:induction false} RoundTrip(v: int, width: nat)
    ensures Get(Put(v, width)) == v % Pow256(width)
    decreases width
  {
    if width > 0 {
      RoundTrip(v / 0x100, width - 1);
      LastDigit(v, Pow256(width - 1));
      assert Put(v, width)[..width - 1] == Put(v / 0x100, width - 1);
    }
  }

  function TwoBytes(a: int, b: int): int {
    0x100 * a + b
  }

  function FourBytes(a: int, b: int, c: int, d: int): int {
    0x100_0000 * a + 0x1_0000 * b + 0x100 * c + d
  }

  /** The most significant byte comes first. */
  lemma BigEndian(bs: seq<Byte>)
    ensures |bs| == 2 ==> Get(bs) == TwoBytes(bs[0], bs[1])
    ensures |bs| == 4 ==> Get(bs) == FourBytes(bs[0], bs[1], bs[2], bs[3])
  {
    if |bs| == 2 { GetTwo(bs[0], bs[1]); assert bs == [bs[0], bs[1]]; }
    if |bs| == 4 {
      GetTwo(bs[0], bs[1]);
      assert bs[..3][..2] == [bs[0], bs[1]];
    }
  }

  lemma GetTwo(a: Byte, b: Byte)
    ensures Get([a, b]) == TwoBytes(a, b)
  {
    assert [a, b][..1] == [a] && [a][..0] == [];
    assert Get([a]) == a;
  }

  lemma U16RoundTrip(v: int)
    ensures GetU16(PutU16(v)) == v % 0x1_0000
  {
    RoundTrip(v, 2);
  }

  lemma U32RoundTrip(v: int)
    ensures GetU32(PutU32(v)) == v % 0x1_0000_0000
  {
    RoundTrip(v, 4);
  }

  lemma U64RoundTrip(v: int)
    ensures GetU64(PutU64(v)) == v % 0x1_0000_0000_0000_0000
  {
    RoundTrip(v, 8);
  }

  lemma Fits16(v: nat)
    requires v < MAX16
    ensures GetU16(PutU16(v)) == v
  {
    U16RoundTrip(v);
  }

  lemma Fits32(v: nat)
    requires v < MAX32
    ensures GetU32(PutU32(v)) == v
  {
    U32RoundTrip(v);
  }

  lemma Fits64(v: nat)
    requires v < MAX64
    ensures GetU64(PutU64(v)) == v
  {
    U64RoundTrip(v);
  }
}
