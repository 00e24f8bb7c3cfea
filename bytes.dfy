/** Bytes and the fixed-width integers that the archive header stores. */
module Bytes {

  newtype byte = x: int | 0 <= x < 256

  const TWO_32: int := 0x1_0000_0000
  const TWO_63: int := 0x8000_0000_0000_0000
  const TWO_64: int := 0x1_0000_0000_0000_0000

  /** An unsigned 32-bit value (mode_t, uid_t, gid_t). */
  type u32 = x: int | 0 <= x < TWO_32

  /** A signed 64-bit value (off_t, time_t, long). */
  type i64 = x: int | -TWO_63 <= x < TWO_63

  function Min(a: int, b: int): (r: int)
    ensures r <= a && r <= b && (r == a || r == b)
  {
    if a <= b then a else b
  }

  function Pow256(n: nat): (r: nat)
    ensures r > 0
  {
    if n == 0 then 1 else 256 * Pow256(n - 1)
  }

  lemma Pow256Values()
    ensures Pow256(4) == TWO_32
    ensures Pow256(8) == TWO_64
  {
    assert Pow256(2) == 0x1_0000;
    assert Pow256(4) == 0x1_0000 * 0x1_0000;
    assert Pow256(8) == Pow256(4) * Pow256(4) by {
      assert Pow256(8) == 256 * 256 * 256 * 256 * Pow256(4);
    }
  }

  /** The n-byte little-endian representation of v. */
  function ToLE(v: nat, n: nat): (r: seq<byte>)
    ensures |r| == n
  {
    if n == 0 then []
    else [(v % 256) as byte] + ToLE(v / 256, n - 1)
  }

  /** The value of a little-endian byte string; it always fits the string's width. */
  function FromLE(s: seq<byte>): nat
  {
    if s == [] then 0 else s[0] as int + 256 * FromLE(s[1..])
  }

  lemma {:induction false} FromLEToLE(v: nat, n: nat)
    requires v < Pow256(n)
    ensures FromLE(ToLE(v, n)) == v
  {
    if n > 0 {
      var s := ToLE(v, n);
      assert s[1..] == ToLE(v / 256, n - 1);
      FromLEToLE(v / 256, n - 1);
    }
  }

  function EncodeU32(v: u32): (r: seq<byte>)
    ensures |r| == 4
  {
    ToLE(v, 4)
  }

  /** The value of four bytes; it is below 2^32 (see DecodeEncodeU32), the remainder only says so to the type. */
  function DecodeU32(s: seq<byte>): u32
    requires |s| == 4
  {
    FromLE(s) % TWO_32
  }

  /** Two's complement, 8 bytes little-endian. */
  function EncodeI64(v: i64): (r: seq<byte>)
    ensures |r| == 8
  {
    ToLE(if v >= 0 then v else v + TWO_64, 8)
  }

  function DecodeI64(s: seq<byte>): i64
    requires |s| == 8
  {
    var u := FromLE(s) % TWO_64;
    if u < TWO_63 then u else u - TWO_64
  }

  lemma DecodeEncodeU32(v: u32)
    ensures DecodeU32(EncodeU32(v)) == v
  {
    Pow256Values();
    FromLEToLE(v, 4);
  }

  lemma DecodeEncodeI64(v: i64)
    ensures DecodeI64(EncodeI64(v)) == v
  {
    Pow256Values();
    FromLEToLE(if v >= 0 then v else v + TWO_64, 8);
  }
}
