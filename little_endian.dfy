/**
 * Little-endian integer fields as `struct.unpack` reads them under a "<"
 * format: standard sizes, least significant byte first, two's complement for
 * the signed codes.
 */
module LittleEndian {
  import opened Bytes

  function Pow256(n: nat): (r: nat)
    ensures r >= 1
  {
    if n == 0 then 1 else 256 * Pow256(n - 1)
  }

  /** Half the range of an `n`-byte field: the bound of its signed values. */
  function Half(n: nat): (h: int)
    requires n > 0
    ensures 2 * h == Pow256(n)
  {
    128 * Pow256(n - 1)
  }

  /** Unsigned value of `bs`, least significant byte first. */
  function Unsigned(bs: seq<Byte>): (r: nat)
    ensures r < Pow256(|bs|)
    decreases |bs|
  {
    if bs == [] then 0 else bs[0] + 256 * Unsigned(bs[1..])
  }

  /** Two's-complement value of `bs`, least significant byte first. */
  function Signed(bs: seq<Byte>): (r: int)
    requires |bs| > 0
    ensures -Half(|bs|) <= r < Half(|bs|)
  {
    var u := Unsigned(bs);
    if u < Half(|bs|) then u else u - Pow256(|bs|)
  }

  /** The `n` little-endian bytes of `v`: the inverse of Unsigned. */
  function Encode(n: nat, v: nat): (bs: seq<Byte>)
    requires v < Pow256(n)
    ensures |bs| == n
  {
    if n == 0 then [] else [v % 256] + Encode(n - 1, v / 256)
  }

  /** The `n` little-endian two's-complement bytes of `v`: the inverse of Signed. */
  function EncodeSigned(n: nat, v: int): (bs: seq<Byte>)
    requires n > 0 && -Half(n) <= v < Half(n)
    ensures |bs| == n
  {
    Encode(n, if v < 0 then v + Pow256(n) else v)
  }

  lemma {:induction false} UnsignedEncode(n: nat, v: nat)
    requires v < Pow256(n)
    ensures Unsigned(Encode(n, v)) == v
  {
    if n > 0 {
      UnsignedEncode(n - 1, v / 256);
      assert Encode(n, v)[1..] == Encode(n - 1, v / 256);
    }
  }

  lemma {:induction false} EncodeUnsigned(bs: seq<Byte>)
    ensures Encode(|bs|, Unsigned(bs)) == bs
    decreases |bs|
  {
    if bs != [] {
      var u := Unsigned(bs[1..]);
      assert (bs[0] + 256 * u) % 256 == bs[0];
      assert (bs[0] + 256 * u) / 256 == u;
      EncodeUnsigned(bs[1..]);
    }
  }

  lemma SignedEncode(n: nat, v: int)
    requires n > 0 && -Half(n) <= v < Half(n)
    ensures Signed(EncodeSigned(n, v)) == v
  {
    UnsignedEncode(n, if v < 0 then v + Pow256(n) else v);
  }

  lemma EncodeSignedOf(bs: seq<Byte>)
    requires |bs| > 0
    ensures EncodeSigned(|bs|, Signed(bs)) == bs
  {
    EncodeUnsigned(bs);
  }
}
