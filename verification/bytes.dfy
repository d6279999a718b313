/** Byte sequences, big-endian integers and the int64/uint64 reinterpretation
    used by package encoding/binary and by Go's integer conversions. */
module Bytes {

  type byte = x: int | 0 <= x < 256
  type Bytes = seq<byte>

  const TwoTo63: int := 0x8000_0000_0000_0000
  const TwoTo64: int := 0x1_0000_0000_0000_0000

  type uint64 = x: int | 0 <= x < 0x1_0000_0000_0000_0000
  type int64 = x: int | IsInt64(x)

  predicate IsInt64(x: int) {
    -TwoTo63 <= x < TwoTo63
  }

  /** 256 to the power n: the number of values n bytes can hold. */
  function Pow256(n: nat): (p: nat)
  {
    if n == 0 then 1 else 256 * Pow256(n - 1)
  }

  lemma Pow256Eight()
    ensures Pow256(8) == TwoTo64
  {
  }

  /** The unsigned value of b read most significant byte first. */
  function BeValue(b: Bytes): (v: nat)
    ensures v < Pow256(|b|)
  {
    if |b| == 0 then 0 else BeValue(b[..|b| - 1]) * 256 + b[|b| - 1]
  }

  /** The n-byte big-endian representation of v. */
  function BeBytes(v: nat, n: nat): (b: Bytes)
    requires v < Pow256(n)
    ensures |b| == n
  {
    if n == 0 then [] else BeBytes(v / 256, n - 1) + [v % 256]
  }

  /** Reading back a big-endian representation gives the value written. */
  lemma {:induction false} BeValueOfBeBytes(v: nat, n: nat)
    requires v < Pow256(n)
    ensures BeValue(BeBytes(v, n)) == v
  {
    if n > 0 {
      var b := BeBytes(v, n);
      assert b[..n - 1] == BeBytes(v / 256, n - 1);
      BeValueOfBeBytes(v / 256, n - 1);
    }
  }

  /** Writing out the value of a byte sequence at its own width gives the sequence back. */
  lemma {:induction false} BeBytesOfBeValue(b: Bytes)
    ensures BeBytes(BeValue(b), |b|) == b
  {
    if |b| > 0 {
      var n := |b|;
      var prefix := b[..n - 1];
      BeBytesOfBeValue(prefix);
      assert BeValue(b) / 256 == BeValue(prefix);
      assert BeValue(b) % 256 == b[n - 1];
      assert b == prefix + [b[n - 1]];
    }
  }

  /** binary.BigEndian.Uint64: the first eight bytes of b as a big-endian unsigned value. */
  function Uint64(b: Bytes): (v: uint64)
    requires |b| >= 8
    ensures v == BeValue(b[..8])
  {
    Pow256Eight();
    BeValue(b[..8])
  }

  /** binary.BigEndian.PutUint64 into a fresh eight-byte buffer. */
  function PutUint64(v: uint64): (b: Bytes)
    ensures |b| == 8
  {
    Pow256Eight();
    BeBytes(v, 8)
  }

  /** Encoding then decoding a 64-bit value is the identity, and so is
      decoding then re-encoding the first eight bytes of a buffer. */
  lemma Uint64RoundTrip(v: uint64, b: Bytes)
    requires |b| >= 8
    ensures Uint64(PutUint64(v)) == v
    ensures PutUint64(Uint64(b)) == b[..8]
  {
    Pow256Eight();
    BeValueOfBeBytes(v, 8);
    assert PutUint64(v)[..8] == PutUint64(v);
    BeBytesOfBeValue(b[..8]);
  }

  /** Go's uint64(x): the bit pattern of x read as an unsigned value. */
  function AsUint64(x: int): (u: uint64)
    ensures (u - x) % TwoTo64 == 0
    ensures 0 <= x < TwoTo64 ==> u == x
  {
    x % TwoTo64
  }

  /** Go's int64(u): the bit pattern of u read in two's complement. */
  function AsInt64(u: uint64): (x: int64)
    ensures (u - x) % TwoTo64 == 0
    ensures x < 0 <==> u >= TwoTo63
  {
    if u < TwoTo63 then u else u - TwoTo64
  }

  /** The two conversions are inverse on their ranges. */
  lemma Int64Reinterpretation(x: int, u: uint64)
    ensures IsInt64(x) ==> AsInt64(AsUint64(x)) == x
    ensures AsUint64(AsInt64(u)) == u
  {
  }
}
