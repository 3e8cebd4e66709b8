/** Byte-level helpers shared by the MACsec codec: the byte type, the
    zeroed buffer of `memset`, the in-place copy of `memcpy`, and the
    big-endian 32-bit encoding behind `htobe32`. */
module Bytes {

  /** An octet, as `uint8_t`. */
  type byte = bv8

  /** `a` and `b` have the same length and agree on every index outside
      the half-open range [lo, hi). */
  predicate SameOutside(a: seq<byte>, b: seq<byte>, lo: int, hi: int) {
    && |a| == |b|
    && forall i | 0 <= i < |a| && !(lo <= i < hi) :: a[i] == b[i]
  }

  /** A buffer of `n` zero bytes, as produced by `memset(p, 0, n)`. */
  function Zeros(n: nat): (r: seq<byte>)
    ensures |r| == n
    ensures forall i | 0 <= i < n :: r[i] == 0
  {
    seq(n, _ => 0)
  }

  /** `memcpy(buf + at, src, |src|)`: the bytes of `src` land at `at`,
      every other byte of `buf` is kept. */
  function Overwrite(buf: seq<byte>, at: nat, src: seq<byte>): (r: seq<byte>)
    requires at + |src| <= |buf|
    ensures |r| == |buf|
    ensures r[at..at + |src|] == src
    ensures SameOutside(buf, r, at, at + |src|)
  {
    buf[..at] + src + buf[at + |src|..]
  }

  /** The four wire bytes of a 32-bit value stored in network order,
      most significant byte first. */
  function BigEndian32(x: bv32): (r: seq<byte>)
    ensures |r| == 4
    ensures r[0] == (x >> 24) as byte
    ensures r[3] == (x & 0xff) as byte
  {
    [(x >> 24) as byte, ((x >> 16) & 0xff) as byte, ((x >> 8) & 0xff) as byte, (x & 0xff) as byte]
  }

  /** The 32-bit value whose network-order wire bytes are `b`. */
  function FromBigEndian32(b: seq<byte>): (x: bv32)
    requires |b| == 4
    ensures (x >> 24) as byte == b[0]
    ensures (x & 0xff) as byte == b[3]
  {
    ((b[0] as bv32) << 24) | ((b[1] as bv32) << 16) | ((b[2] as bv32) << 8) | (b[3] as bv32)
  }

  /** Decoding the encoding of any 32-bit value gives it back. */
  lemma BigEndian32RoundTrip(x: bv32)
    ensures FromBigEndian32(BigEndian32(x)) == x
  {
  }

  /** Encoding the decoded value of any four wire bytes gives them back,
      so the 32-bit value and its wire form determine each other. */
  lemma FromBigEndian32RoundTrip(b: seq<byte>)
    requires |b| == 4
    ensures BigEndian32(FromBigEndian32(b)) == b
  {
    var r := BigEndian32(FromBigEndian32(b));
    assert r[1] == b[1] && r[2] == b[2];
  }

  /** Two different values never share a wire form. */
  lemma BigEndian32Injective(x: bv32, y: bv32)
    ensures BigEndian32(x) == BigEndian32(y) <==> x == y
  {
    if BigEndian32(x) == BigEndian32(y) {
      BigEndian32RoundTrip(x);
      BigEndian32RoundTrip(y);
    }
  }
}
