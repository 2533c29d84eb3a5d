/** 64-bit machine integers. Dafny checks every value given one of these types, so a
    method that verifies on them never wraps. */
module FixedWidth {
  import opened Octets
  import opened Bits
  import opened Cbor
  import Merkle

  newtype int64 = x: int | -0x8000_0000_0000_0000 <= x < 0x8000_0000_0000_0000

  newtype uint64 = x: int | 0 <= x < 0x1_0000_0000_0000_0000

  /** Neither language has a slice longer than the largest signed word. */
  type Slice<T> = s: seq<T> | |s| < TWO63 witness []

  lemma Powers()
    ensures Pow2(63) == TWO63 && Pow2(64) == TWO64
  {
    Merkle.MaxTreeSizeIsPow2();
    Doubling(62);
    Doubling(63);
  }

  lemma Octet64(b: Bytes)
    requires |b| <= 8
    ensures FromBigEndian(b) < TWO64
  {
    hide FromBigEndian;
    FromBigEndianRoundTrip(b);
    assert Pow256(8) == TWO64;
    Pow256Monotone(|b|, 8);
  }

  lemma {:induction false} Pow256Monotone(a: nat, b: nat)
    requires a <= b
    ensures Pow256(a) <= Pow256(b)
    decreases b
  {
    if a < b { Pow256Monotone(a, b - 1); }
  }

  /** Reading one more octet, most significant first. */
  lemma NextOctet(b: Bytes, k: nat)
    requires k < |b| <= 8
    ensures FromBigEndian(b[..k + 1]) == 256 * FromBigEndian(b[..k]) + b[k] < TWO64
  {
    assert b[..k + 1][..k] == b[..k];
    Octet64(b[..k + 1]);
  }
}
