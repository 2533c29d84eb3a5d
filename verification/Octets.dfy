/** Octet strings, digests and the abstract hash function. */
module Octets {

  type Byte = b: int | 0 <= b < 256

  type Bytes = seq<Byte>

  type Digest = d: Bytes | |d| == 32 witness seq(32, _ => 0)

  /** SHA-256 is an arbitrary total function; no property of it is assumed. */
  type Hash = Bytes -> Digest

  predicate AllDigests(nodes: seq<Bytes>) {
    forall i | 0 <= i < |nodes| :: |nodes[i]| == 32
  }

  datatype Option<+T> = None | Some(value: T)

  /** No two different members of `inputs` have the same digest. Every soundness
      theorem takes this for the finite set of inputs that the honest tree and
      the checked run feed to the hash, so its negation is a concrete collision. */
  ghost predicate CollisionFree(h: Hash, inputs: set<Bytes>) {
    forall x, y {:trigger Among(inputs, x, y)} | Among(inputs, x, y) && h(x) == h(y) :: x == y
  }

  ghost predicate Among(inputs: set<Bytes>, x: Bytes, y: Bytes) {
    x in inputs && y in inputs
  }

  lemma NoCollision(h: Hash, inputs: set<Bytes>, x: Bytes, y: Bytes)
    requires CollisionFree(h, inputs)
    requires x in inputs && y in inputs && h(x) == h(y)
    ensures x == y
  {
    assert Among(inputs, x, y);
  }

  /** Where the assumption fails there is a collision to show. */
  lemma CollisionOf(h: Hash, inputs: set<Bytes>) returns (x: Bytes, y: Bytes)
    requires !CollisionFree(h, inputs)
    ensures x in inputs && y in inputs && x != y && h(x) == h(y)
  {
    x, y :| Among(inputs, x, y) && h(x) == h(y) && x != y;
  }

  function Pow256(width: nat): (p: nat)
    ensures p > 0
  {
    if width == 0 then 1 else 256 * Pow256(width - 1)
  }

  /** The low `width` octets of n, most significant first. */
  function BigEndian(n: nat, width: nat): (b: Bytes)
    ensures |b| == width
  {
    if width == 0 then [] else BigEndian(n / 256, width - 1) + [n % 256]
  }

  function FromBigEndian(b: Bytes): nat {
    if b == [] then 0 else 256 * FromBigEndian(b[..|b| - 1]) + b[|b| - 1]
  }

  lemma {:induction false} BigEndianRoundTrip(n: nat, width: nat)
    requires n < Pow256(width)
    ensures FromBigEndian(BigEndian(n, width)) == n
  {
    if width > 0 {
      BigEndianRoundTrip(n / 256, width - 1);
      var b := BigEndian(n, width);
      assert b[..|b| - 1] == BigEndian(n / 256, width - 1);
    }
  }

  lemma BigEndianStep(n: nat, width: nat)
    ensures BigEndian(n, width + 1) == BigEndian(n / 0x100, width) + [n % 0x100]
  {}

  lemma {:induction false} BigEndianZero(width: nat)
    ensures BigEndian(0, width) == seq(width, _ => 0)
  {
    hide BigEndian;
    if width > 0 {
      BigEndianStep(0, width - 1);
      BigEndianZero(width - 1);
    } else {
      assert |BigEndian(0, 0)| == 0;
    }
  }

  lemma {:induction false} FromBigEndianRoundTrip(b: Bytes)
    ensures FromBigEndian(b) < Pow256(|b|)
    ensures BigEndian(FromBigEndian(b), |b|) == b
  {
    if b != [] {
      FromBigEndianRoundTrip(b[..|b| - 1]);
      assert FromBigEndian(b) / 256 == FromBigEndian(b[..|b| - 1]);
      assert b == b[..|b| - 1] + [b[|b| - 1]];
    }
  }

  lemma Associative<T>(a: seq<T>, b: seq<T>, c: seq<T>)
    ensures a + (b + c) == (a + b) + c
  {}

  lemma WithLast<T>(s: seq<T>)
    requires s != []
    ensures s == s[..|s| - 1] + [s[|s| - 1]]
  {}

  lemma SliceOfSlice<T>(s: seq<T>, k: nat, m: nat)
    requires k <= m <= |s|
    ensures s[..m][..k] == s[..k] && s[..m][k..] == s[k..][..m - k]
  {}

  lemma SplitAround<T>(s: seq<T>, k: nat)
    requires k < |s|
    ensures s[..k] + [s[k]] + s[k + 1..] == s
  {}

  lemma SplitLast<T>(a: seq<T>, x: T, b: seq<T>, y: T)
    requires a + [x] == b + [y]
    ensures a == b && x == y
  {
    assert |a + [x]| == |b + [y]|;
    SplitAt(a, [x], b, [y]);
  }

  /** Two concatenations agree piecewise once the first pieces have equal length. */
  lemma SplitAt<T>(a: seq<T>, b: seq<T>, c: seq<T>, d: seq<T>)
    requires |a| == |c| && a + b == c + d
    ensures a == c && b == d
  {
    assert (a + b)[..|a|] == a && (a + b)[|a|..] == b;
    assert (c + d)[..|c|] == c && (c + d)[|c|..] == d;
  }
}
