/** What a log hashes, written out in octets: the layout of the inputs and the roots of
    small logs. */
module MmrOctets {
  import opened Octets
  import opened Bits
  import opened MmrPositions
  import opened MmrTree

  /** Leaf inputs are a zero octet and the body digest. */
  lemma LeafLayout(body: Digest)
    ensures var b := LeafInput(body); |b| == 33 && b[0] == 0x00 && b[1..] == body
  {}

  /** Interior inputs are the node's one-based position in eight octets, most significant
      first, then the left child, then the right one. */
  lemma InteriorLayout(left: Digest, right: Digest, position: nat)
    requires position + 1 < 0x1_0000_0000_0000_0000
    ensures var b := InteriorInput(left, right, position);
      && |b| == 72 && b[8..40] == left && b[40..72] == right
      && b[7] == (position + 1) % 0x100 && FromBigEndian(b[..8]) == position + 1
  {
    hide BigEndian, FromBigEndian, Pow256;
    var octets := BigEndian(position + 1, 8);
    assert InteriorInput(left, right, position)[..8] == octets;
    BigEndianStep(position + 1, 7);
    PositionBound();
    BigEndianRoundTrip(position + 1, 8);
  }

  lemma PositionBound()
    ensures Pow256(8) == 0x1_0000_0000_0000_0000
  {
    assert Pow256(4) == 0x1_0000_0000;
  }

  lemma SmallPosition(p: nat)
    requires p < 0x100
    ensures BigEndian(p, 8) == [0, 0, 0, 0, 0, 0, 0, p]
  {
    hide BigEndian;
    BigEndianStep(p, 7);
    BigEndianZero(7);
  }

  /** Bags hash everything to the right in front of the peak. */
  lemma BagsInOctets(h: Hash, p: Digest, q: Digest, r: Digest)
    ensures Bag(h, []) == seq(32, _ => 0x00)
    ensures Bag(h, [p]) == p
    ensures Bag(h, [p, q]) == h(q + p)
    ensures Bag(h, [p, q, r]) == h(h(r + q) + p)
  {
    hide Bag;
    BagStep(h, p, [q]);
    BagStep(h, q, [r]);
    BagStep(h, p, [q, r]);
    BagEnds(h, p);
    BagEnds(h, q);
    BagEnds(h, r);
    assert [p] + [q] == [p, q] && [q] + [r] == [q, r] && [p] + [q, r] == [p, q, r];
  }

  lemma BagStep(h: Hash, peak: Digest, rest: seq<Digest>)
    requires rest != []
    ensures Bag(h, [peak] + rest) == h(Bag(h, rest) + peak)
  {
    assert ([peak] + rest)[1..] == rest;
    assert BagInput(h, [peak] + rest) == Bag(h, rest) + peak;
  }

  lemma BagEnds(h: Hash, peak: Digest)
    ensures Bag(h, []) == seq(32, _ => 0x00) && Bag(h, [peak]) == peak
  {}

  lemma SmallNodes()
    ensures End(Node(0, 0)) == 1 && End(Node(2, 0)) == 3 && End(Node(0, 1)) == 2 && End(Node(0, 2)) == 4
    ensures End(Node(1, 0)) == 2 && End(Node(3, 0)) == 4 && End(Node(2, 1)) == 4
    ensures Aligned(0, 1) && Aligned(2, 1) && Aligned(0, 2) && Aligned(0, 3)
    ensures PosOf(Node(0, 1)) == 2 && PosOf(Node(2, 1)) == 5 && PosOf(Node(0, 2)) == 6
    ensures Left(Node(0, 1)) == Node(0, 0) && Right(Node(0, 1)) == Node(1, 0)
    ensures Left(Node(2, 1)) == Node(2, 0) && Right(Node(2, 1)) == Node(3, 0)
    ensures Left(Node(0, 2)) == Node(0, 1) && Right(Node(0, 2)) == Node(2, 1)
  {
    assert Popcount(0) == 0 && Popcount(2) == 1;
  }

  lemma LeafHashAt(h: Hash, leaves: seq<Digest>, i: nat)
    requires i < |leaves|
    ensures End(Node(i, 0)) == i + 1 && NodeHash(h, Full(leaves), Node(i, 0)) == leaves[i]
  {}

  /** The hashes of the first nodes. */
  lemma TwoLeaves(h: Hash, leaves: seq<Digest>)
    requires |leaves| >= 2
    ensures End(Node(0, 1)) <= |leaves|
    ensures NodeHash(h, Full(leaves), Node(0, 1)) == h([0, 0, 0, 0, 0, 0, 0, 3] + leaves[0] + leaves[1])
  {
    hide PosOf, Left, Right, End, BigEndian, Pow2, Aligned, Popcount, NodeCount, NodeHash;
    SmallNodes();
    SmallPosition(3);
    LeafHashAt(h, leaves, 0);
    LeafHashAt(h, leaves, 1);
    NodeHashStep(h, Full(leaves), Node(0, 1));
  }

  lemma FourLeaves(h: Hash, leaves: seq<Digest>)
    requires |leaves| >= 4
    ensures End(Node(0, 2)) <= |leaves|
    ensures NodeHash(h, Full(leaves), Node(0, 2))
         == h([0, 0, 0, 0, 0, 0, 0, 7] + h([0, 0, 0, 0, 0, 0, 0, 3] + leaves[0] + leaves[1])
              + h([0, 0, 0, 0, 0, 0, 0, 6] + leaves[2] + leaves[3]))
  {
    hide PosOf, Left, Right, End, BigEndian, Pow2, Aligned, Popcount, NodeCount, NodeHash;
    SmallNodes();
    SmallPosition(6);
    SmallPosition(7);
    TwoLeaves(h, leaves);
    LeafHashAt(h, leaves, 2);
    LeafHashAt(h, leaves, 3);
    NodeHashStep(h, Full(leaves), Node(2, 1));
    NodeHashStep(h, Full(leaves), Node(0, 2));
  }

  /** The roots of logs of up to four leaf hashes. */
  lemma SmallRootsInOctets(h: Hash, a: Digest, b: Digest, c: Digest, d: Digest)
    ensures Root(h, Full([])) == seq(32, _ => 0x00)
    ensures Root(h, Full([a])) == a
    ensures Root(h, Full([a, b])) == h([0, 0, 0, 0, 0, 0, 0, 3] + a + b)
    ensures Root(h, Full([a, b, c])) == h(c + h([0, 0, 0, 0, 0, 0, 0, 3] + a + b))
    ensures Root(h, Full([a, b, c, d]))
         == h([0, 0, 0, 0, 0, 0, 0, 7] + h([0, 0, 0, 0, 0, 0, 0, 3] + a + b) + h([0, 0, 0, 0, 0, 0, 0, 6] + c + d))
  {
    hide NodeHash, Bag, PosOf, Pow2, Aligned, LastMountain, End, PeakHashes, Popcount, NodeCount, Left, Right;
    SmallNodes();
    LeafHashAt(h, [a], 0);
    LeafHashAt(h, [a, b, c], 2);
    TwoLeaves(h, [a, b]);
    TwoLeaves(h, [a, b, c]);
    FourLeaves(h, [a, b, c, d]);
    NoMountains(h, []);
    NoMountains(h, [a]);
    NoMountains(h, [a, b]);
    NoMountains(h, [a, b, c]);
    NoMountains(h, [a, b, c, d]);
    PeakHashesNext(h, Full([a]), Node(0, 0));
    PeakHashesNext(h, Full([a, b]), Node(0, 1));
    PeakHashesNext(h, Full([a, b, c]), Node(0, 1));
    PeakHashesNext(h, Full([a, b, c]), Node(2, 0));
    PeakHashesNext(h, Full([a, b, c, d]), Node(0, 2));
    var p, q := NodeHash(h, Full([a, b]), Node(0, 1)), NodeHash(h, Full([a, b, c, d]), Node(0, 2));
    assert PeakHashes(h, Full([a]), 1) == [a] && PeakHashes(h, Full([a, b]), 2) == [p];
    assert PeakHashes(h, Full([a, b, c]), 3) == [p, c] && PeakHashes(h, Full([a, b, c, d]), 4) == [q];
    BagEnds(h, a);
    BagEnds(h, p);
    BagEnds(h, q);
    BagsInOctets(h, p, c, c);
  }

  lemma NoMountains(h: Hash, leaves: seq<Digest>)
    ensures PeakHashes(h, Full(leaves), 0) == []
  {}
}
