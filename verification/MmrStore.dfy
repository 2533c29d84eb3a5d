/** The simple MMR: a flat store of nodes that grows by one leaf at a time. */
module MmrStore {
  import opened Octets
  import opened Bits
  import opened MmrPositions
  import opened CllPositions
  import opened MmrTree

  /** The array of all nodes of a list of leaf hashes, in post-order. */
  ghost function StoreOf(h: Hash, leaves: seq<Digest>): (nodes: seq<Digest>)
    ensures |nodes| == NodeCount(|leaves|)
  {
    seq(NodeCount(|leaves|), p requires 0 <= p < NodeCount(|leaves|) =>
      (WithinCount(p, |leaves|); NodeHash(h, Full(leaves), NodeAtPos(p))))
  }

  /** The node at a position of the store covers leaves of the list only. */
  lemma WithinCount(p: nat, f: nat)
    requires p < NodeCount(f)
    ensures End(NodeAtPos(p)) <= f
  {
    hide NodeAtPos, NodeCount, PosOf, Pow2;
    var n := NodeAtPos(p);
    NodeCountAround(n);
    NodeBounds(n);
    if f < End(n) { NodeCountMonotone(f, End(n) - 1); }
  }

  lemma StoreAt(h: Hash, leaves: seq<Digest>, n: Node)
    requires IsNode(n) && End(n) <= |leaves|
    ensures PosOf(n) < NodeCount(|leaves|)
    ensures StoreOf(h, leaves)[PosOf(n)] == NodeHash(h, Full(leaves), n)
  {
    hide NodeHash, NodeAtPos, NodeCount, PosOf, Pow2, IsNode;
    NodeBounds(n);
    NodeCountMonotone(End(n), |leaves|);
    NodeAtPosOf(n);
  }

  /** Appending a leaf changes no earlier node, adds one node for the leaf and one
      for every trailing one of the leaf count, and the nodes added are those that
      end in the new leaf, at heights 0, 1, 2, ... */
  lemma StoreGrows(h: Hash, leaves: seq<Digest>, leaf: Digest)
    ensures var f := |leaves|;
      var (before, after) := (StoreOf(h, leaves), StoreOf(h, leaves + [leaf]));
      && before <= after
      && |after| == |before| + 1 + LowBit(f + 1)
      && forall b: nat | b <= LowBit(f + 1) ::
           && NodeAtPos(|before| + b) == Newest(f, b)
           && after[|before| + b] == NodeHash(h, Full(leaves + [leaf]), Newest(f, b))
  {
    hide NodeHash, NodeAtPos, NodeCount, PosOf, Pow2, LowBit, Newest, IsNode;
    var f, more := |leaves|, leaves + [leaf];
    NodeCountStep(f);
    forall p: nat | p < NodeCount(f) ensures StoreOf(h, leaves)[p] == StoreOf(h, more)[p] {
      WithinCount(p, f);
      NodeStable(h, Full(leaves), Full(more), NodeAtPos(p));
    }
    forall b: nat | b <= LowBit(f + 1)
      ensures NodeAtPos(NodeCount(f) + b) == Newest(f, b)
      ensures StoreOf(h, more)[NodeCount(f) + b] == NodeHash(h, Full(more), Newest(f, b))
    {
      NodeCountAround(Newest(f, b));
      NodeAtPosOf(Newest(f, b));
      StoreAt(h, more, Newest(f, b));
    }
  }

  /** Whether a mountain to the left has the height reached: exactly while a
      trailing one of the leaf count is left. */
  lemma CarryGuard(f: nat, b: nat)
    requires b <= LowBit(f + 1)
    ensures var x := Newest(f, b).x;
      if b < LowBit(f + 1) then x > 0 && LastMountain(x) == Left(Newest(f, b + 1))
      else x == 0 || LastMountain(x).a != b
  {
    var x := Newest(f, b).x;
    if b < LowBit(f + 1) {
      NewestParent(f, b);
      LastMountainIs(Left(Newest(f, b + 1)));
    } else {
      NewestPeak(f);
      if x > 0 { LowBitAligned(x, b + 1); }
    }
  }

  class NodeStore {
    var nodes: seq<Digest>
    ghost var leaves: seq<Digest>

    /** The store is the array of its leaves. */
    ghost predicate Valid(h: Hash)
      reads this
    {
      nodes == StoreOf(h, leaves)
    }

    constructor (ghost h: Hash)
      ensures Valid(h) && leaves == []
    {
      nodes, leaves := [], [];
    }

    /** Append a leaf hash and the parents it completes; refuse, changing nothing, in
        a store of a size that has no peaks in range. */
    method AddLeaf(h: Hash, leaf: Digest) returns (ok: bool)
      requires Valid(h)
      modifies this
      ensures Valid(h)
      ensures ok <==> NodeCount(|old(leaves)|) < MAX_MMR_SIZE
      ensures leaves == if ok then old(leaves) + [leaf] else old(leaves)
    {
      ghost var f, more := |leaves|, leaves + [leaf];
      hide NodeHash, NodeAtPos, NodeCount, PosOf, Pow2, LowBit, Newest, IsNode, StoreOf, LastMountain, InteriorHash,
        IsPeak, PeakList;
      var size := |nodes|;
      var leafPos := size;
      var newNodes := [leaf];
      LeavesOfNodeCount(f);
      var existing := Peaks(size);
      if existing.None? { return false; }
      var peakIdx := |existing.value| - 1;
      var height: nat := 0;
      var curHash := leaf;
      FirstNewest(h, leaves, leaf);
      ghost var x := f;
      var going := CarriesOn(existing.value, peakIdx, height, f, x);
      while going
        invariant nodes == old(nodes) && leaves == old(leaves)
        invariant height <= LowBit(f + 1) && x == Newest(f, height).x <= f
        invariant -1 <= peakIdx < |existing.value| && PeakList(f)[..peakIdx + 1] == PeakList(x)
        invariant |newNodes| == height + 1 && curHash == newNodes[height]
        invariant forall b: nat | b <= height :: newNodes[b] == NodeHash(h, Full(more), Newest(f, b))
        invariant going <==> height < LowBit(f + 1)
        decreases LowBit(f + 1) - height
      {
        CarryGuard(f, height);
        NewestParent(f, height);
        ghost var up := Newest(f, height + 1);
        PeakListLast(x);
        assert PeakList(f)[peakIdx] == Left(up);
        var leftPos := existing.value[peakIdx];
        LeftStored(h, leaves, leaf, up);
        var leftHash := nodes[leftPos];
        var parentPos := leafPos + |newNodes|;
        var parentHash := InteriorHash(h, leftHash, curHash, parentPos);
        newNodes := newNodes + [parentHash];
        curHash := parentHash;
        height := height + 1;
        assert PeakList(f)[..peakIdx] == PeakList(f)[..peakIdx + 1][..peakIdx];
        peakIdx := peakIdx - 1;
        x := up.x;
        going := CarriesOn(existing.value, peakIdx, height, f, x);
      }
      StoreExtends(h, leaves, leaf, newNodes);
      nodes := nodes + newNodes;
      leaves := more;
      return true;
    }
  }

  lemma StoreExtends(h: Hash, leaves: seq<Digest>, leaf: Digest, newNodes: seq<Digest>)
    requires |newNodes| == 1 + LowBit(|leaves| + 1)
    requires forall b: nat | b <= LowBit(|leaves| + 1) ::
      newNodes[b] == NodeHash(h, Full(leaves + [leaf]), Newest(|leaves|, b))
    ensures StoreOf(h, leaves) + newNodes == StoreOf(h, leaves + [leaf])
  {
    hide NodeHash, NodeCount, LowBit, Newest, StoreOf;
    StoreLonger(h, leaves, leaf);
    var before, after := StoreOf(h, leaves), StoreOf(h, leaves + [leaf]);
    forall b: nat | b < |newNodes| ensures after[|before| + b] == newNodes[b] {
      NewNode(h, leaves, leaf, b);
    }
    Extended(before, newNodes, after);
  }

  lemma StoreLonger(h: Hash, leaves: seq<Digest>, leaf: Digest)
    ensures StoreOf(h, leaves) <= StoreOf(h, leaves + [leaf])
    ensures |StoreOf(h, leaves + [leaf])| == |StoreOf(h, leaves)| + 1 + LowBit(|leaves| + 1)
  {
    hide NodeHash, NodeAtPos, NodeCount, LowBit, Newest, StoreOf;
    StoreGrows(h, leaves, leaf);
  }

  lemma NewNode(h: Hash, leaves: seq<Digest>, leaf: Digest, b: nat)
    requires b <= LowBit(|leaves| + 1)
    ensures var n, after := |StoreOf(h, leaves)| + b, StoreOf(h, leaves + [leaf]);
      n < |after| && after[n] == NodeHash(h, Full(leaves + [leaf]), Newest(|leaves|, b))
  {
    hide NodeHash, NodeAtPos, NodeCount, LowBit, Newest, StoreOf;
    StoreGrows(h, leaves, leaf);
  }

  lemma Extended<T>(before: seq<T>, more: seq<T>, after: seq<T>)
    requires before <= after && |after| == |before| + |more|
    requires forall b: nat | b < |more| :: after[|before| + b] == more[b]
    ensures before + more == after
  {}

  /** The condition of the append loop. */
  method CarriesOn(existing: seq<nat>, peakIdx: int, height: nat, ghost f: nat, ghost x: nat) returns (going: bool)
    requires existing == Positions(PeakList(f)) && -1 <= peakIdx < |existing|
    requires height <= LowBit(f + 1) && x == Newest(f, height).x <= f
    requires PeakList(f)[..peakIdx + 1] == PeakList(x)
    ensures going <==> height < LowBit(f + 1)
  {
    hide NodeAtPos, NodeCount, PosOf, Pow2, LowBit, Newest, IsNode, LastMountain, IsPeak, PeakList;
    CarryGuard(f, height);
    PeakListLast(x);
    if peakIdx < 0 { return false; }
    assert PeakList(f)[peakIdx] == LastMountain(x);
    PeakIsNode(LastMountain(x), x);
    NodeAtPosOf(LastMountain(x));
    var height' := HeightAt(existing[peakIdx]);
    return height' == height;
  }

  lemma PeakListLast(x: nat)
    ensures x == 0 <==> PeakList(x) == []
    ensures x > 0 ==> PeakList(x) == PeakList(LastMountain(x).x) + [LastMountain(x)]
  {}

  lemma FirstNewest(h: Hash, leaves: seq<Digest>, leaf: Digest)
    ensures Newest(|leaves|, 0).x == |leaves|
    ensures NodeHash(h, Full(leaves + [leaf]), Newest(|leaves|, 0)) == leaf
    ensures PeakList(|leaves|)[..|PeakList(|leaves|)|] == PeakList(|leaves|)
  {
    hide Newest, NodeHash, PeakList, LowBit;
    NewestLeaf(h, Full(leaves + [leaf]), |leaves|);
  }

  /** The left child of a new parent is in the store already. */
  lemma LeftStored(h: Hash, leaves: seq<Digest>, leaf: Digest, up: Node)
    requires IsNode(up) && up.a > 0 && End(up) == |leaves| + 1
    ensures PosOf(Left(up)) < NodeCount(|leaves|)
    ensures End(Left(up)) <= |leaves| && End(Right(up)) == |leaves| + 1
    ensures NodeHash(h, Full(leaves + [leaf]), up)
      == InteriorHash(h, StoreOf(h, leaves)[PosOf(Left(up))], NodeHash(h, Full(leaves + [leaf]), Right(up)), PosOf(up))
  {
    hide NodeHash, NodeCount, PosOf, Pow2, IsNode, StoreOf, InteriorHash;
    ChildrenPositions(up);
    NodeBounds(Right(up));
    NodeHashStep(h, Full(leaves + [leaf]), up);
    StoreAt(h, leaves, Left(up));
    NodeStable(h, Full(leaves), Full(leaves + [leaf]), Left(up));
  }
}
