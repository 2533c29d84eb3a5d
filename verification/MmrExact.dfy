/** The proofs that are accepted against a log's own root are exactly the ones the log
    gives: every field, every hash and every length of an accepted proof is fixed. */
module MmrExact {
  import opened Octets
  import opened Bits
  import opened MmrPositions
  import opened MmrTree
  import opened MmrBinding
  import opened MmrSoundness
  import opened MmrProofs

  /** The ceiling of the sizes. */
  lemma MaxMmrSizeIsPow2()
    ensures MAX_MMR_SIZE == Pow2(50)
  {
    assert Pow2(10) == 0x400;
    assert Pow2(20) == 0x10_0000;
    assert Pow2(30) == 0x4000_0000;
    assert Pow2(40) == 0x100_0000_0000;
  }

  /** Nothing is accepted at or above 2^50 nodes. */
  lemma NothingAboveCeiling(h: Hash, root: Bytes, size: int, leafIndex: int, body: Bytes, p: InclusionProof,
      rootA: Bytes, sizeA: int, q: ConsistencyProof, fromSeq: int, toSeq: int, bodies: seq<Bytes>, r: RangeProof)
    ensures InclusionAccepts(h, root, size, leafIndex, body, p) ==> 0 <= size < Pow2(50)
    ensures ConsistencyAccepts(h, rootA, sizeA, root, size, q) ==> 0 <= sizeA <= size < Pow2(50)
    ensures RangeAccepts(h, root, fromSeq, toSeq, bodies, r) ==> 0 <= r.size < Pow2(50)
  {
    hide Pow2, LeavesOf, InclusionFits, InclusionPeaks, ConsistencyFits, Linked, Root, BodyLog, Bag, NodeCount;
    MaxMmrSizeIsPow2();
  }

  // --------------------------------------------------------------- inclusion

  lemma InclusionFixed(h: Hash, inputs: set<Bytes>, bodies: seq<Digest>, leafIndex: int, body: Digest,
      proof: InclusionProof)
    requires InclusionAccepts(h, Root(h, FullBodyLog(h, bodies)), NodeCount(|bodies|), leafIndex, body, proof)
    requires CollisionFree(h, inputs)
    requires RootInputs(h, FullBodyLog(h, bodies)) <= inputs && LeafInputs(bodies) <= inputs
    requires InclusionFits(|bodies|, leafIndex, proof)
      ==> InclusionInputs(h, |bodies|, leafIndex, body, proof) <= inputs
    ensures 0 <= leafIndex < |bodies| && bodies[leafIndex] == body && proof == HonestInclusion(h, bodies, leafIndex)
  {
    hide Bag, BagInputs, PeakHashes, PeaksInputs, NodeHash, CollisionFree, PeakOver, Climb, ClimbInputs, PeakList,
      Popcount, NodeCount, LeavesOf, IsPeak, IsNode, End, Inside, LeafInput, LeafInputs, Siblings, BodyLog;
    InclusionSound(h, inputs, bodies, leafIndex, body, proof);
    var f, full := |bodies|, FullBodyLog(h, bodies);
    LeavesOfNodeCount(f);
    LeafUnderPeak(f, leafIndex);
    var top := PeakOver(f, leafIndex);
    var k, peaks := Popcount(top.x), InclusionPeaks(h, f, leafIndex, body, proof);
    BagBinds(h, inputs, peaks, PeakHashes(h, full, f));
    PeakIndex(top, f);
    PeakHashAt(h, full, f, k);
    PeakInputsIncluded(h, full, f, top);
    ClimbBinds(h, inputs, full, top, Node(leafIndex, 0), LeafHash(h, body), proof.path);
    assert peaks[..k] == proof.peaksLeft && peaks[k + 1..] == proof.peaksRight;
  }

  /** Against a log's own root and size, an inclusion proof is accepted if and only if it
      is the log's proof for the body at that index. */
  lemma InclusionExact(h: Hash, inputs: set<Bytes>, bodies: seq<Digest>, leafIndex: int, body: Digest,
      proof: InclusionProof)
    requires NodeCount(|bodies|) < MAX_MMR_SIZE && CollisionFree(h, inputs)
    requires RootInputs(h, FullBodyLog(h, bodies)) <= inputs && LeafInputs(bodies) <= inputs
    requires 0 <= leafIndex && InclusionFits(|bodies|, leafIndex, proof)
      ==> InclusionInputs(h, |bodies|, leafIndex, body, proof) <= inputs
    ensures InclusionAccepts(h, Root(h, FullBodyLog(h, bodies)), NodeCount(|bodies|), leafIndex, body, proof) <==>
      0 <= leafIndex < |bodies| && bodies[leafIndex] == body && proof == HonestInclusion(h, bodies, leafIndex)
  {
    hide NodeCount, FullBodyLog, RootInputs, LeafInputs, CollisionFree, HonestInclusion, InclusionInputs, Root,
      InclusionFits;
    if InclusionAccepts(h, Root(h, FullBodyLog(h, bodies)), NodeCount(|bodies|), leafIndex, body, proof) {
      InclusionFixed(h, inputs, bodies, leafIndex, body, proof);
    }
    if 0 <= leafIndex < |bodies| { InclusionComplete(h, bodies, leafIndex); }
  }

  // ------------------------------------------------------------- consistency

  /** One accepted link took the true path. */
  lemma LinkFixed(h: Hash, inputs: set<Bytes>, leaves: seq<Digest>, p: Node, acc: Digest, path: seq<Bytes>,
      newPeaks: seq<Digest>)
    requires Linked(h, |leaves|, p, acc, path, newPeaks)
    requires newPeaks == PeakHashes(h, Full(leaves), |leaves|)
    requires CollisionFree(h, inputs)
    requires PeaksInputs(h, Full(leaves), |leaves|) <= inputs && LinkInputs(h, |leaves|, p, acc, path) <= inputs
    ensures IsNode(p) && p.x < |leaves| && End(p) <= |leaves|
    ensures NodeHash(h, Full(leaves), p) == acc && path == HonestPath(h, leaves, p)
  {
    hide PeakHashes, NodeHash, PeakOver, Climb, ClimbInputs, PeakList, Popcount, IsPeak, IsNode, End, Inside,
      CollisionFree, PeaksInputs, Siblings;
    var f, top := |leaves|, PeakOver(|leaves|, p.x);
    LinkInside(f, p, path);
    PeakIndex(top, f);
    PeakHashAt(h, Full(leaves), f, Popcount(top.x));
    PeakInputsIncluded(h, Full(leaves), f, top);
    ClimbBinds(h, inputs, Full(leaves), top, p, acc, path);
  }

  lemma ConsistencyFixed(h: Hash, inputs: set<Bytes>, leaves: seq<Digest>, rootA: Bytes, sizeA: int,
      proof: ConsistencyProof)
    requires ConsistencyAccepts(h, rootA, sizeA, Root(h, Full(leaves)), NodeCount(|leaves|), proof)
    requires CollisionFree(h, inputs) && RootInputs(h, Full(leaves)) <= inputs
    requires ConsistencyHashes(h, inputs, LeavesOf(sizeA).value, LeavesOf(NodeCount(|leaves|)).value, proof)
    ensures var f := LeavesOf(sizeA).value;
      f <= |leaves| && sizeA == NodeCount(f) && proof == HonestConsistency(h, leaves, f)
  {
    hide LeavesOf, PeakList, PeakHashes, Popcount, Bag, BagInputs, PeaksInputs, NodeHash, Linked, LinkFits,
      CollisionFree, NodeCount, LinkInputs, HonestPath;
    var f, g, full := LeavesOf(sizeA).value, |leaves|, Full(leaves);
    LeavesOfNodeCount(g);
    if f > g { NodeCountMonotone(g, f); }
    BagBinds(h, inputs, proof.newPeaks, PeakHashes(h, full, g));
    var honest := HonestConsistency(h, leaves, f);
    forall i | 0 <= i < Popcount(f)
      ensures PeakHashes(h, full, f)[i] == proof.oldPeaks[i] && honest.paths[i] == proof.paths[i]
    {
      OldPeak(f, g, i);
      assert Linked(h, g, PeakList(f)[i], proof.oldPeaks[i], proof.paths[i], proof.newPeaks);
      LinkedFits(h, g, PeakList(f)[i], proof.oldPeaks[i], proof.paths[i], proof.newPeaks);
      LinkFixed(h, inputs, leaves, PeakList(f)[i], proof.oldPeaks[i], proof.paths[i], proof.newPeaks);
      PeakHashAt(h, full, f, i);
    }
    hide HonestConsistency;
    assert PeakHashes(h, full, f) == proof.oldPeaks && honest.paths == proof.paths;
  }

  /** Against a log's own root and size, a consistency proof is accepted if and only if
      it is the log's proof for one of its prefixes, with that prefix's root and size. */
  lemma ConsistencyExact(h: Hash, inputs: set<Bytes>, leaves: seq<Digest>, rootA: Bytes, sizeA: int,
      proof: ConsistencyProof)
    requires NodeCount(|leaves|) < MAX_MMR_SIZE && CollisionFree(h, inputs) && RootInputs(h, Full(leaves)) <= inputs
    requires LeavesOf(sizeA).Some? && ConsistencyFits(LeavesOf(sizeA).value, |leaves|, proof)
      ==> ConsistencyHashes(h, inputs, LeavesOf(sizeA).value, |leaves|, proof)
    ensures ConsistencyAccepts(h, rootA, sizeA, Root(h, Full(leaves)), NodeCount(|leaves|), proof) <==>
      exists f: nat :: f <= |leaves| && IsPrefixProof(h, leaves, f, rootA, sizeA, proof)
  {
    hide NodeCount, RootInputs, CollisionFree, ConsistencyHashes, ConsistencyFits, Root, HonestConsistency, Linked,
      LeavesOf;
    LeavesOfNodeCount(|leaves|);
    if ConsistencyAccepts(h, rootA, sizeA, Root(h, Full(leaves)), NodeCount(|leaves|), proof) {
      ConsistencyFixed(h, inputs, leaves, rootA, sizeA, proof);
      ConsistencySound(h, inputs, leaves, rootA, sizeA, proof);
      assert IsPrefixProof(h, leaves, LeavesOf(sizeA).value, rootA, sizeA, proof);
    }
    forall f: nat | f <= |leaves| && IsPrefixProof(h, leaves, f, rootA, sizeA, proof)
      ensures ConsistencyAccepts(h, rootA, sizeA, Root(h, Full(leaves)), NodeCount(|leaves|), proof)
    {
      ConsistencyComplete(h, leaves, f);
    }
  }

  ghost predicate IsPrefixProof(h: Hash, leaves: seq<Digest>, f: nat, rootA: Bytes, sizeA: int, proof: ConsistencyProof)
    requires f <= |leaves|
  {
    rootA == Root(h, Full(leaves[..f])) && sizeA == NodeCount(f) && proof == HonestConsistency(h, leaves, f)
  }

  /** The link from one checkpoint of a log to its newest: accepted if and only if the
      ids agree and the older one is a prefix's, with the log's proof. */
  lemma ChainLinkExact(h: Hash, inputs: set<Bytes>, leaves: seq<Digest>, older: Checkpoint, logId: string,
      proof: ConsistencyProof)
    requires NodeCount(|leaves|) < MAX_MMR_SIZE && CollisionFree(h, inputs) && RootInputs(h, Full(leaves)) <= inputs
    requires LeavesOf(older.mmrSize).Some? && ConsistencyFits(LeavesOf(older.mmrSize).value, |leaves|, proof)
      ==> ConsistencyHashes(h, inputs, LeavesOf(older.mmrSize).value, |leaves|, proof)
    ensures ChainLinkAccepts(h, older, Checkpoint(logId, NodeCount(|leaves|), Root(h, Full(leaves))), proof) <==>
      older.logId == logId
      && exists f: nat :: f <= |leaves| && IsPrefixProof(h, leaves, f, older.root, older.mmrSize, proof)
  {
    hide NodeCount, RootInputs, CollisionFree, ConsistencyHashes, ConsistencyFits, Root, IsPrefixProof, LeavesOf,
      Linked;
    ConsistencyExact(h, inputs, leaves, older.root, older.mmrSize, proof);
  }

  /** Completeness of one link: any prefix's checkpoint under the same log id. */
  lemma ChainLinkComplete(h: Hash, leaves: seq<Digest>, f: nat, logId: string)
    requires f <= |leaves| && NodeCount(|leaves|) < MAX_MMR_SIZE
    ensures ChainLinkAccepts(h, Checkpoint(logId, NodeCount(f), Root(h, Full(leaves[..f]))),
      Checkpoint(logId, NodeCount(|leaves|), Root(h, Full(leaves))), HonestConsistency(h, leaves, f))
  {
    hide NodeCount, Root, HonestConsistency, LeavesOf, Linked, ConsistencyFits;
    ConsistencyComplete(h, leaves, f);
  }

  // ------------------------------------------------------------------- ranges

  /** Against a log's own root, a range proof to the log's last sequence number is
      accepted if and only if it is the log's own for the bodies from there. */
  lemma RangeExact(h: Hash, inputs: set<Bytes>, bodies: seq<Digest>, fromSeq: int, toSeq: int, shown: seq<Digest>,
      proof: RangeProof)
    requires NodeCount(|bodies|) < MAX_MMR_SIZE && CollisionFree(h, inputs) && toSeq == |bodies|
    requires 1 <= fromSeq && AllDigests(proof.path)
      ==> RangeHashes(h, inputs, bodies, fromSeq - 1, proof.path, shown)
    ensures RangeAccepts(h, Root(h, FullBodyLog(h, bodies)), fromSeq, toSeq, shown, proof) <==>
      1 <= fromSeq <= |bodies| && shown == bodies[fromSeq - 1..] && proof == HonestRange(h, bodies, fromSeq)
  {
    hide LeavesOf, Root, RootInputs, LeafInputs, CollisionFree, BodyLog, Bag, NodeCount, Popcount, PeakHashes;
    if RangeAccepts(h, Root(h, FullBodyLog(h, bodies)), fromSeq, toSeq, shown, proof) {
      FullIsFull(h, bodies);
      assert SameBodyRoot(h, inputs, bodies, fromSeq - 1, proof.path, shown);
      SameBodies(h, inputs, bodies, fromSeq - 1, proof.path, shown);
    }
    if 1 <= fromSeq <= |bodies| { RangeComplete(h, bodies, fromSeq); }
  }
}
