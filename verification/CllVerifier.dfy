/** The log verifier as it runs. Every check is total, and its result is what module
    MmrProofs says the proof is accepted for. */
module CllVerifier {
  import opened Octets
  import opened Bits
  import opened MmrPositions
  import opened CllPositions
  import opened MmrTree
  import opened MmrBinding
  import opened MmrSoundness
  import opened MmrProofs

  /** Pop the two rightmost, hash right before left, push, until one is left. */
  method RootFromPeaks(h: Hash, peakHashes: seq<Digest>) returns (root: Digest)
    ensures root == Bag(h, peakHashes)
  {
    if peakHashes == [] { return ZERO; }
    var hashes := peakHashes;
    while |hashes| > 1
      invariant |hashes| > 0 && Bag(h, hashes) == Bag(h, peakHashes)
      decreases |hashes|
    {
      var right: Bytes := hashes[|hashes| - 1];
      var left: Bytes := hashes[|hashes| - 2];
      BagFromRight(h, hashes[..|hashes| - 2], left, right);
      assert hashes == hashes[..|hashes| - 2] + [left, right];
      hashes := hashes[..|hashes| - 2] + [h(right + left)];
    }
    return hashes[0];
  }

  lemma {:induction false} BagFromRight(h: Hash, rest: seq<Digest>, left: Bytes, right: Bytes)
    requires |left| == 32 && |right| == 32
    ensures Bag(h, rest + [left, right]) == Bag(h, rest + [h(right + left)])
    decreases |rest|
  {
    if rest == [] {
      BagStep(h, [left, right]);
      assert [left, right][1..] == [right];
      assert rest + [left, right] == [left, right] && rest + [h(right + left)] == [h(right + left)];
    } else {
      BagFromRight(h, rest[1..], left, right);
      hide BagInput;
      BagStep(h, rest + [left, right]);
      BagStep(h, rest + [h(right + left)]);
      hide Bag;
      assert (rest + [left, right])[1..] == rest[1..] + [left, right];
      assert (rest + [h(right + left)])[1..] == rest[1..] + [h(right + left)];
    }
  }

  lemma BagStep(h: Hash, peaks: seq<Digest>)
    requires |peaks| > 1
    ensures Bag(h, peaks) == h(Bag(h, peaks[1..]) + peaks[0])
  {}

  /** Fold a node's hash up a list of path steps. */
  method FoldSteps(h: Hash, steps: seq<PathStep>, path: seq<Digest>, start: Digest, ghost top: Node, ghost n: Node)
    returns (acc: Digest)
    requires IsNode(top) && IsNode(n) && Inside(n, top)
    requires steps == Steps(top, n) && |path| == |steps|
    ensures acc == Climb(h, top, n, start, path)
  {
    acc := start;
    var i := 0;
    while i < |steps|
      invariant 0 <= i <= |steps|
      invariant acc == ClimbFirst(h, top, n, start, path, i)
    {
      ClimbOneStep(h, top, n, start, path, i);
      acc := if steps[i].targetIsRight then InteriorHash(h, path[i], acc, steps[i].parentPos)
             else InteriorHash(h, acc, path[i], steps[i].parentPos);
      i := i + 1;
    }
    ClimbAll(h, top, n, start, path);
  }

  /** The ancestor of n that the first i steps of a climb to `top` reach. */
  ghost function Ancestor(top: Node, n: Node, i: nat): (a: Node)
    requires IsNode(top) && IsNode(n) && Inside(n, top) && i <= top.a - n.a
    ensures IsNode(a) && Inside(n, a) && a.a == n.a + i
    decreases top.a
  {
    if i == top.a - n.a then top
    else
      TowardFacts(n, top);
      Ancestor(Toward(top, n), n, i)
  }

  ghost function ClimbFirst(h: Hash, top: Node, n: Node, start: Digest, path: seq<Digest>, i: nat): Digest
    requires IsNode(top) && IsNode(n) && Inside(n, top) && |path| == top.a - n.a && i <= |path|
  {
    Climb(h, Ancestor(top, n, i), n, start, path[..i])
  }

  lemma ClimbAll(h: Hash, top: Node, n: Node, start: Digest, path: seq<Digest>)
    requires IsNode(top) && IsNode(n) && Inside(n, top) && |path| == top.a - n.a
    ensures ClimbFirst(h, top, n, start, path, 0) == start
    ensures ClimbFirst(h, top, n, start, path, |path|) == Climb(h, top, n, start, path)
  {
    assert path[..|path|] == path;
  }

  /** Step i goes from ancestor i to ancestor i + 1. */
  lemma {:induction false} StepAt(top: Node, n: Node, i: nat)
    requires IsNode(top) && IsNode(n) && Inside(n, top) && i < top.a - n.a
    ensures var up := Ancestor(top, n, i + 1);
      && Toward(up, n) == Ancestor(top, n, i)
      && Steps(top, n)[i] == PathStep(PosOf(Sibling(up, n)), n.x >= Right(up).x, PosOf(up))
    decreases top.a
  {
    TowardFacts(n, top);
    hide Pow2, IsNode, Inside, PosOf, Left, Right;
    if i + 1 < top.a - n.a { StepAt(Toward(top, n), n, i); }
  }

  lemma ClimbOneStep(h: Hash, top: Node, n: Node, start: Digest, path: seq<Digest>, i: nat)
    requires IsNode(top) && IsNode(n) && Inside(n, top) && |path| == top.a - n.a && i < |path|
    ensures var step := Steps(top, n)[i];
      var acc := ClimbFirst(h, top, n, start, path, i);
      ClimbFirst(h, top, n, start, path, i + 1)
      == if step.targetIsRight then InteriorHash(h, path[i], acc, step.parentPos)
         else InteriorHash(h, acc, path[i], step.parentPos)
  {
    hide Pow2, IsNode, Inside, PosOf, Left, Right, Climb, Ancestor, Steps, InteriorHash;
    StepAt(top, n, i);
    ClimbExtend(h, Ancestor(top, n, i + 1), n, start, path[..i], path[i]);
    assert path[..i + 1] == path[..i] + [path[i]];
  }

  /** The mountain that contains a node's position is the one over its first leaf. */
  lemma FoundPeak(f: nat, n: Node, r: int)
    requires IsNode(n) && n.x < f && End(n) <= f && -1 <= r < Popcount(f)
    requires r == -1 <==> PosOf(n) >= NodeCount(f)
    requires r >= 0 ==> NodeCount(PeakList(f)[r].x) <= PosOf(n) <= PosOf(PeakList(f)[r])
    ensures r >= 0 && PeakList(f)[r] == PeakOver(f, n.x) && r == Popcount(PeakOver(f, n.x).x)
  {
    hide PeakList, PeakOver, Popcount, PosOf, NodeCount, End, IsNode, Inside, IsPeak, Pow2;
    var top := PeakOver(f, n.x);
    PeakOverNode(f, n);
    NodeBounds(n);
    NodeBounds(top);
    DescendFinds(n, top);
    NodeCountMonotone(End(n), f);
    PeakAt(f, r);
    var found := PeakList(f)[r];
    PeakIsNode(found, f);
    NodeBounds(found);
    PeaksApart(found, top, f);
    if End(found) <= top.x {
      NodeCountMonotone(End(found), top.x);
    } else if End(top) <= found.x {
      NodeCountMonotone(End(top), found.x);
    }
  }

  lemma PeakOverNode(f: nat, n: Node)
    requires IsNode(n) && n.x < f && End(n) <= f
    ensures IsPeak(PeakOver(f, n.x), f) && IsNode(PeakOver(f, n.x)) && Inside(n, PeakOver(f, n.x))
  {
    hide PeakOver, PeakList, IsPeak;
    NodeInPeak(n, f);
    PeakIsNode(PeakOver(f, n.x), f);
  }

  method VerifyInclusion(h: Hash, root: Bytes, size: int, leafIndex: int, body: Bytes, proof: InclusionProof)
    returns (ok: bool)
    ensures ok <==> InclusionAccepts(h, root, size, leafIndex, body, proof)
  {
    hide LeavesOf, InclusionPeaks, NodeCount, PosOf, Bag, InclusionFits;
    if |root| != 32 || |body| != 32 { return false; }
    if proof.v != 1 || proof.kind != "inclusion" { return false; }
    if proof.size != size || proof.leafIndex != leafIndex { return false; }
    if size < 0 || size >= MAX_MMR_SIZE { return false; }
    if leafIndex < 0 { return false; }
    var lc := LeafCount(size);
    if lc.None? { return false; }
    var fits, computed := RebagInclusion(h, size, lc.value, leafIndex, body, proof);
    return fits && computed == root;
  }

  /** The part of VerifyInclusion after its field checks. */
  method RebagInclusion(h: Hash, size: int, lc: nat, leafIndex: nat, body: Digest, proof: InclusionProof)
    returns (fits: bool, computed: Digest)
    requires 0 <= size < MAX_MMR_SIZE && LeavesOf(size) == Some(lc)
    ensures fits <==> InclusionFits(lc, leafIndex, proof)
    ensures fits ==> computed == Bag(h, InclusionPeaks(h, lc, leafIndex, body, proof))
  {
    hide LeavesOf, NodeCount, PosOf, Bag, PeakList, PeakOver, Popcount, Climb, End, IsNode, Inside, Steps, Pow2;
    computed := ZERO;
    if leafIndex >= lc { return false, ZERO; }
    LeafUnderPeak(lc, leafIndex);
    ghost var leaf, over := Node(leafIndex, 0), PeakOver(lc, leafIndex);
    LeafPosition(leafIndex, lc);
    var leafPos := LeafIndexToPos(leafIndex);
    var pks := Peaks(size);
    var peakIdx := FindContainingPeak(leafPos.value, pks.value, lc);
    FoundPeak(lc, leaf, peakIdx);
    var peakPos := pks.value[peakIdx];
    NodeAtPosOf(over);
    var peakHeight := HeightAt(peakPos);
    var steps := LocatePath(peakPos, peakHeight, leafPos.value, over, leaf);
    if |proof.path| != |steps| { return false, ZERO; }
    if |proof.peaksLeft| != peakIdx { return false, ZERO; }
    if |proof.peaksRight| != |pks.value| - peakIdx - 1 { return false, ZERO; }
    if !AllDigests(proof.path) || !AllDigests(proof.peaksLeft) || !AllDigests(proof.peaksRight) { return false, ZERO; }
    fits := true;
    var acc := FoldSteps(h, steps, proof.path, LeafHash(h, body), over, leaf);
    computed := RootFromPeaks(h, proof.peaksLeft + [acc] + proof.peaksRight);
  }

  lemma LeafPosition(i: nat, f: nat)
    requires i < f
    ensures PosOf(Node(i, 0)) == NodeCount(i) < NodeCount(f)
  {
    NodeCountMonotone(i, f);
  }

  method VerifyConsistency(h: Hash, rootA: Bytes, sizeA: int, rootB: Bytes, sizeB: int, proof: ConsistencyProof)
    returns (ok: bool)
    ensures ok <==> ConsistencyAccepts(h, rootA, sizeA, rootB, sizeB, proof)
  {
    hide LeavesOf, Linked, NodeCount, PosOf, Bag, PeakList, Popcount;
    if |rootA| != 32 || |rootB| != 32 { return false; }
    if proof.v != 1 || proof.kind != "consistency" { return false; }
    if proof.sizeA != sizeA || proof.sizeB != sizeB { return false; }
    if sizeA < 0 { return false; }
    if sizeB < sizeA { return false; }
    var oldPositions := Peaks(sizeA);
    if oldPositions.None? { return false; }
    var newPositions := Peaks(sizeB);
    if newPositions.None? { return false; }
    if |proof.oldPeaks| != |oldPositions.value| { return false; }
    if |proof.newPeaks| != |newPositions.value| { return false; }
    if |proof.paths| != |oldPositions.value| { return false; }
    if !AllDigests(proof.oldPeaks) || !AllDigests(proof.newPeaks) { return false; }
    var bagA := RootFromPeaks(h, proof.oldPeaks);
    if bagA != rootA { return false; }
    var bagB := RootFromPeaks(h, proof.newPeaks);
    if bagB != rootB { return false; }
    ghost var f, g := LeavesOf(sizeA).value, LeavesOf(sizeB).value;
    NotLater(f, g);
    ok := LinkAll(h, f, g, oldPositions.value, newPositions.value, proof);
  }

  lemma NotLater(f: nat, g: nat)
    requires NodeCount(f) <= NodeCount(g)
    ensures f <= g
  {
    if g < f { NodeCountMonotone(g, f); }
  }

  /** The loop of VerifyConsistency over the old peaks. */
  method LinkAll(h: Hash, ghost f: nat, ghost g: nat, oldPositions: seq<nat>, newPositions: seq<nat>,
      proof: ConsistencyProof)
    returns (ok: bool)
    requires f <= g && ConsistencyFits(f, g, proof)
    requires oldPositions == Positions(PeakList(f)) && newPositions == Positions(PeakList(g))
    ensures ok <==> forall i | 0 <= i < |proof.oldPeaks| ::
      Linked(h, g, PeakList(f)[i], proof.oldPeaks[i], proof.paths[i], proof.newPeaks)
  {
    hide Linked, NodeCount, PosOf, PeakList, Popcount, IsNode, End;
    var i := 0;
    while i < |oldPositions|
      invariant 0 <= i <= |oldPositions|
      invariant forall k | 0 <= k < i ::
        Linked(h, g, PeakList(f)[k], proof.oldPeaks[k], proof.paths[k], proof.newPeaks)
    {
      OldPeak(f, g, i);
      ghost var p := PeakList(f)[i];
      var linked := LinkOne(h, g, p, oldPositions[i], newPositions, proof.oldPeaks[i], proof.paths[i], proof.newPeaks);
      if !linked { return false; }
      i := i + 1;
    }
    return true;
  }

  /** One round of that loop: climb from an old peak to the new peak over it. */
  method LinkOne(h: Hash, ghost g: nat, ghost p: Node, pos: nat, newPositions: seq<nat>, oldPeak: Digest,
      path: seq<Bytes>, newPeaks: seq<Digest>) returns (linked: bool)
    requires IsNode(p) && p.x < g && End(p) <= g && pos == PosOf(p)
    requires newPositions == Positions(PeakList(g)) && |newPeaks| == |newPositions|
    ensures linked <==> Linked(h, g, p, oldPeak, path, newPeaks)
  {
    hide NodeCount, PosOf, PeakList, PeakOver, Popcount, IsNode, End, Inside, Steps, Climb, Pow2;
    ghost var over := PeakOver(g, p.x);
    var containingIdx := FindContainingPeak(pos, newPositions, g);
    FoundPeak(g, p, containingIdx);
    PeakOverNode(g, p);
    var newPeakPos := newPositions[containingIdx];
    NodeAtPosOf(over);
    var newPeakHeight := HeightAt(newPeakPos);
    var steps := LocatePath(newPeakPos, newPeakHeight, pos, over, p);
    if |path| != |steps| { return false; }
    if !AllDigests(path) { return false; }
    var acc := FoldSteps(h, steps, path, oldPeak, over, p);
    return acc == newPeaks[containingIdx];
  }

  method VerifyCheckpointChain(h: Hash, older: Checkpoint, newer: Checkpoint, proof: ConsistencyProof)
    returns (ok: bool)
    ensures ok <==> ChainLinkAccepts(h, older, newer, proof)
  {
    hide ConsistencyAccepts;
    if older.logId != newer.logId { return false; }
    if newer.mmrSize < older.mmrSize { return false; }
    ok := VerifyConsistency(h, older.root, older.mmrSize, newer.root, newer.mmrSize, proof);
  }
}
