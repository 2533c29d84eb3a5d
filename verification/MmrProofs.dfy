/** Inclusion, consistency and range proofs: what each is accepted for, and what
    acceptance establishes about a true log. */
module MmrProofs {
  import opened Octets
  import opened Bits
  import opened MmrPositions
  import opened MmrTree
  import opened MmrBinding
  import opened MmrSoundness

  // ---------------------------------------------------------------- climbing

  /** The hash of `top` folded up from the hash of a node inside it. */
  function Climb(h: Hash, top: Node, n: Node, acc: Digest, path: seq<Digest>): Digest
    requires IsNode(top) && IsNode(n) && Inside(n, top) && |path| == top.a - n.a
    decreases top.a, 1
  {
    if path == [] then acc else h(ClimbInput(h, top, n, acc, path))
  }

  function ClimbInput(h: Hash, top: Node, n: Node, acc: Digest, path: seq<Digest>): Bytes
    requires IsNode(top) && IsNode(n) && Inside(n, top) && |path| == top.a - n.a && path != []
    decreases top.a, 0
  {
    TowardFacts(n, top);
    var child := Climb(h, Toward(top, n), n, acc, path[..|path| - 1]);
    if n.x >= Right(top).x then InteriorInput(path[|path| - 1], child, PosOf(top))
    else InteriorInput(child, path[|path| - 1], PosOf(top))
  }

  function ClimbInputs(h: Hash, top: Node, n: Node, acc: Digest, path: seq<Digest>): set<Bytes>
    requires IsNode(top) && IsNode(n) && Inside(n, top) && |path| == top.a - n.a
    decreases top.a
  {
    if path == [] then {}
    else
      TowardFacts(n, top);
      {ClimbInput(h, top, n, acc, path)} + ClimbInputs(h, Toward(top, n), n, acc, path[..|path| - 1])
  }

  /** The true siblings, innermost first. */
  function Siblings(h: Hash, log: Log, top: Node, n: Node): (path: seq<Digest>)
    requires IsNode(top) && IsNode(n) && Inside(n, top) && End(top) <= log.Count()
    ensures |path| == top.a - n.a
    decreases top.a
  {
    if n.a == top.a then []
    else
      TowardFacts(n, top);
      ChildEnds(top);
      Siblings(h, log, Toward(top, n), n) + [NodeHash(h, log, Sibling(top, n))]
  }

  lemma SameNode(n: Node, top: Node)
    requires IsNode(top) && IsNode(n) && Inside(n, top) && n.a == top.a
    ensures n == top
  {}

  lemma ClimbExtend(h: Hash, top: Node, n: Node, acc: Digest, path: seq<Digest>, sibling: Digest)
    requires IsNode(top) && IsNode(n) && Inside(n, top) && |path| + 1 == top.a - n.a
    ensures IsNode(Toward(top, n)) && Inside(n, Toward(top, n))
    ensures Climb(h, top, n, acc, path + [sibling])
         == if n.x >= Right(top).x
            then InteriorHash(h, sibling, Climb(h, Toward(top, n), n, acc, path), PosOf(top))
            else InteriorHash(h, Climb(h, Toward(top, n), n, acc, path), sibling, PosOf(top))
  {
    TowardFacts(n, top);
    hide Pow2, IsNode, Inside, Left, Right, End, PosOf, InteriorInput;
    assert (path + [sibling])[..|path|] == path;
  }

  lemma {:induction false} SiblingsClimb(h: Hash, log: Log, top: Node, n: Node)
    requires IsNode(top) && IsNode(n) && Inside(n, top) && log.known == 0 && End(top) <= log.Count()
    ensures Climb(h, top, n, NodeHash(h, log, n), Siblings(h, log, top, n)) == NodeHash(h, log, top)
    decreases top.a
  {
    if n.a == top.a {
      SameNode(n, top);
    } else {
      NodeBounds(top);
      TowardFacts(n, top);
      ChildEnds(top);
      NodeHashStep(h, log, top);
      SiblingsClimb(h, log, Toward(top, n), n);
      hide NodeHash, Pow2, IsNode, Inside, Left, Right, End, PosOf, InteriorHash, Climb;
      ClimbExtend(h, top, n, NodeHash(h, log, n), Siblings(h, log, Toward(top, n), n),
                  NodeHash(h, log, Sibling(top, n)));
    }
  }

  /** A climb that reaches the true hash of `top` started at the true hash of n and took
      the true siblings. */
  lemma {:induction false} ClimbBinds(h: Hash, inputs: set<Bytes>, log: Log, top: Node, n: Node, acc: Digest,
      path: seq<Digest>)
    requires IsNode(top) && IsNode(n) && Inside(n, top) && |path| == top.a - n.a
    requires log.known == 0 && End(top) <= log.Count()
    requires CollisionFree(h, inputs)
    requires NodeInputs(h, log, top) <= inputs && ClimbInputs(h, top, n, acc, path) <= inputs
    requires Climb(h, top, n, acc, path) == NodeHash(h, log, top)
    ensures NodeHash(h, log, n) == acc && path == Siblings(h, log, top, n)
    decreases top.a
  {
    if n.a == top.a {
      SameNode(n, top);
    } else {
      NodeBounds(top);
      TowardFacts(n, top);
      ChildEnds(top);
      NodeHashStep(h, log, top);
      NodeInputsStep(h, log, top);
      hide NodeHash, NodeInputs, Pow2, IsNode, Inside, Left, Right, End, PosOf, InteriorInput, CollisionFree;
      WithLast(path);
      var child := Climb(h, Toward(top, n), n, acc, path[..|path| - 1]);
      var last := path[|path| - 1];
      if n.x >= Right(top).x {
        InteriorBinds(h, inputs, last, child, PosOf(top),
                      NodeHash(h, log, Left(top)), NodeHash(h, log, Right(top)), PosOf(top));
      } else {
        InteriorBinds(h, inputs, child, last, PosOf(top),
                      NodeHash(h, log, Left(top)), NodeHash(h, log, Right(top)), PosOf(top));
      }
      ClimbBinds(h, inputs, log, Toward(top, n), n, acc, path[..|path| - 1]);
    }
  }

  // --------------------------------------------------------------- inclusion

  datatype InclusionProof = InclusionProof(v: int, kind: string, size: int, leafIndex: int,
    path: seq<Bytes>, peaksLeft: seq<Bytes>, peaksRight: seq<Bytes>)

  lemma LeafNode(i: nat)
    ensures IsNode(Node(i, 0)) && End(Node(i, 0)) == i + 1
  {}

  lemma LeafUnderPeak(f: nat, i: nat)
    requires i < f
    ensures IsNode(PeakOver(f, i)) && IsNode(Node(i, 0)) && Inside(Node(i, 0), PeakOver(f, i))
    ensures End(PeakOver(f, i)) <= f && End(Node(i, 0)) == i + 1
    ensures IsPeak(PeakOver(f, i), f) && Popcount(PeakOver(f, i).x) < Popcount(f)
  {
    hide PeakOver, PeakList, Popcount, NodeCount, PosOf, Aligned, Pow2;
    var top := PeakOver(f, i);
    LeafNode(i);
    PeakIsNode(top, f);
    PeakIndex(top, f);
  }

  /** Witness and peaks have the lengths that the size and the index call for. */
  ghost predicate InclusionFits(f: nat, i: nat, proof: InclusionProof) {
    && i < f
    && AllDigests(proof.path) && AllDigests(proof.peaksLeft) && AllDigests(proof.peaksRight)
    && var top := PeakOver(f, i);
    && |proof.path| == top.a
    && |proof.peaksLeft| == Popcount(top.x)
    && |proof.peaksRight| + Popcount(top.x) + 1 == Popcount(f)
  }

  /** The mountains a proof puts together. */
  ghost function InclusionPeaks(h: Hash, f: nat, i: nat, body: Digest, proof: InclusionProof): seq<Digest>
    requires InclusionFits(f, i, proof)
  {
    hide PeakOver, Popcount, Pow2, IsPeak;
    LeafUnderPeak(f, i);
    proof.peaksLeft + [Climb(h, PeakOver(f, i), Node(i, 0), LeafHash(h, body), proof.path)] + proof.peaksRight
  }

  ghost function InclusionInputs(h: Hash, f: nat, i: nat, body: Digest, proof: InclusionProof): set<Bytes>
    requires InclusionFits(f, i, proof)
  {
    LeafUnderPeak(f, i);
    {LeafInput(body)} + ClimbInputs(h, PeakOver(f, i), Node(i, 0), LeafHash(h, body), proof.path)
    + BagInputs(h, InclusionPeaks(h, f, i, body, proof))
  }

  /** What an inclusion proof is accepted for, for any arguments. */
  ghost predicate InclusionAccepts(h: Hash, root: Bytes, size: int, leafIndex: int, body: Bytes,
      proof: InclusionProof) {
    && |root| == 32 && |body| == 32
    && proof.v == 1 && proof.kind == "inclusion" && proof.size == size && proof.leafIndex == leafIndex
    && 0 <= size < MAX_MMR_SIZE && 0 <= leafIndex
    && LeavesOf(size).Some?
    && InclusionFits(LeavesOf(size).value, leafIndex, proof)
    && Bag(h, InclusionPeaks(h, LeavesOf(size).value, leafIndex, body, proof)) == root
  }

  /** An accepted body digest is the one at its index in the log with that root. */
  lemma InclusionSound(h: Hash, inputs: set<Bytes>, bodies: seq<Digest>, leafIndex: int, body: Digest,
      proof: InclusionProof)
    requires InclusionAccepts(h, Root(h, FullBodyLog(h, bodies)), NodeCount(|bodies|), leafIndex, body, proof)
    requires CollisionFree(h, inputs)
    requires RootInputs(h, FullBodyLog(h, bodies)) <= inputs && LeafInputs(bodies) <= inputs
    requires InclusionFits(|bodies|, leafIndex, proof)
      ==> InclusionInputs(h, |bodies|, leafIndex, body, proof) <= inputs
    ensures leafIndex < |bodies| && bodies[leafIndex] == body
  {
    hide Bag, BagInputs, PeakHashes, PeaksInputs, NodeHash, CollisionFree, PeakOver, Climb, ClimbInputs, PeakList,
      Popcount, NodeCount, LeavesOf, IsPeak, IsNode, End, Inside, LeafInput;
    var f, full := |bodies|, FullBodyLog(h, bodies);
    LeavesOfNodeCount(f);
    LeafUnderPeak(f, leafIndex);
    var top, leaf := PeakOver(f, leafIndex), Node(leafIndex, 0);
    var k := Popcount(top.x);
    var peaks := InclusionPeaks(h, f, leafIndex, body, proof);
    BagBinds(h, inputs, peaks, PeakHashes(h, full, f));
    PeakIndex(top, f);
    PeakHashAt(h, full, f, k);
    PeakInputsIncluded(h, full, f, top);
    ClimbBinds(h, inputs, full, top, leaf, LeafHash(h, body), proof.path);
    LeafOf(h, bodies, leafIndex);
    LeafHashBinds(h, inputs, bodies, [body], bodies[leafIndex], body);
  }

  lemma LeafOf(h: Hash, bodies: seq<Digest>, i: nat)
    requires i < |bodies|
    ensures End(Node(i, 0)) == i + 1
    ensures NodeHash(h, FullBodyLog(h, bodies), Node(i, 0)) == LeafHash(h, bodies[i])
  {}

  /** The proof a log gives for leaf i. */
  ghost function HonestInclusion(h: Hash, bodies: seq<Digest>, i: nat): (p: InclusionProof)
    requires i < |bodies|
    ensures p.v == 1 && p.kind == "inclusion" && p.size == NodeCount(|bodies|) && p.leafIndex == i
    ensures InclusionFits(|bodies|, i, p)
  {
    LeafUnderPeak(|bodies|, i);
    var full := FullBodyLog(h, bodies);
    var top := PeakOver(|bodies|, i);
    var peaks := PeakHashes(h, full, |bodies|);
    InclusionProof(1, "inclusion", NodeCount(|bodies|), i, Siblings(h, full, top, Node(i, 0)),
                   peaks[..Popcount(top.x)], peaks[Popcount(top.x) + 1..])
  }

  lemma HonestInclusionPeaks(h: Hash, bodies: seq<Digest>, i: nat)
    requires i < |bodies|
    ensures InclusionPeaks(h, |bodies|, i, bodies[i], HonestInclusion(h, bodies, i))
         == PeakHashes(h, FullBodyLog(h, bodies), |bodies|)
  {
    hide PeakHashes, NodeHash, PeakOver, Climb, Siblings, PeakList, Popcount, NodeCount, IsPeak, IsNode, End, Inside;
    var f, full, top := |bodies|, FullBodyLog(h, bodies), PeakOver(|bodies|, i);
    LeafUnderPeak(f, i);
    LeafOf(h, bodies, i);
    var peaks, k := PeakHashes(h, full, f), Popcount(top.x);
    hide BodyLog, InclusionFits;
    SiblingsClimb(h, full, top, Node(i, 0));
    PeakIndex(top, f);
    PeakHashAt(h, full, f, k);
    SplitAround(peaks, k);
  }

  /** Every honest proof is accepted. */
  lemma InclusionComplete(h: Hash, bodies: seq<Digest>, i: nat)
    requires i < |bodies| && NodeCount(|bodies|) < MAX_MMR_SIZE
    ensures InclusionAccepts(h, Root(h, FullBodyLog(h, bodies)), NodeCount(|bodies|), i, bodies[i],
                             HonestInclusion(h, bodies, i))
  {
    hide InclusionFits, InclusionPeaks, LeavesOf, PeakHashes, Bag, HonestInclusion, NodeCount, BodyLog;
    LeavesOfNodeCount(|bodies|);
    HonestInclusionPeaks(h, bodies, i);
  }

  // ------------------------------------------------------------- consistency

  datatype ConsistencyProof = ConsistencyProof(v: int, kind: string, sizeA: int, sizeB: int,
    oldPeaks: seq<Bytes>, paths: seq<seq<Bytes>>, newPeaks: seq<Bytes>)

  /** An old mountain fits under a new one, and its path has the right length. */
  ghost predicate LinkFits(g: nat, p: Node, path: seq<Bytes>) {
    && IsNode(p) && p.x < g && End(p) <= g
    && AllDigests(path)
    && PeakOver(g, p.x).a == p.a + |path|
  }

  lemma LinkInside(g: nat, p: Node, path: seq<Bytes>)
    requires LinkFits(g, p, path)
    ensures IsNode(PeakOver(g, p.x)) && Inside(p, PeakOver(g, p.x)) && IsPeak(PeakOver(g, p.x), g)
  {
    hide PeakOver;
    NodeInPeak(p, g);
    PeakIsNode(PeakOver(g, p.x), g);
  }

  ghost function LinkTop(h: Hash, g: nat, p: Node, acc: Digest, path: seq<Bytes>): Digest
    requires LinkFits(g, p, path)
  {
    LinkInside(g, p, path);
    Climb(h, PeakOver(g, p.x), p, acc, path)
  }

  ghost function LinkInputs(h: Hash, g: nat, p: Node, acc: Digest, path: seq<Bytes>): set<Bytes>
    requires LinkFits(g, p, path)
  {
    LinkInside(g, p, path);
    ClimbInputs(h, PeakOver(g, p.x), p, acc, path)
  }

  /** Old mountain i climbs to the new mountain over it. */
  ghost predicate Linked(h: Hash, g: nat, p: Node, acc: Digest, path: seq<Bytes>, newPeaks: seq<Bytes>) {
    && LinkFits(g, p, path)
    && Popcount(PeakOver(g, p.x).x) < |newPeaks|
    && LinkTop(h, g, p, acc, path) == newPeaks[Popcount(PeakOver(g, p.x).x)]
  }

  /** Lists of the lengths that the two sizes call for. */
  ghost predicate ConsistencyFits(f: nat, g: nat, proof: ConsistencyProof) {
    && |proof.oldPeaks| == |proof.paths| == Popcount(f)
    && |proof.newPeaks| == Popcount(g)
    && AllDigests(proof.oldPeaks) && AllDigests(proof.newPeaks)
  }

  /** What a consistency proof is accepted for, for any arguments. */
  ghost predicate ConsistencyAccepts(h: Hash, rootA: Bytes, sizeA: int, rootB: Bytes, sizeB: int,
      proof: ConsistencyProof) {
    && |rootA| == 32 && |rootB| == 32
    && proof.v == 1 && proof.kind == "consistency" && proof.sizeA == sizeA && proof.sizeB == sizeB
    && 0 <= sizeA <= sizeB < MAX_MMR_SIZE
    && LeavesOf(sizeA).Some? && LeavesOf(sizeB).Some?
    && ConsistencyFits(LeavesOf(sizeA).value, LeavesOf(sizeB).value, proof)
    && Bag(h, proof.oldPeaks) == rootA && Bag(h, proof.newPeaks) == rootB
    && forall i | 0 <= i < |proof.oldPeaks| ::
         Linked(h, LeavesOf(sizeB).value, PeakList(LeavesOf(sizeA).value)[i], proof.oldPeaks[i], proof.paths[i],
           proof.newPeaks)
  }

  /** Everything hashed when the new root is rebuilt and the old mountains climb. */
  ghost predicate ConsistencyHashes(h: Hash, inputs: set<Bytes>, f: nat, g: nat, proof: ConsistencyProof)
    requires ConsistencyFits(f, g, proof)
  {
    && BagInputs(h, proof.newPeaks) <= inputs
    && forall i | 0 <= i < Popcount(f) && LinkFits(g, PeakList(f)[i], proof.paths[i]) ::
         LinkInputs(h, g, PeakList(f)[i], proof.oldPeaks[i], proof.paths[i]) <= inputs
  }

  /** One accepted old mountain is the true one. */
  lemma LinkSound(h: Hash, inputs: set<Bytes>, leaves: seq<Digest>, p: Node, acc: Digest, path: seq<Bytes>,
      newPeaks: seq<Digest>)
    requires Linked(h, |leaves|, p, acc, path, newPeaks)
    requires newPeaks == PeakHashes(h, Full(leaves), |leaves|)
    requires CollisionFree(h, inputs)
    requires PeaksInputs(h, Full(leaves), |leaves|) <= inputs && LinkInputs(h, |leaves|, p, acc, path) <= inputs
    ensures NodeHash(h, Full(leaves), p) == acc
  {
    hide PeakHashes, NodeHash, PeakOver, Climb, ClimbInputs, PeakList, Popcount, IsPeak, IsNode, End, Inside,
      CollisionFree, PeaksInputs;
    var f, top := |leaves|, PeakOver(|leaves|, p.x);
    LinkInside(f, p, path);
    PeakIndex(top, f);
    PeakHashAt(h, Full(leaves), f, Popcount(top.x));
    PeakInputsIncluded(h, Full(leaves), f, top);
    ClimbBinds(h, inputs, Full(leaves), top, p, acc, path);
  }

  /** Rollback detection: an accepted proof against the root of a log vouches for
      the root of that log's own prefix. */
  lemma ConsistencySound(h: Hash, inputs: set<Bytes>, leaves: seq<Digest>, rootA: Bytes, sizeA: int,
      proof: ConsistencyProof)
    requires ConsistencyAccepts(h, rootA, sizeA, Root(h, Full(leaves)), NodeCount(|leaves|), proof)
    requires CollisionFree(h, inputs) && RootInputs(h, Full(leaves)) <= inputs
    requires ConsistencyHashes(h, inputs, LeavesOf(sizeA).value, LeavesOf(NodeCount(|leaves|)).value, proof)
    ensures var f := LeavesOf(sizeA).value; f <= |leaves| && rootA == Root(h, Full(leaves[..f]))
  {
    var f, g, full := LeavesOf(sizeA).value, |leaves|, Full(leaves);
    hide LeavesOf, PeakList, PeakHashes, Popcount, Bag, BagInputs, PeaksInputs, NodeHash, Linked, LinkFits,
      CollisionFree, NodeCount, LinkInputs;
    LeavesOfNodeCount(g);
    if f > g { NodeCountMonotone(g, f); }
    BagBinds(h, inputs, proof.newPeaks, PeakHashes(h, full, g));
    forall i | 0 <= i < Popcount(f) ensures PeakHashes(h, full, f)[i] == proof.oldPeaks[i] {
      assert Linked(h, g, PeakList(f)[i], proof.oldPeaks[i], proof.paths[i], proof.newPeaks);
      LinkedFits(h, g, PeakList(f)[i], proof.oldPeaks[i], proof.paths[i], proof.newPeaks);
      LinkSound(h, inputs, leaves, PeakList(f)[i], proof.oldPeaks[i], proof.paths[i], proof.newPeaks);
      PeakHashAt(h, full, f, i);
    }
    assert PeakHashes(h, full, f) == proof.oldPeaks;
    PrefixRoot(h, leaves, f);
  }

  lemma LinkedFits(h: Hash, g: nat, p: Node, acc: Digest, path: seq<Bytes>, newPeaks: seq<Bytes>)
    requires Linked(h, g, p, acc, path, newPeaks)
    ensures LinkFits(g, p, path)
  {}

  /** The path a log gives for its old mountain p. */
  ghost function HonestPath(h: Hash, leaves: seq<Digest>, p: Node): (path: seq<Digest>)
    requires IsNode(p) && p.x < |leaves| && End(p) <= |leaves|
    ensures LinkFits(|leaves|, p, path)
  {
    NodeInPeak(p, |leaves|);
    PeakIsNode(PeakOver(|leaves|, p.x), |leaves|);
    Siblings(h, Full(leaves), PeakOver(|leaves|, p.x), p)
  }

  lemma OldPeak(f: nat, g: nat, i: nat)
    requires f <= g && i < Popcount(f)
    ensures var p := PeakList(f)[i]; IsNode(p) && p.x < g && End(p) <= g
  {
    hide PeakList, IsNode, Pow2, Popcount;
    PeakAt(f, i);
    PeakIsNode(PeakList(f)[i], f);
    NodeBounds(PeakList(f)[i]);
  }

  /** The proof a log gives for its own prefix of f leaves. */
  ghost function HonestConsistency(h: Hash, leaves: seq<Digest>, f: nat): (proof: ConsistencyProof)
    requires f <= |leaves|
    ensures proof.v == 1 && proof.kind == "consistency"
    ensures proof.sizeA == NodeCount(f) && proof.sizeB == NodeCount(|leaves|)
    ensures proof.oldPeaks == PeakHashes(h, Full(leaves), f) && proof.newPeaks == PeakHashes(h, Full(leaves), |leaves|)
    ensures |proof.paths| == Popcount(f)
    ensures forall i | 0 <= i < Popcount(f) ::
      (OldPeak(f, |leaves|, i); proof.paths[i] == HonestPath(h, leaves, PeakList(f)[i]))
  {
    ConsistencyProof(1, "consistency", NodeCount(f), NodeCount(|leaves|), PeakHashes(h, Full(leaves), f),
      seq(Popcount(f), i requires 0 <= i < Popcount(f) =>
        (OldPeak(f, |leaves|, i); HonestPath(h, leaves, PeakList(f)[i]))),
      PeakHashes(h, Full(leaves), |leaves|))
  }

  lemma LinkComplete(h: Hash, leaves: seq<Digest>, p: Node)
    requires IsNode(p) && p.x < |leaves| && End(p) <= |leaves|
    ensures Linked(h, |leaves|, p, NodeHash(h, Full(leaves), p), HonestPath(h, leaves, p),
                   PeakHashes(h, Full(leaves), |leaves|))
  {
    hide PeakHashes, NodeHash, PeakOver, Climb, PeakList, Popcount, IsPeak, IsNode, End, Inside, Siblings;
    var g := |leaves|;
    var top := PeakOver(g, p.x);
    LinkInside(g, p, HonestPath(h, leaves, p));
    SiblingsClimb(h, Full(leaves), top, p) by { TopWithin(top, g); }
    PeakIndex(top, g);
    PeakHashAt(h, Full(leaves), g, Popcount(top.x));
  }

  lemma TopWithin(top: Node, g: nat)
    requires IsPeak(top, g)
    ensures End(top) <= g
  {}

  /** Completeness: a log's proof for any of its prefixes is accepted. */
  lemma ConsistencyComplete(h: Hash, leaves: seq<Digest>, f: nat)
    requires f <= |leaves| && NodeCount(|leaves|) < MAX_MMR_SIZE
    ensures ConsistencyAccepts(h, Root(h, Full(leaves[..f])), NodeCount(f), Root(h, Full(leaves)), NodeCount(|leaves|),
                               HonestConsistency(h, leaves, f))
  {
    hide LeavesOf, PeakList, PeakHashes, Popcount, Bag, NodeHash, Linked, LinkFits, NodeCount, HonestConsistency,
      HonestPath;
    var g, proof := |leaves|, HonestConsistency(h, leaves, f);
    LeavesOfNodeCount(f);
    LeavesOfNodeCount(g);
    NodeCountMonotone(f, g);
    PrefixRoot(h, leaves, f);
    forall i | 0 <= i < Popcount(f)
      ensures Linked(h, g, PeakList(f)[i], proof.oldPeaks[i], proof.paths[i], proof.newPeaks)
    {
      OldPeak(f, g, i);
      LinkComplete(h, leaves, PeakList(f)[i]);
      PeakHashAt(h, Full(leaves), f, i);
    }
  }

  // ------------------------------------------------------- checkpoint chains

  datatype Checkpoint = Checkpoint(logId: string, mmrSize: int, root: Bytes)

  /** What verify_checkpoint_chain is ok for. */
  ghost predicate ChainLinkAccepts(h: Hash, older: Checkpoint, newer: Checkpoint, proof: ConsistencyProof) {
    && older.logId == newer.logId && older.mmrSize <= newer.mmrSize
    && ConsistencyAccepts(h, older.root, older.mmrSize, newer.root, newer.mmrSize, proof)
  }

  /** c is a checkpoint of the first leaves of the list. */
  ghost predicate CheckpointOf(h: Hash, c: Checkpoint, leaves: seq<Digest>) {
    && LeavesOf(c.mmrSize).Some? && LeavesOf(c.mmrSize).value <= |leaves|
    && c.root == Root(h, Full(leaves[..LeavesOf(c.mmrSize).value]))
  }

  /** Everything that a link's check and the root it is checked against hash. */
  ghost predicate LinkHashes(h: Hash, inputs: set<Bytes>, leaves: seq<Digest>, older: Checkpoint, newer: Checkpoint,
      proof: ConsistencyProof)
    requires ChainLinkAccepts(h, older, newer, proof)
  {
    && (LeavesOf(newer.mmrSize).value <= |leaves| ==>
        RootInputs(h, Full(leaves[..LeavesOf(newer.mmrSize).value])) <= inputs)
    && ConsistencyHashes(h, inputs, LeavesOf(older.mmrSize).value, LeavesOf(newer.mmrSize).value, proof)
  }

  /** One link back from a checkpoint of a list. */
  lemma ChainStep(h: Hash, inputs: set<Bytes>, leaves: seq<Digest>, older: Checkpoint, newer: Checkpoint,
      proof: ConsistencyProof)
    requires ChainLinkAccepts(h, older, newer, proof) && CheckpointOf(h, newer, leaves)
    requires CollisionFree(h, inputs) && LinkHashes(h, inputs, leaves, older, newer, proof)
    ensures CheckpointOf(h, older, leaves) && older.mmrSize <= newer.mmrSize && older.logId == newer.logId
  {
    hide LeavesOf, Root, RootInputs, CollisionFree, ConsistencyHashes, ConsistencyFits, Linked;
    var g := LeavesOf(newer.mmrSize).value;
    ConsistencySound(h, inputs, leaves[..g], older.root, older.mmrSize, proof);
    assert leaves[..g][..LeavesOf(older.mmrSize).value] == leaves[..LeavesOf(older.mmrSize).value];
  }

  /** No rollback over whole chains: if the last checkpoint is one of a list, so is
      every earlier one, with sizes that never decrease and one log id throughout. */
  lemma {:induction false} ChainSound(h: Hash, inputs: set<Bytes>, leaves: seq<Digest>,
      chain: seq<Checkpoint>, proofs: seq<ConsistencyProof>, i: nat)
    requires 0 < |chain| == |proofs| + 1 && i < |chain|
    requires CheckpointOf(h, chain[|chain| - 1], leaves)
    requires forall k | 0 <= k < |proofs| :: ChainLinkAccepts(h, chain[k], chain[k + 1], proofs[k])
    requires CollisionFree(h, inputs)
    requires forall k | 0 <= k < |proofs| :: LinkHashes(h, inputs, leaves, chain[k], chain[k + 1], proofs[k])
    ensures CheckpointOf(h, chain[i], leaves)
    ensures forall j | i <= j < |chain| ::
      chain[i].mmrSize <= chain[j].mmrSize && chain[i].logId == chain[j].logId
    decreases |chain| - i
  {
    hide CheckpointOf, ChainLinkAccepts, LinkHashes, CollisionFree;
    if i < |proofs| {
      ChainSound(h, inputs, leaves, chain, proofs, i + 1);
      ChainStep(h, inputs, leaves, chain[i], chain[i + 1], proofs[i]);
    }
  }

  // ------------------------------------------------------------------ ranges

  datatype RangeProof = RangeProof(fromSeq: int, toSeq: int, size: int, fromIndex: int, toIndex: int, path: seq<Bytes>)

  /** What a range proof is accepted for, for any arguments: its field checks, a
      witness of one hash per mountain before the range, and the root of the log
      that those mountains and the bodies describe. */
  ghost predicate RangeAccepts(h: Hash, root: Bytes, fromSeq: int, toSeq: int, bodies: seq<Bytes>, proof: RangeProof) {
    && |root| == 32
    && proof.fromSeq == fromSeq && proof.toSeq == toSeq && 1 <= fromSeq <= toSeq
    && proof.size < MAX_MMR_SIZE && LeavesOf(proof.size) == Some(toSeq)
    && proof.fromIndex == fromSeq - 1 && proof.toIndex == toSeq - 1
    && |bodies| == toSeq - fromSeq + 1
    && AllDigests(bodies) && AllDigests(proof.path)
    && |proof.path| == Popcount(fromSeq - 1)
    && Root(h, BodyLog(h, fromSeq - 1, proof.path, bodies)) == root
  }

  /** With no assumption on the hash, acceptance is incremental append: start from
      the witness as the mountains of the first fromSeq - 1 leaves, append the
      bodies' leaf hashes one by one, bag, and compare. */
  lemma RangeIsAppend(h: Hash, known: nat, path: seq<Digest>, bodies: seq<Digest>)
    requires |path| == Popcount(known)
    ensures Root(h, BodyLog(h, known, path, bodies)) == Bag(h, AppendAll(h, path, known, LeafHashes(h, bodies)))
  {
    RootIsAppend(h, BodyLog(h, known, path, bodies));
  }

  /** The proof a log gives for its leaves from sequence number `fromSeq` on. */
  function HonestRange(h: Hash, bodies: seq<Digest>, fromSeq: nat): RangeProof
    requires 1 <= fromSeq <= |bodies|
  {
    RangeProof(fromSeq, |bodies|, NodeCount(|bodies|), fromSeq - 1, |bodies| - 1,
               PeakHashes(h, FullBodyLog(h, bodies), fromSeq - 1))
  }

  /** A true log, described by its mountains before `known` and its bodies from there. */
  lemma DescribedRoot(h: Hash, bodies: seq<Digest>, known: nat)
    requires known <= |bodies|
    ensures var peaks := PeakHashes(h, FullBodyLog(h, bodies), known);
      Root(h, BodyLog(h, known, peaks, bodies[known..])) == Root(h, FullBodyLog(h, bodies))
  {
    hide AppendAll, PeakHashes, Bag, Popcount;
    var full := FullBodyLog(h, bodies);
    RangeIsAppend(h, known, PeakHashes(h, full, known), bodies[known..]);
    AppendAllPeaks(h, full, known);
    assert LeafHashes(h, bodies[known..]) == full.leaves[known..];
  }

  /** Completeness: every range to the end of a log is accepted. */
  lemma RangeComplete(h: Hash, bodies: seq<Digest>, fromSeq: nat)
    requires 1 <= fromSeq <= |bodies| && NodeCount(|bodies|) < MAX_MMR_SIZE
    ensures RangeAccepts(h, Root(h, FullBodyLog(h, bodies)), fromSeq, |bodies|, bodies[fromSeq - 1..],
                         HonestRange(h, bodies, fromSeq))
  {
    hide LeavesOf, Root, FullBodyLog, BodyLog, NodeCount, Popcount, PeakHashes;
    LeavesOfNodeCount(|bodies|);
    DescribedRoot(h, bodies, fromSeq - 1);
  }

  /** Everything hashed by a range check and by the true root. */
  ghost predicate RangeHashes(h: Hash, inputs: set<Bytes>, bodies: seq<Digest>, known: nat, path: seq<Digest>,
      shown: seq<Digest>) {
    && RootInputs(h, FullBodyLog(h, bodies)) <= inputs && LeafInputs(bodies) <= inputs
    && RootInputs(h, BodyLog(h, known, path, shown)) <= inputs && LeafInputs(shown) <= inputs
  }

  /** Range soundness. Against the root of a true log, an accepted range shows exactly
      that log's bodies at their sequence numbers, and its witness bags to the root
      of what comes before, provided the proof's size is the log's own, which the
      root forces whenever ForcesSize holds. */
  lemma RangeSound(h: Hash, inputs: set<Bytes>, bodies: seq<Digest>, fromSeq: int, toSeq: int, shown: seq<Digest>,
      proof: RangeProof)
    requires |bodies| > 0 && NodeCount(|bodies|) < Pow256(8)
    requires RangeAccepts(h, Root(h, FullBodyLog(h, bodies)), fromSeq, toSeq, shown, proof)
    requires CollisionFree(h, inputs) && RangeHashes(h, inputs, bodies, fromSeq - 1, proof.path, shown)
    ensures |shown| <= |bodies| && shown == bodies[|bodies| - |shown|..]
    ensures Bag(h, proof.path) == Root(h, FullBodyLog(h, bodies[..|bodies| - |shown|]))
    ensures ForcesSize(fromSeq - 1, |shown|) ==> proof.size == NodeCount(|bodies|)
    ensures proof.size == NodeCount(|bodies|) ==>
      && toSeq == |bodies| && shown == bodies[fromSeq - 1..]
      && Bag(h, proof.path) == Root(h, FullBodyLog(h, bodies[..fromSeq - 1]))
  {
    hide LeavesOf, Root, RootInputs, LeafInputs, CollisionFree, BodyLog, Bag, Pow256, NodeCount, Popcount, ForcesSize;
    var known := fromSeq - 1;
    LeavesOfNodeCount(|bodies|);
    assert SameBodyRoot(h, inputs, bodies, known, proof.path, shown) by { FullIsFull(h, bodies); }
    SizeInRange(proof.size);
    ShownAreLast(h, inputs, bodies, known, proof.path, shown);
    if ForcesSize(known, |shown|) { SizeForced(h, inputs, bodies, known, proof.path, shown); }
    if proof.size == NodeCount(|bodies|) { SameBodies(h, inputs, bodies, known, proof.path, shown); }
  }

  /** Where ForcesSize fails the size is not bound: a range of one leaf at an odd
      sequence number above 1 is accepted against the root of a longer log. */
  lemma RangeSizeNotForced(h: Hash, bodies: seq<Digest>, seqNo: nat) returns (proof: RangeProof)
    requires seqNo > 1 && seqNo % 2 == 1 && |bodies| == 2 * seqNo - 1
    requires NodeCount(seqNo) < MAX_MMR_SIZE
    ensures !ForcesSize(seqNo - 1, 1)
    ensures RangeAccepts(h, Root(h, FullBodyLog(h, bodies)), seqNo, seqNo, bodies[2 * seqNo - 2..], proof)
    ensures proof.size != NodeCount(|bodies|)
  {
    hide LeavesOf, Root, BodyLog, NodeCount, Popcount;
    var peaks := SizeNotForced(h, bodies, seqNo - 1);
    proof := RangeProof(seqNo, seqNo, NodeCount(seqNo), seqNo - 1, seqNo - 1, peaks);
    LeavesOfNodeCount(seqNo);
    NodeCountMonotone(seqNo, |bodies|);
  }

  lemma FullIsFull(h: Hash, bodies: seq<Digest>)
    ensures FullBodyLog(h, bodies) == Full(FullBodyLog(h, bodies).leaves)
  {}

  lemma SizeInRange(size: int)
    requires size < MAX_MMR_SIZE && LeavesOf(size).Some?
    ensures NodeCount(LeavesOf(size).value) < Pow256(8)
  {
    assert Pow256(4) == 0x1_0000_0000;
    assert Pow256(8) == 0x1_0000_0000_0000_0000;
  }

  /** The root binds the whole list: two nonempty lists of bodies with one root are
      the same list. */
  lemma RootBindsList(h: Hash, inputs: set<Bytes>, bodies: seq<Digest>, bodies': seq<Digest>)
    requires |bodies| > 0 && |bodies'| > 0
    requires NodeCount(|bodies|) < Pow256(8) && NodeCount(|bodies'|) < Pow256(8)
    requires CollisionFree(h, inputs) && RangeHashes(h, inputs, bodies, 0, [], bodies')
    requires Root(h, FullBodyLog(h, bodies)) == Root(h, FullBodyLog(h, bodies'))
    ensures bodies == bodies'
  {
    hide Root, RootInputs, LeafInputs, CollisionFree, BodyLog, Bag, Pow256, NodeCount;
    FullIsFull(h, bodies);
    assert SameBodyRoot(h, inputs, bodies, 0, [], bodies');
    SizeForced(h, inputs, bodies, 0, [], bodies');
    SameBodies(h, inputs, bodies, 0, [], bodies');
    assert bodies[0..] == bodies;
  }
}
