/** The range check as it runs: a recursive rebuild of every mountain that takes
    hashes from the witness through one shared cursor. */
module CllRange {
  import opened Octets
  import opened Bits
  import opened MmrPositions
  import opened CllPositions
  import opened MmrTree
  import opened MmrBinding
  import opened MmrSoundness
  import opened MmrProofs
  import opened CllVerifier

  class Cursor {
    var at: nat

    constructor ()
      ensures at == 0
    {
      at := 0;
    }
  }

  /** Witness hashes used once every leaf before y has been covered: one for each
      mountain of the first `lo` leaves that ends at or before y. */
  ghost function Consumed(lo: nat, y: nat): nat {
    if y >= lo then Popcount(lo) else Popcount(y)
  }

  lemma ConsumedByPeak(lo: nat, n: Node)
    requires IsPeak(n, lo)
    ensures Consumed(lo, n.x) == Popcount(n.x) < Popcount(lo)
    ensures Consumed(lo, End(n)) == Popcount(n.x) + 1
  {
    hide Aligned, Pow2, Popcount, PeakList, NodeCount, PosOf;
    Doubling(n.a);
    PopcountSplit(n.x, Pow2(n.a), n.a + 1);
    PopcountPow2(n.a);
    PeakIndex(n, lo);
  }

  lemma ConsumedMonotone(lo: nat, n: Node)
    requires IsNode(n) && (End(n) <= lo ==> IsPeak(n, lo))
    ensures Consumed(lo, n.x) <= Consumed(lo, End(n))
  {
    if End(n) <= lo {
      ConsumedByPeak(lo, n);
    } else if n.x < lo {
      PopcountSplit(n.x, lo - n.x, n.a);
    }
  }

  /** A subtree before the range is a mountain of the known part: the next witness. */
  lemma KnownSubtree(h: Hash, log: Log, n: Node)
    requires Visible(log, n) && End(n) <= log.known
    ensures Consumed(log.known, End(n)) == Consumed(log.known, n.x) + 1
    ensures Consumed(log.known, n.x) < |log.peaks| ==> NodeHash(h, log, n) == log.peaks[Consumed(log.known, n.x)]
  {
    hide Consumed, IsNode, IsPeak, Popcount, Pow2;
    ConsumedByPeak(log.known, n);
  }

  lemma VisibleNode(log: Log, n: Node)
    requires Visible(log, n)
    ensures IsNode(n) && End(n) <= log.Count()
  {}

  lemma ShownLeaf(h: Hash, lo: nat, path: seq<Digest>, bodies: seq<Digest>, n: Node)
    requires Visible(BodyLog(h, lo, path, bodies), n) && n.a == 0 && End(n) > lo
    ensures End(n) == n.x + 1 && lo <= n.x < lo + |bodies|
    ensures NodeHash(h, BodyLog(h, lo, path, bodies), n) == LeafHash(h, bodies[n.x - lo])
    ensures Consumed(lo, n.x) == Consumed(lo, End(n))
  {
    hide Popcount, IsNode, IsPeak;
  }

  /** Rebuild the hash of the subtree at `pos`, covering the 2^height leaves from
      leafStart, from the bodies inside [lo, hi] and from the witness for what lies
      before. Fails exactly when the witness runs out. */
  method ReconstructRangeSubtree(h: Hash, pos: nat, height: nat, leafStart: nat, lo: nat, hi: nat,
      bodies: seq<Digest>, path: seq<Digest>, cursor: Cursor, ghost n: Node) returns (r: Option<Digest>)
    requires n == Node(leafStart, height) && pos == PosOf(n)
    requires |bodies| == hi + 1 - lo && Visible(BodyLog(h, lo, path, bodies), n) && n.x <= hi
    requires cursor.at == Consumed(lo, n.x) <= |path|
    modifies cursor
    ensures r.Some? <==> Consumed(lo, End(n)) <= |path|
    ensures r.Some? ==> cursor.at == Consumed(lo, End(n))
    ensures r.Some? ==> r.value == NodeHash(h, BodyLog(h, lo, path, bodies), n)
    decreases height
  {
    hide NodeHash, Pow2, IsNode, PosOf, NodeCount, IsPeak, Visible, Popcount, Consumed, InteriorHash, BodyLog;
    ghost var log := BodyLog(h, lo, path, bodies);
    var leafEnd := leafStart + Pow2(height) - 1;
    if leafEnd < lo || leafStart > hi {
      KnownSubtree(h, log, n);
      assert log.peaks == path;
      if cursor.at >= |path| { return None; }
      var w := path[cursor.at];
      cursor.at := cursor.at + 1;
      return Some(w);
    }
    if height == 0 {
      ShownLeaf(h, lo, path, bodies, n);
      return Some(LeafHash(h, bodies[leafStart - lo]));
    }
    var half := Pow2(height - 1);
    VisibleNode(log, n);
    hide End;
    VisibleChildren(log, n);
    NodeHashStep(h, log, n);
    ChildrenPositions(n);
    VisibleMonotone(log, Right(n));
    VisibleMonotone(log, Left(n));
    var left := ReconstructRangeSubtree(h, pos - Pow2(height), height - 1, leafStart, lo, hi, bodies, path, cursor,
      Left(n));
    if left.None? { return None; }
    var right := ReconstructRangeSubtree(h, pos - 1, height - 1, leafStart + half, lo, hi, bodies, path, cursor,
      Right(n));
    if right.None? { return None; }
    return Some(InteriorHash(h, left.value, right.value, pos));
  }

  lemma VisibleMonotone(log: Log, n: Node)
    requires Visible(log, n)
    ensures Consumed(log.known, n.x) <= Consumed(log.known, End(n))
    ensures n.x < log.Count()
  {
    ConsumedMonotone(log.known, n);
    NodeBounds(n);
  }

  method VerifyRange(h: Hash, root: Bytes, fromSeq: int, toSeq: int, bodies: seq<Bytes>, proof: RangeProof)
    returns (ok: bool)
    ensures ok <==> RangeAccepts(h, root, fromSeq, toSeq, bodies, proof)
  {
    hide LeavesOf, BodyLog, Root, Popcount, PeakList, NodeCount;
    if |root| != 32 { return false; }
    if proof.fromSeq != fromSeq || proof.toSeq != toSeq { return false; }
    if fromSeq < 1 || toSeq < fromSeq { return false; }
    var lc := LeafCount(proof.size);
    NegativeSize(proof.size);
    if lc != Some(toSeq) { return false; }
    var fromIndex, toIndex := proof.fromIndex, proof.toIndex;
    if fromIndex != fromSeq - 1 || toIndex != toSeq - 1 { return false; }
    if |bodies| != toIndex - fromIndex + 1 { return false; }
    if !AllDigests(bodies) || !AllDigests(proof.path) { return false; }
    ok := RebuildPeaks(h, root, proof.size, fromIndex, toIndex, bodies, proof.path);
  }

  lemma NegativeSize(size: int)
    ensures LeavesOf(size).Some? ==> size >= 0
  {}

  /** The loop of VerifyRange over the mountains, and the final comparison. */
  method RebuildPeaks(h: Hash, root: Bytes, size: int, lo: nat, hi: nat, bodies: seq<Digest>, path: seq<Digest>)
    returns (ok: bool)
    requires 0 <= size < MAX_MMR_SIZE && LeavesOf(size) == Some(hi + 1)
    requires lo <= hi && |bodies| == hi + 1 - lo
    ensures ok <==> |path| == Popcount(lo) && Root(h, BodyLog(h, lo, path, bodies)) == root
  {
    ghost var log, f := BodyLog(h, lo, path, bodies), hi + 1;
    hide LeavesOf, BodyLog, Popcount, PeakList, NodeCount, PeakHashes, NodeHash, Consumed, Bag, Visible, IsNode, PosOf,
      IsPeak, Pow2;
    var pks := Peaks(size);
    var cursor := new Cursor();
    var leafStart: nat := 0;
    var reconstructed: seq<Digest> := [];
    ConsumedEnds(lo, f);
    EmptyHashes(h, log);
    PeaksAdjoin(f, 0);
    var i := 0;
    while i < |pks.value|
      invariant 0 <= i <= |pks.value|
      invariant leafStart == if i < |pks.value| then PeakList(f)[i].x else f
      invariant leafStart <= f && cursor.at == Consumed(lo, leafStart) <= |path|
      invariant reconstructed == PeakHashes(h, log, leafStart)
    {
      ghost var n := PeakList(f)[i];
      PeakAt(f, i);
      PeaksAdjoin(f, i);
      PeakIsNode(n, f);
      NodeAtPosOf(n);
      PeakVisible(log, n);
      VisibleMonotone(log, n);
      NextPeakHash(h, log, n, f);
      ConsumedBound(lo, f, n);
      var height := HeightAt(pks.value[i]);
      var r := ReconstructRangeSubtree(h, pks.value[i], height, leafStart, lo, hi, bodies, path, cursor, n);
      if r.None? { return false; }
      reconstructed := reconstructed + [r.value];
      leafStart := leafStart + Pow2(height);
      i := i + 1;
    }
    if cursor.at != |path| { return false; }
    var computedRoot := RootFromPeaks(h, reconstructed);
    return computedRoot == root;
  }

  lemma ConsumedEnds(lo: nat, f: nat)
    requires lo <= f
    ensures Consumed(lo, 0) == 0 && Consumed(lo, f) == Popcount(lo)
  {}

  lemma EmptyHashes(h: Hash, log: Log)
    ensures PeakHashes(h, log, 0) == []
  {}

  lemma NextPeakHash(h: Hash, log: Log, n: Node, f: nat)
    requires IsPeak(n, f) && f <= log.Count()
    ensures End(n) <= log.Count() && n.x <= log.Count()
    ensures PeakHashes(h, log, End(n)) == PeakHashes(h, log, n.x) + [NodeHash(h, log, n)]
  {
    hide PeakHashes, NodeHash, Pow2, Aligned;
    PeakHashesNext(h, log, n);
  }

  /** At a mountain of the longer log, no more than all mountains have been used. */
  lemma ConsumedBound(lo: nat, f: nat, n: Node)
    requires lo <= f && IsPeak(n, f)
    ensures Consumed(lo, End(n)) <= Popcount(lo)
  {
    if End(n) < lo {
      PeakIsNode(n, f);
      ConsumedByPeak(lo, n);
    }
  }
}
