/** The tree proofs that are accepted against a list's own root are exactly the ones
    that the recursions of the RFC give, and small trees written out in octets. */
module MerkleExact {
  import opened Octets
  import opened Bits
  import opened Merkle

  // --------------------------------------------------------------- inclusion

  /** The sibling that a fold takes last, at the true size, is the far half's root. */
  lemma LastSibling(h: Hash, inputs: set<Bytes>, entries: seq<Bytes>, target: Digest, m: nat, path: seq<Bytes>)
    requires m < |entries| && |entries| > 1 && |path| == PathLen(|entries|, m)
    requires CollisionFree(h, inputs)
    requires TreeInputs(h, entries) <= inputs && FoldTop(h, target, |entries|, m, path) in inputs
    requires FoldPath(h, target, |entries|, m, path) == MerkleRoot(h, entries)
    ensures var k := SplitPoint(|entries|);
      path[|path| - 1] == if m < k then MerkleRoot(h, entries[k..]) else MerkleRoot(h, entries[..k])
  {
    hide SplitPoint, InnerSize, Skipped, TreeInputs, CollisionFree, MerkleRoot, NodeInput;
    var n := |entries|;
    var child := FoldPath(h, target, InnerSize(m, n), m - Skipped(m, n), path[..|path| - 1]);
    if m < SplitPoint(n) {
      NodeIsRoot(h, inputs, entries, child, path[|path| - 1]);
    } else {
      NodeIsRoot(h, inputs, entries, path[|path| - 1], child);
    }
  }

  lemma PathStep(h: Hash, entries: seq<Bytes>, m: nat)
    requires m < |entries| && |entries| > 1
    ensures var k := SplitPoint(|entries|);
      Path(h, Leaves(h, entries), m)
      == if m < k then Path(h, Leaves(h, entries[..k]), m) + [MerkleRoot(h, entries[k..])]
         else Path(h, Leaves(h, entries[k..]), m - k) + [MerkleRoot(h, entries[..k])]
  {
    LeavesSlice(h, entries, SplitPoint(|entries|));
    hide SplitPoint, Mth, Leaves;
  }

  /** At the true size, a fold that reaches the root took the honest path. */
  lemma {:induction false} PathFixed(h: Hash, inputs: set<Bytes>, entries: seq<Bytes>, entry: Bytes, m: nat,
      path: seq<Bytes>)
    requires m < |entries| && |path| == PathLen(|entries|, m)
    requires CollisionFree(h, inputs)
    requires TreeInputs(h, entries) <= inputs && FoldInputs(h, entry, |entries|, m, path) <= inputs
    requires FoldPath(h, LeafHash(h, entry), |entries|, m, path) == MerkleRoot(h, entries)
    ensures path == Path(h, Leaves(h, entries), m)
    decreases |entries|
  {
    hide SplitPoint, CollisionFree, MerkleRoot, TreeInputs, FoldTop, LeafInput, Leaves;
    if |entries| > 1 {
      var half := FoldDescends(h, inputs, entries, LeafHash(h, entry), |entries|, m, path);
      LastSibling(h, inputs, entries, LeafHash(h, entry), m, path);
      PathFixed(h, inputs, half, entry, m - Skipped(m, |entries|), path[..|path| - 1]);
      PathStep(h, entries, m);
      WithLast(path);
    }
  }

  /** Against a list's own root and size, an audit path rebuilds the root if and only if
      it is the list's own path for the entry at that index. */
  lemma InclusionExact(h: Hash, inputs: set<Bytes>, entries: seq<Bytes>, entry: Bytes, index: int, path: seq<Bytes>)
    requires CollisionFree(h, inputs) && TreeInputs(h, entries) <= inputs
    requires PathFits(index, |entries|, path) ==> FoldInputs(h, entry, |entries|, index, path) <= inputs
    ensures RootFromPath(h, entry, index, |entries|, path) == Some(MerkleRoot(h, entries)) <==>
      && 0 <= index < |entries| <= Pow2(62)
      && entry == entries[index] && path == Path(h, Leaves(h, entries), index)
  {
    hide MerkleRoot, CollisionFree, TreeInputs, FoldInputs, FoldPath, PathLen, Path, Pow2;
    MaxTreeSizeIsPow2();
    if RootFromPath(h, entry, index, |entries|, path) == Some(MerkleRoot(h, entries)) {
      InclusionSound(h, inputs, entries, entry, |entries|, index, path);
      PathFixed(h, inputs, entries, entry, index, path);
    }
    if 0 <= index < |entries| <= MAX_TREE_SIZE { InclusionComplete(h, entries, index); }
  }

  // ------------------------------------------------------------- consistency

  lemma SameSeeded(first: Bytes, m: nat, proof: seq<Bytes>, first': Bytes, proof': seq<Bytes>)
    requires Seeded(first, m, proof) == Seeded(first', m, proof')
    ensures proof == proof'
  {
    if IsPow2(m) {
      assert proof == Seeded(first, m, proof)[1..] && proof' == Seeded(first', m, proof')[1..];
    }
  }

  /** Against a list's own root, and from a seed of 32 octets, a consistency proof is
      accepted if and only if it is the recursive one, for the list's own old root. */
  lemma ConsistencyExact(h: Hash, inputs: set<Bytes>, entries: seq<Bytes>, first: Bytes, m: int, proof: seq<Bytes>)
    requires CollisionFree(h, inputs)
    requires AcceptedInputs(h, first, m, |entries|, proof) <= inputs
    requires 0 < m <= |entries| ==>
      AcceptedInputs(h, MerkleRoot(h, entries[..m]), m, |entries|, ConsistencyProof(h, entries, m, |entries|)) <= inputs
    requires m > 0 ==> SeedLength(first, m, |entries|, proof) == 32
    ensures Consistent(h, first, MerkleRoot(h, entries), m, |entries|, proof) <==>
      && 0 <= m <= |entries| && proof == ConsistencyProof(h, entries, m, |entries|)
      && (m > 0 ==> first == MerkleRoot(h, entries[..m]))
  {
    hide MerkleRoot, CollisionFree, AcceptedInputs, Roots, Subproof, ProofLen;
    var n := |entries|;
    assert entries[..n] == entries;
    if 0 <= m <= n { ConsistencyComplete(h, entries, m, n); }
    if 0 < m <= n && Consistent(h, first, MerkleRoot(h, entries), m, n, proof) {
      ConsistencySound(h, inputs, entries, first, m, proof);
      ConsistencyFixed(h, inputs, entries, m, proof);
    }
  }

  lemma ConsistencyFixed(h: Hash, inputs: set<Bytes>, entries: seq<Bytes>, m: nat, proof: seq<Bytes>)
    requires 0 < m <= |entries| && CollisionFree(h, inputs)
    requires AcceptedInputs(h, MerkleRoot(h, entries[..m]), m, |entries|, proof) <= inputs
    requires
      AcceptedInputs(h, MerkleRoot(h, entries[..m]), m, |entries|, ConsistencyProof(h, entries, m, |entries|)) <= inputs
    requires SeedLength(MerkleRoot(h, entries[..m]), m, |entries|, proof) == 32
    requires Consistent(h, MerkleRoot(h, entries[..m]), MerkleRoot(h, entries), m, |entries|, proof)
    ensures proof == ConsistencyProof(h, entries, m, |entries|)
  {
    hide MerkleRoot, CollisionFree, Roots, Subproof, ProofLen, RootsInputs;
    var n, first := |entries|, MerkleRoot(h, entries[..m]);
    assert entries[..n] == entries;
    var honest := ConsistencyProof(h, entries, m, n);
    ConsistencyComplete(h, entries, m, n);
    HonestSeed(h, entries, m);
    if m < n {
      NewRootFixesProof(h, inputs, m, n, Seeded(first, m, proof), Seeded(first, m, honest));
      SameSeeded(first, m, proof, first, honest);
    }
  }

  // ---------------------------------------------------------- in plain octets

  /** Leaf and node inputs: a prefix octet, then the parts in order. */
  lemma InputLayout(entry: Bytes, left: Digest, right: Digest)
    ensures |LeafInput(entry)| == 1 + |entry| && LeafInput(entry)[0] == 0x00 && LeafInput(entry)[1..] == entry
    ensures var b := NodeInput(left, right);
      |b| == 65 && b[0] == 0x01 && b[1..33] == left && b[33..65] == right
  {}

  /** The roots of up to four entries, written out. */
  lemma SmallRootsInOctets(h: Hash, a: Bytes, b: Bytes, c: Bytes, d: Bytes)
    ensures MerkleRoot(h, []) == h([])
    ensures MerkleRoot(h, [a]) == h([0x00] + a)
    ensures MerkleRoot(h, [a, b]) == h([0x01] + h([0x00] + a) + h([0x00] + b))
    ensures MerkleRoot(h, [a, b, c])
         == h([0x01] + h([0x01] + h([0x00] + a) + h([0x00] + b)) + h([0x00] + c))
    ensures MerkleRoot(h, [a, b, c, d])
         == h([0x01] + h([0x01] + h([0x00] + a) + h([0x00] + b)) + h([0x01] + h([0x00] + c) + h([0x00] + d)))
  {
    var x, y, z, w := LeafHash(h, a), LeafHash(h, b), LeafHash(h, c), LeafHash(h, d);
    assert Leaves(h, [a, b]) == [x] + [y] && Leaves(h, [a, b, c]) == [x, y, z];
    assert Leaves(h, [a, b, c, d]) == [x, y, z, w];
    assert [x] + [y] == [x, y] && Leaves(h, [a]) == [x] && Leaves(h, []) == [];
    hide SplitPoint, Leaves;
    MthOneLevel(h, [x], [y], 0);
    SmallRoots(h, x, y, z, w);
  }

  /** The tree hash of any list splits after the largest power of two below its length. */
  lemma RootSplits(h: Hash, left: seq<Bytes>, right: seq<Bytes>, a: nat)
    requires |left| == Pow2(a) && 0 < |right| <= |left|
    ensures MerkleRoot(h, left + right) == h([0x01] + MerkleRoot(h, left) + MerkleRoot(h, right))
  {
    hide Mth, Pow2, SplitPoint;
    assert Leaves(h, left + right) == Leaves(h, left) + Leaves(h, right);
    MthOneLevel(h, Leaves(h, left), Leaves(h, right), a);
  }
}
