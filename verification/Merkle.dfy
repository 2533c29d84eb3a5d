/** The RFC 6962 / RFC 9162 SHA-256 tree: hashes, audit paths and consistency
    proofs as recursions on the largest power of two below the size. */
module Merkle {
  import opened Octets
  import opened Bits

  const MAX_TREE_SIZE: nat := 0x4000_0000_0000_0000

  lemma MaxTreeSizeIsPow2()
    ensures Pow2(62) == MAX_TREE_SIZE
  {
    assert Pow2(8) == 0x100;
    assert Pow2(16) == 0x1_0000;
    assert Pow2(24) == 0x100_0000;
    assert Pow2(32) == 0x1_0000_0000;
    assert Pow2(40) == 0x100_0000_0000;
    assert Pow2(48) == 0x1_0000_0000_0000;
    assert Pow2(56) == 0x100_0000_0000_0000;
  }

  /** The largest power of two strictly below n. */
  function SplitPoint(n: nat): (k: nat)
    requires n > 1
    ensures 0 < k < n <= 2 * k
  {
    Pow2(TopBit(n - 1))
  }

  lemma SplitPointUnique(n: nat, a: nat)
    requires Pow2(a) < n <= 2 * Pow2(a)
    ensures SplitPoint(n) == Pow2(a)
  {
    Pow2Monotone(a, TopBit(n - 1));
    Pow2Monotone(TopBit(n - 1), a);
  }

  /** The size of the half that holds leaf i, and the number of leaves before it. */
  function InnerSize(i: nat, n: nat): (n': nat)
    requires i < n && n > 1
    ensures 0 < n' < n && Skipped(i, n) <= i < Skipped(i, n) + n'
  {
    if i < SplitPoint(n) then SplitPoint(n) else n - SplitPoint(n)
  }

  function Skipped(i: nat, n: nat): nat
    requires i < n && n > 1
  {
    if i < SplitPoint(n) then 0 else SplitPoint(n)
  }

  // ---------------------------------------------------------------- hashes

  function LeafInput(entry: Bytes): Bytes { [0] + entry }

  function NodeInput(left: Bytes, right: Bytes): Bytes { [1] + left + right }

  function LeafHash(h: Hash, entry: Bytes): Digest { h(LeafInput(entry)) }

  function NodeHash(h: Hash, left: Bytes, right: Bytes): Digest { h(NodeInput(left, right)) }

  function Leaves(h: Hash, entries: seq<Bytes>): (leaves: seq<Digest>)
    ensures |leaves| == |entries|
    ensures forall i | 0 <= i < |entries| :: leaves[i] == LeafHash(h, entries[i])
  {
    seq(|entries|, i requires 0 <= i < |entries| => LeafHash(h, entries[i]))
  }

  function Mth(h: Hash, leaves: seq<Digest>): Digest {
    if leaves == [] then h([])
    else if |leaves| == 1 then leaves[0]
    else
      var k := SplitPoint(|leaves|);
      NodeHash(h, Mth(h, leaves[..k]), Mth(h, leaves[k..]))
  }

  function MerkleRoot(h: Hash, entries: seq<Bytes>): Digest {
    Mth(h, Leaves(h, entries))
  }

  lemma LeavesSlice(h: Hash, entries: seq<Bytes>, k: nat)
    requires k <= |entries|
    ensures Leaves(h, entries[..k]) == Leaves(h, entries)[..k]
    ensures Leaves(h, entries[k..]) == Leaves(h, entries)[k..]
  {}

  // ----------------------------------------------------------- audit paths

  /** Depth of leaf m in a tree of `size` leaves. */
  function PathLen(size: nat, m: nat): nat
    requires m < size
  {
    if size == 1 then 0 else 1 + PathLen(InnerSize(m, size), m - Skipped(m, size))
  }

  /** The half of the leaves that holds leaf m, and the other one. */
  function Near(leaves: seq<Digest>, m: nat): (half: seq<Digest>)
    requires m < |leaves| && |leaves| > 1
    ensures |half| == InnerSize(m, |leaves|) && half[m - Skipped(m, |leaves|)] == leaves[m]
  {
    var k := SplitPoint(|leaves|);
    if m < k then leaves[..k] else leaves[k..]
  }

  function Far(leaves: seq<Digest>, m: nat): seq<Digest>
    requires m < |leaves| && |leaves| > 1
  {
    var k := SplitPoint(|leaves|);
    if m < k then leaves[k..] else leaves[..k]
  }

  /** The audit path of leaf m, innermost sibling first. */
  function Path(h: Hash, leaves: seq<Digest>, m: nat): (path: seq<Digest>)
    requires m < |leaves|
    ensures |path| == PathLen(|leaves|, m)
    decreases |leaves|
  {
    if |leaves| == 1 then []
    else Path(h, Near(leaves, m), m - Skipped(m, |leaves|)) + [Mth(h, Far(leaves, m))]
  }

  /** The root obtained by folding `target` up a path of the right length. */
  function FoldPath(h: Hash, target: Digest, size: nat, m: nat, path: seq<Bytes>): Digest
    requires m < size && |path| == PathLen(size, m)
    decreases size, 1
  {
    if size == 1 then target
    else h(FoldTop(h, target, size, m, path))
  }

  /** The input of the last hash of a fold. */
  function FoldTop(h: Hash, target: Digest, size: nat, m: nat, path: seq<Bytes>): Bytes
    requires m < size && size > 1 && |path| == PathLen(size, m)
    decreases size, 0
  {
    var sibling := path[|path| - 1];
    var child := FoldPath(h, target, InnerSize(m, size), m - Skipped(m, size), path[..|path| - 1]);
    if m < SplitPoint(size) then NodeInput(child, sibling) else NodeInput(sibling, child)
  }

  /** Adding the outermost sibling to a path of the inner half. */
  lemma FoldExtend(h: Hash, target: Digest, size: nat, m: nat, inner: seq<Bytes>, sibling: Bytes)
    requires m < size && size > 1 && |inner| == PathLen(InnerSize(m, size), m - Skipped(m, size))
    ensures |inner + [sibling]| == PathLen(size, m)
    ensures var child := FoldPath(h, target, InnerSize(m, size), m - Skipped(m, size), inner);
      FoldPath(h, target, size, m, inner + [sibling])
      == if m < SplitPoint(size) then NodeHash(h, child, sibling) else NodeHash(h, sibling, child)
  {
    hide SplitPoint, InnerSize, Skipped;
    assert (inner + [sibling])[..|inner|] == inner;
  }

  /** A path can be folded: index and size are in range and the length is exact. */
  predicate PathFits(index: int, size: int, path: seq<Bytes>) {
    0 <= index < size <= MAX_TREE_SIZE && |path| == PathLen(size, index)
  }

  function RootFromPath(h: Hash, entry: Bytes, index: int, size: int, path: seq<Bytes>): Option<Digest> {
    if PathFits(index, size, path) then Some(FoldPath(h, LeafHash(h, entry), size, index, path)) else None
  }

  lemma SplitWithin(size: nat, a: nat)
    requires 1 < size <= Pow2(a)
    ensures a > 0 && SplitPoint(size) <= Pow2(a - 1) && size - SplitPoint(size) <= Pow2(a - 1)
  {
    assert Pow2(0) == 1;
    Pow2Monotone(a, TopBit(size - 1));
    Pow2Monotone(TopBit(size - 1), a - 1);
  }

  lemma {:induction false} PathLenBound(size: nat, m: nat, a: nat)
    requires m < size <= Pow2(a)
    ensures PathLen(size, m) <= a
    decreases a
  {
    hide SplitPoint, Pow2;
    if size > 1 {
      SplitWithin(size, a);
      PathLenBound(InnerSize(m, size), m - Skipped(m, size), a - 1);
    }
  }

  /** No tree the verifier accepts needs a path longer than 62. */
  lemma PathAtMost62(index: nat, size: nat)
    requires index < size <= MAX_TREE_SIZE
    ensures PathLen(size, index) <= 62
  {
    MaxTreeSizeIsPow2();
    PathLenBound(size, index, 62);
  }

  lemma {:induction false} HonestPathFolds(h: Hash, leaves: seq<Digest>, m: nat)
    requires m < |leaves|
    ensures FoldPath(h, leaves[m], |leaves|, m, Path(h, leaves, m)) == Mth(h, leaves)
    decreases |leaves|
  {
    if |leaves| > 1 {
      var inner := Path(h, Near(leaves, m), m - Skipped(m, |leaves|));
      HonestPathFolds(h, Near(leaves, m), m - Skipped(m, |leaves|));
      assert Path(h, leaves, m)[..|inner|] == inner;
    }
  }

  /** Inclusion is complete: every entry's own path rebuilds the root, in any
      tree within the size ceiling. */
  lemma InclusionComplete(h: Hash, entries: seq<Bytes>, index: nat)
    requires index < |entries| <= MAX_TREE_SIZE
    ensures RootFromPath(h, entries[index], index, |entries|, Path(h, Leaves(h, entries), index))
         == Some(MerkleRoot(h, entries))
  {
    HonestPathFolds(h, Leaves(h, entries), index);
  }

  // -------------------------------------------- inclusion: inputs and soundness

  /** Everything hashed above the leaves when the tree hash is computed. */
  function MthInputs(h: Hash, leaves: seq<Digest>): set<Bytes> {
    if leaves == [] then {[]}
    else if |leaves| == 1 then {}
    else
      var k := SplitPoint(|leaves|);
      {NodeInput(Mth(h, leaves[..k]), Mth(h, leaves[k..]))}
      + MthInputs(h, leaves[..k]) + MthInputs(h, leaves[k..])
  }

  /** Everything hashed when the root of `entries` is computed. */
  function TreeInputs(h: Hash, entries: seq<Bytes>): set<Bytes> {
    (set e | e in entries :: LeafInput(e)) + MthInputs(h, Leaves(h, entries))
  }

  /** Everything hashed when a path is folded. */
  function FoldInputs(h: Hash, entry: Bytes, size: nat, m: nat, path: seq<Bytes>): set<Bytes>
    requires m < size && |path| == PathLen(size, m)
  {
    if size == 1 then {LeafInput(entry)}
    else {FoldTop(h, LeafHash(h, entry), size, m, path)}
         + FoldInputs(h, entry, InnerSize(m, size), m - Skipped(m, size), path[..|path| - 1])
  }

  /** One level of the tree hash over at least two entries. */
  lemma RootUnfold(h: Hash, entries: seq<Bytes>)
    requires |entries| > 1
    ensures var k := SplitPoint(|entries|);
      var (l, r) := (MerkleRoot(h, entries[..k]), MerkleRoot(h, entries[k..]));
      && MerkleRoot(h, entries) == NodeHash(h, l, r)
      && NodeInput(l, r) in TreeInputs(h, entries)
      && TreeInputs(h, entries[..k]) <= TreeInputs(h, entries)
      && TreeInputs(h, entries[k..]) <= TreeInputs(h, entries)
  {
    LeavesSlice(h, entries, SplitPoint(|entries|));
  }

  lemma NodeInputSplits(a: Bytes, b: Bytes, c: Bytes, d: Bytes)
    requires NodeInput(a, b) == NodeInput(c, d)
    requires |a| == |c| || |b| == |d|
    ensures a == c && b == d
  {
    assert NodeInput(a, b)[1..] == a + b && NodeInput(c, d)[1..] == c + d;
    assert |a + b| == |c + d|;
    SplitAt(a, b, c, d);
  }

  /** Equal node hashes of hashed inputs have equal children. */
  lemma NodeHashBinds(h: Hash, inputs: set<Bytes>, a: Bytes, b: Bytes, c: Bytes, d: Bytes)
    requires CollisionFree(h, inputs)
    requires NodeInput(a, b) in inputs && NodeInput(c, d) in inputs
    requires NodeHash(h, a, b) == NodeHash(h, c, d)
    requires |a| == |c| || |b| == |d|
    ensures a == c && b == d
  {
    NoCollision(h, inputs, NodeInput(a, b), NodeInput(c, d));
    NodeInputSplits(a, b, c, d);
  }

  /** A node hash that is the root of `entries` is the hash of its two halves. */
  lemma NodeIsRoot(h: Hash, inputs: set<Bytes>, entries: seq<Bytes>, left: Bytes, right: Bytes)
    requires CollisionFree(h, inputs)
    requires TreeInputs(h, entries) <= inputs && NodeInput(left, right) in inputs
    requires NodeHash(h, left, right) == MerkleRoot(h, entries)
    requires |left| == 32 || |right| == 32
    ensures |entries| > 1
    ensures var k := SplitPoint(|entries|);
      left == MerkleRoot(h, entries[..k]) && right == MerkleRoot(h, entries[k..])
  {
    var top := NodeInput(left, right);
    assert top[0] == 1;
    if |entries| == 0 {
      NoCollision(h, inputs, top, []);
    } else if |entries| == 1 {
      assert LeafInput(entries[0]) in TreeInputs(h, entries);
      assert LeafInput(entries[0])[0] == 0;
      NoCollision(h, inputs, top, LeafInput(entries[0]));
    } else {
      var k := SplitPoint(|entries|);
      RootUnfold(h, entries);
      NodeHashBinds(h, inputs, left, right, MerkleRoot(h, entries[..k]), MerkleRoot(h, entries[k..]));
    }
  }

  /** A fold and a tree with one root, one level down: the fold's child is the root
      of a half of the tree, the one that the claimed index points into. */
  lemma FoldDescends(h: Hash, inputs: set<Bytes>, entries: seq<Bytes>, target: Digest, size: nat, m: nat,
      path: seq<Bytes>) returns (half: seq<Bytes>)
    requires m < size && size > 1 && |path| == PathLen(size, m)
    requires CollisionFree(h, inputs)
    requires TreeInputs(h, entries) <= inputs && FoldTop(h, target, size, m, path) in inputs
    requires FoldPath(h, target, size, m, path) == MerkleRoot(h, entries)
    ensures |entries| > 1
    ensures var k := SplitPoint(|entries|);
      half == if m < SplitPoint(size) then entries[..k] else entries[k..]
    ensures FoldPath(h, target, InnerSize(m, size), m - Skipped(m, size), path[..|path| - 1]) == MerkleRoot(h, half)
    ensures TreeInputs(h, half) <= inputs
  {
    hide SplitPoint, InnerSize, Skipped, TreeInputs, CollisionFree, MerkleRoot, NodeInput;
    var child := FoldPath(h, target, InnerSize(m, size), m - Skipped(m, size), path[..|path| - 1]);
    if m < SplitPoint(size) {
      NodeIsRoot(h, inputs, entries, child, path[|path| - 1]);
      half := entries[..SplitPoint(|entries|)];
    } else {
      NodeIsRoot(h, inputs, entries, path[|path| - 1], child);
      half := entries[SplitPoint(|entries|)..];
    }
    RootUnfold(h, entries);
  }

  /** A leaf hash that is the root of `entries` makes them a single entry. */
  lemma LeafIsRoot(h: Hash, inputs: set<Bytes>, entries: seq<Bytes>, entry: Bytes)
    requires CollisionFree(h, inputs)
    requires TreeInputs(h, entries) <= inputs && LeafInput(entry) in inputs
    requires LeafHash(h, entry) == MerkleRoot(h, entries)
    ensures entries == [entry]
  {
    assert LeafInput(entry)[0] == 0;
    if |entries| == 0 {
      NoCollision(h, inputs, LeafInput(entry), []);
    } else if |entries| == 1 {
      assert LeafInput(entries[0]) in TreeInputs(h, entries);
      NoCollision(h, inputs, LeafInput(entry), LeafInput(entries[0]));
      assert LeafInput(entry)[1..] == entry && LeafInput(entries[0])[1..] == entries[0];
    } else {
      RootUnfold(h, entries);
      var k := SplitPoint(|entries|);
      var top := NodeInput(MerkleRoot(h, entries[..k]), MerkleRoot(h, entries[k..]));
      assert top[0] == 1;
      NoCollision(h, inputs, LeafInput(entry), top);
    }
  }

  /** Domain separation. Whatever index and size a prover claims, and whatever
      the lengths of the siblings, a path that folds to the root of `entries`
      starts at one of the entries; with the true size, at the claimed one. */
  lemma {:induction false} InclusionSound(
      h: Hash, inputs: set<Bytes>, entries: seq<Bytes>, entry: Bytes, size: nat, m: nat, path: seq<Bytes>)
    requires m < size && |path| == PathLen(size, m)
    requires CollisionFree(h, inputs)
    requires TreeInputs(h, entries) <= inputs && FoldInputs(h, entry, size, m, path) <= inputs
    requires FoldPath(h, LeafHash(h, entry), size, m, path) == MerkleRoot(h, entries)
    ensures entry in entries
    ensures size == |entries| ==> entries[m] == entry
    decreases size
  {
    hide SplitPoint, CollisionFree, MerkleRoot, TreeInputs, FoldTop, LeafInput;
    if size == 1 {
      LeafIsRoot(h, inputs, entries, entry);
    } else {
      var half := FoldDescends(h, inputs, entries, LeafHash(h, entry), size, m, path);
      InclusionSound(h, inputs, half, entry, InnerSize(m, size), m - Skipped(m, size), path[..|path| - 1]);
    }
  }

  // ---------------------------------------------------- consistency proofs

  /** Length of SUBPROOF(m, D[n], false) without its innermost node. */
  function ProofLen(m: nat, n: nat): nat
    requires 0 < m <= n
    decreases n
  {
    if m == n then 0 else 1 + ProofLen(m - Skipped(m - 1, n), InnerSize(m - 1, n))
  }

  function Subproof(h: Hash, m: nat, leaves: seq<Digest>, b: bool): seq<Digest>
    requires 0 < m <= |leaves|
    decreases |leaves|
  {
    if m == |leaves| then (if b then [] else [Mth(h, leaves)])
    else
      Subproof(h, m - Skipped(m - 1, |leaves|), Near(leaves, m - 1), b && m <= SplitPoint(|leaves|))
      + [Mth(h, Far(leaves, m - 1))]
  }

  function ConsistencyProof(h: Hash, entries: seq<Bytes>, m: nat, n: nat): seq<Digest>
    requires m <= n <= |entries|
  {
    if m == 0 || m == n then [] else Subproof(h, m, Leaves(h, entries[..n]), true)
  }

  /** Top-down reading of a proof: the old and the new root it rebuilds, its first
      node being the subtree the old tree ends with. */
  function Roots(h: Hash, m: nat, n: nat, proof: seq<Bytes>): (Bytes, Bytes)
    requires 0 < m <= n && |proof| == 1 + ProofLen(m, n)
    decreases n
  {
    if m == n then (proof[0], proof[0])
    else
      var node := proof[|proof| - 1];
      var (fr, sr) := Roots(h, m - Skipped(m - 1, n), InnerSize(m - 1, n), proof[..|proof| - 1]);
      if m <= SplitPoint(n) then (fr, NodeHash(h, sr, node))
      else (NodeHash(h, node, fr), NodeHash(h, node, sr))
  }

  predicate IsPow2(m: nat) { Popcount(m) == 1 }

  /** The proof with the seed the verifier puts in front. */
  function Seeded(first: Bytes, m: nat, proof: seq<Bytes>): seq<Bytes> {
    if IsPow2(m) then [first] + proof else proof
  }

  /** What a consistency proof is accepted for, for any arguments. */
  predicate Consistent(h: Hash, first: Bytes, second: Bytes, m: int, n: int, proof: seq<Bytes>) {
    if m < 0 || m > n then false
    else if m == 0 then proof == []
    else if m == n then proof == [] && first == second
    else
      && |Seeded(first, m, proof)| == 1 + ProofLen(m, n)
      && Roots(h, m, n, Seeded(first, m, proof)) == (first, second)
  }

  lemma SplitPointIsPow2(n: nat)
    requires n > 1
    ensures IsPow2(SplitPoint(n))
  {
    PopcountPow2(TopBit(n - 1));
  }

  lemma {:induction false} IsPow2Exponent(m: nat) returns (a: nat)
    requires IsPow2(m)
    ensures m == Pow2(a)
  {
    if m % 2 == 1 {
      a := 0;
    } else {
      a := IsPow2Exponent(m / 2);
      a := a + 1;
    }
  }

  /** Adding the outermost node to a proof of the inner half. */
  lemma RootsExtend(h: Hash, m: nat, n: nat, inner: seq<Bytes>, node: Bytes)
    requires 0 < m < n && |inner| == 1 + ProofLen(m - Skipped(m - 1, n), InnerSize(m - 1, n))
    ensures |inner + [node]| == 1 + ProofLen(m, n)
    ensures var (fr, sr) := Roots(h, m - Skipped(m - 1, n), InnerSize(m - 1, n), inner);
      Roots(h, m, n, inner + [node])
      == if m <= SplitPoint(n) then (fr, NodeHash(h, sr, node))
         else (NodeHash(h, node, fr), NodeHash(h, node, sr))
  {
    assert (inner + [node])[..|inner|] == inner;
  }

  lemma MthAt(h: Hash, leaves: seq<Digest>, k: nat)
    requires |leaves| > 1 && k == SplitPoint(|leaves|)
    ensures Mth(h, leaves) == NodeHash(h, Mth(h, leaves[..k]), Mth(h, leaves[k..]))
  {}

  lemma MthNearFar(h: Hash, leaves: seq<Digest>, i: nat)
    requires i < |leaves| && |leaves| > 1
    ensures var near, far := Mth(h, Near(leaves, i)), Mth(h, Far(leaves, i));
      Mth(h, leaves) == if i < SplitPoint(|leaves|) then NodeHash(h, near, far) else NodeHash(h, far, near)
  {
    hide SplitPoint, NodeHash;
  }

  /** The tree hash of the first m leaves, one level down. */
  lemma MthPrefix(h: Hash, leaves: seq<Digest>, m: nat)
    requires 0 < m < |leaves|
    ensures var near := Near(leaves, m - 1)[..m - Skipped(m - 1, |leaves|)];
      Mth(h, leaves[..m])
      == if m <= SplitPoint(|leaves|) then Mth(h, near) else NodeHash(h, Mth(h, Far(leaves, m - 1)), Mth(h, near))
  {
    var k := SplitPoint(|leaves|);
    if m > k { SplitPointUnique(m, TopBit(|leaves| - 1)); }
    hide SplitPoint, NodeHash, Mth;
    if m <= k {
      SliceOfSlice(leaves, m, k);
    } else {
      MthAt(h, leaves[..m], k);
      SliceOfSlice(leaves, k, m);
    }
  }

  lemma Pow2NotAboveSplit(m: nat, n: nat)
    requires 0 < m < n && IsPow2(m)
    ensures m <= SplitPoint(n)
  {
    var a := IsPow2Exponent(m);
    Pow2Monotone(TopBit(n - 1), a);
    Pow2Monotone(a, TopBit(n - 1));
  }

  /** One level of SUBPROOF when the old tree ends in the left half. */
  lemma SubproofLeft(h: Hash, m: nat, leaves: seq<Digest>, b: bool)
    requires 0 < m < |leaves| && m <= SplitPoint(|leaves|)
    ensures Subproof(h, m, leaves, b)
         == Subproof(h, m, leaves[..SplitPoint(|leaves|)], b) + [Mth(h, leaves[SplitPoint(|leaves|)..])]
  {
    hide SplitPoint, Mth;
  }

  lemma SubproofWhole(h: Hash, leaves: seq<Digest>, b: bool)
    requires leaves != []
    ensures Subproof(h, |leaves|, leaves, b) == if b then [] else [Mth(h, leaves)]
  {}

  /** When the old tree reaches into the right half, the flag is not looked at. */
  lemma SubproofRight(h: Hash, m: nat, leaves: seq<Digest>)
    requires 0 < m < |leaves| && m > SplitPoint(|leaves|)
    ensures Subproof(h, m, leaves, true) == Subproof(h, m, leaves, false)
  {
    hide SplitPoint, Mth, Near, Far, Skipped;
  }

  /** SUBPROOF(m, D, true) leaves out the old root when it is a complete subtree... */
  lemma {:induction false} SubproofOmitsRoot(h: Hash, m: nat, leaves: seq<Digest>)
    requires 0 < m <= |leaves| && IsPow2(m)
    ensures [Mth(h, leaves[..m])] + Subproof(h, m, leaves, true) == Subproof(h, m, leaves, false)
    decreases |leaves|
  {
    hide SplitPoint, IsPow2, Mth, Subproof;
    if m == |leaves| {
      SubproofWhole(h, leaves, true);
      SubproofWhole(h, leaves, false);
      assert leaves[..m] == leaves;
    } else {
      Pow2NotAboveSplit(m, |leaves|);
      SubproofLeft(h, m, leaves, true);
      SubproofLeft(h, m, leaves, false);
      var k := SplitPoint(|leaves|);
      SubproofOmitsRoot(h, m, leaves[..k]);
      assert leaves[..k][..m] == leaves[..m];
      Associative([Mth(h, leaves[..m])], Subproof(h, m, leaves[..k], true), [Mth(h, leaves[k..])]);
    }
  }

  /** ...and is SUBPROOF(m, D, false) otherwise. */
  lemma {:induction false} SubproofKeepsRoot(h: Hash, m: nat, leaves: seq<Digest>)
    requires 0 < m < |leaves| && !IsPow2(m)
    ensures Subproof(h, m, leaves, true) == Subproof(h, m, leaves, false)
    decreases |leaves|
  {
    hide SplitPoint, IsPow2, Mth, Subproof;
    SplitPointIsPow2(|leaves|);
    if m <= SplitPoint(|leaves|) {
      SubproofLeft(h, m, leaves, true);
      SubproofLeft(h, m, leaves, false);
      SubproofKeepsRoot(h, m, leaves[..SplitPoint(|leaves|)]);
    } else {
      SubproofRight(h, m, leaves);
    }
  }

  /** SUBPROOF(m, D, false) rebuilds the tree hashes of the first m leaves and of all. */
  lemma {:induction false} SubproofRebuilds(h: Hash, m: nat, leaves: seq<Digest>)
    requires 0 < m <= |leaves|
    ensures |Subproof(h, m, leaves, false)| == 1 + ProofLen(m, |leaves|)
    ensures Roots(h, m, |leaves|, Subproof(h, m, leaves, false)) == (Mth(h, leaves[..m]), Mth(h, leaves))
    decreases |leaves|
  {
    hide SplitPoint, NodeHash, Mth, Near, Far, InnerSize, Skipped;
    if m == |leaves| {
      assert leaves[..m] == leaves;
    } else {
      var near, m' := Near(leaves, m - 1), m - Skipped(m - 1, |leaves|);
      SubproofRebuilds(h, m', near);
      MthNearFar(h, leaves, m - 1);
      MthPrefix(h, leaves, m);
      RootsExtend(h, m, |leaves|, Subproof(h, m', near, false), Mth(h, Far(leaves, m - 1)));
    }
  }

  /** Completeness: the RFC's recursive proof is accepted against the two tree
      hashes, for every list and every 0 <= m <= n. */
  lemma ConsistencyComplete(h: Hash, entries: seq<Bytes>, m: nat, n: nat)
    requires m <= n <= |entries|
    ensures Consistent(h, MerkleRoot(h, entries[..m]), MerkleRoot(h, entries[..n]), m, n,
                       ConsistencyProof(h, entries, m, n))
  {
    hide Mth, Subproof, IsPow2;
    if 0 < m < n {
      var leaves := Leaves(h, entries[..n]);
      if IsPow2(m) { SubproofOmitsRoot(h, m, leaves); } else { SubproofKeepsRoot(h, m, leaves); }
      SubproofRebuilds(h, m, leaves);
      assert entries[..n][..m] == entries[..m];
      LeavesSlice(h, entries[..n], m);
    }
  }

  // ------------------------------------------ consistency: inputs and soundness

  /** What a proof without its outermost node rebuilds of the half that the old tree
      ends in. */
  function InnerRoots(h: Hash, m: nat, n: nat, proof: seq<Bytes>): (Bytes, Bytes)
    requires 0 < m < n && |proof| == 1 + ProofLen(m, n)
  {
    Roots(h, m - Skipped(m - 1, n), InnerSize(m - 1, n), proof[..|proof| - 1])
  }

  /** The input of the outermost hash of the new root. */
  function OuterInput(h: Hash, m: nat, n: nat, proof: seq<Bytes>): Bytes
    requires 0 < m < n && |proof| == 1 + ProofLen(m, n)
  {
    var node := proof[|proof| - 1];
    var sr := InnerRoots(h, m, n, proof).1;
    if m <= SplitPoint(n) then NodeInput(sr, node) else NodeInput(node, sr)
  }

  /** The input of the outermost hash of the old root, when the old tree reaches into
      the right half. */
  function OldInput(h: Hash, m: nat, n: nat, proof: seq<Bytes>): Bytes
    requires 0 < m < n && |proof| == 1 + ProofLen(m, n)
  {
    NodeInput(proof[|proof| - 1], InnerRoots(h, m, n, proof).0)
  }

  /** Everything hashed when a proof is read. */
  function RootsInputs(h: Hash, m: nat, n: nat, proof: seq<Bytes>): set<Bytes>
    requires 0 < m <= n && |proof| == 1 + ProofLen(m, n)
    decreases n
  {
    if m == n then {}
    else {OuterInput(h, m, n, proof)} + (if m > SplitPoint(n) then {OldInput(h, m, n, proof)} else {})
         + RootsInputs(h, m - Skipped(m - 1, n), InnerSize(m - 1, n), proof[..|proof| - 1])
  }

  /** A rebuilt new root is a digest once anything has been hashed. */
  lemma NewRootLength(h: Hash, m: nat, n: nat, proof: seq<Bytes>)
    requires 0 < m <= n && |proof| == 1 + ProofLen(m, n)
    ensures |Roots(h, m, n, proof).1| == if m == n then |proof[0]| else 32
  {
    hide SplitPoint, InnerSize, Skipped;
  }

  lemma InnerRootLength(h: Hash, m: nat, n: nat, proof: seq<Bytes>)
    requires 0 < m < n && |proof| == 1 + ProofLen(m, n)
    ensures |InnerRoots(h, m, n, proof).1| == if m - Skipped(m - 1, n) < InnerSize(m - 1, n) then 32 else |proof[0]|
  {
    hide SplitPoint, InnerSize, Skipped, Roots, ProofLen;
    InnerProofLen(m, n);
    NewRootLength(h, m - Skipped(m - 1, n), InnerSize(m - 1, n), proof[..|proof| - 1]);
  }

  /** One level of the new root. */
  lemma NewRootStep(h: Hash, m: nat, n: nat, proof: seq<Bytes>)
    requires 0 < m < n && |proof| == 1 + ProofLen(m, n)
    ensures Roots(h, m, n, proof).1 == h(OuterInput(h, m, n, proof))
  {
    hide SplitPoint, InnerSize, Skipped, NodeInput;
  }

  lemma InnerProofLen(m: nat, n: nat)
    requires 0 < m < n
    ensures ProofLen(m, n) == 1 + ProofLen(m - Skipped(m - 1, n), InnerSize(m - 1, n))
  {}

  /** Whatever the seed, the new root fixes the outermost node and what it is paired with. */
  lemma OuterHashFixesNode(h: Hash, inputs: set<Bytes>, m: nat, n: nat, p: seq<Bytes>, q: seq<Bytes>)
    requires 0 < m < n && |p| == |q| == 1 + ProofLen(m, n)
    requires |p[0]| == |q[0]| || m - Skipped(m - 1, n) < InnerSize(m - 1, n)
    requires CollisionFree(h, inputs)
    requires OuterInput(h, m, n, p) in inputs && OuterInput(h, m, n, q) in inputs
    requires Roots(h, m, n, p).1 == Roots(h, m, n, q).1
    ensures p[|p| - 1] == q[|q| - 1]
    ensures InnerRoots(h, m, n, p).1 == InnerRoots(h, m, n, q).1
  {
    hide SplitPoint, InnerSize, Skipped, CollisionFree, NodeInput, ProofLen, InnerRoots, Roots;
    NewRootStep(h, m, n, p);
    NewRootStep(h, m, n, q);
    InnerRootLength(h, m, n, p);
    InnerRootLength(h, m, n, q);
    if m <= SplitPoint(n) {
      NodeHashBinds(h, inputs, InnerRoots(h, m, n, p).1, p[|p| - 1], InnerRoots(h, m, n, q).1, q[|q| - 1]);
    } else {
      NodeHashBinds(h, inputs, p[|p| - 1], InnerRoots(h, m, n, p).1, q[|q| - 1], InnerRoots(h, m, n, q).1);
    }
  }

  lemma RootsInputsStep(h: Hash, m: nat, n: nat, proof: seq<Bytes>, m': nat, n': nat, inner: seq<Bytes>)
    requires 0 < m < n && |proof| == 1 + ProofLen(m, n)
    requires m' == m - Skipped(m - 1, n) && n' == InnerSize(m - 1, n) && 0 < m' <= n'
    requires inner == proof[..|proof| - 1] && |inner| == 1 + ProofLen(m', n')
    ensures OuterInput(h, m, n, proof) in RootsInputs(h, m, n, proof)
    ensures m > SplitPoint(n) ==> OldInput(h, m, n, proof) in RootsInputs(h, m, n, proof)
    ensures RootsInputs(h, m', n', inner) <= RootsInputs(h, m, n, proof)
    ensures InnerRoots(h, m, n, proof) == Roots(h, m', n', inner)
  {
    hide SplitPoint, InnerSize, Skipped, OuterInput, OldInput, Roots;
  }

  lemma SeedOnly(h: Hash, m: nat, proof: seq<Bytes>)
    requires 0 < m && |proof| == 1 + ProofLen(m, m)
    ensures proof == [proof[0]] && Roots(h, m, m, proof) == (proof[0], proof[0])
  {}

  /** Two proofs with seeds of one length that rebuild the same new root are the same
      proof: the lengths of all other nodes need no check. */
  lemma {:induction false} NewRootFixesProof(
      h: Hash, inputs: set<Bytes>, m: nat, n: nat, p: seq<Bytes>, q: seq<Bytes>)
    requires 0 < m <= n && |p| == |q| == 1 + ProofLen(m, n)
    requires |p[0]| == |q[0]|
    requires CollisionFree(h, inputs)
    requires RootsInputs(h, m, n, p) <= inputs && RootsInputs(h, m, n, q) <= inputs
    requires Roots(h, m, n, p).1 == Roots(h, m, n, q).1
    ensures p == q
    decreases n
  {
    hide SplitPoint, InnerSize, Skipped, CollisionFree, OuterInput, InnerRoots, ProofLen, Roots, RootsInputs;
    if m == n {
      SeedOnly(h, m, p);
      SeedOnly(h, m, q);
    } else {
      var m', n', p', q' := m - Skipped(m - 1, n), InnerSize(m - 1, n), p[..|p| - 1], q[..|q| - 1];
      InnerProofLen(m, n);
      RootsInputsStep(h, m, n, p, m', n', p');
      RootsInputsStep(h, m, n, q, m', n', q');
      OuterHashFixesNode(h, inputs, m, n, p, q);
      NewRootFixesProof(h, inputs, m', n', p', q');
      assert p == p' + [p[|p| - 1]] && q == q' + [q[|q| - 1]];
    }
  }

  /** The seed's own sibling is always a right one. */
  lemma SeedIsLeft(m: nat, n: nat)
    requires 0 < m < n && m - Skipped(m - 1, n) == InnerSize(m - 1, n)
    ensures m <= SplitPoint(n)
  {
    hide SplitPoint;
  }

  /** One level of the old root. */
  lemma OldRootStep(h: Hash, m: nat, n: nat, proof: seq<Bytes>)
    requires 0 < m < n && |proof| == 1 + ProofLen(m, n)
    ensures var fr := InnerRoots(h, m, n, proof).0;
      Roots(h, m, n, proof).0 == if m <= SplitPoint(n) then fr else NodeHash(h, proof[|proof| - 1], fr)
  {
    hide SplitPoint, InnerSize, Skipped, NodeHash;
  }

  /** Two proofs with seeds of different lengths that rebuild the same new root rebuild
      different old roots. */
  lemma {:induction false} SeedsTellRoots(
      h: Hash, inputs: set<Bytes>, m: nat, n: nat, p: seq<Bytes>, q: seq<Bytes>)
    requires 0 < m <= n && |p| == |q| == 1 + ProofLen(m, n)
    requires |p[0]| != |q[0]|
    requires CollisionFree(h, inputs)
    requires RootsInputs(h, m, n, p) <= inputs && RootsInputs(h, m, n, q) <= inputs
    requires Roots(h, m, n, p).1 == Roots(h, m, n, q).1
    ensures Roots(h, m, n, p).0 != Roots(h, m, n, q).0
    decreases n
  {
    hide SplitPoint, InnerSize, Skipped, CollisionFree, NodeInput, InnerRoots, ProofLen, Roots, RootsInputs,
      OuterInput;
    if m == n {
      SeedOnly(h, m, p);
      SeedOnly(h, m, q);
    } else {
      var m', n', p', q' := m - Skipped(m - 1, n), InnerSize(m - 1, n), p[..|p| - 1], q[..|q| - 1];
      InnerProofLen(m, n);
      RootsInputsStep(h, m, n, p, m', n', p');
      RootsInputsStep(h, m, n, q, m', n', q');
      OldRootStep(h, m, n, p);
      OldRootStep(h, m, n, q);
      if m' == n' {
        SeedIsLeft(m, n);
        SeedOnly(h, m', p');
        SeedOnly(h, m', q');
      } else {
        OuterHashFixesNode(h, inputs, m, n, p, q);
        SeedsTellRoots(h, inputs, m', n', p', q');
        if m > SplitPoint(n) && Roots(h, m, n, p).0 == Roots(h, m, n, q).0 {
          NodeHashBinds(h, inputs, p[|p| - 1], Roots(h, m', n', p').0, q[|q| - 1], Roots(h, m', n', q').0);
        }
      }
    }
  }

  /** Everything hashed by an accepted proof. */
  function AcceptedInputs(h: Hash, first: Bytes, m: int, n: int, proof: seq<Bytes>): set<Bytes> {
    if 0 < m < n && |Seeded(first, m, proof)| == 1 + ProofLen(m, n)
    then RootsInputs(h, m, n, Seeded(first, m, proof)) else {}
  }

  /** Length of the node that the verifier starts from: the old root's when the old
      size is a power of two, the first proof node's otherwise. */
  function SeedLength(first: Bytes, m: int, n: int, proof: seq<Bytes>): nat
    requires 0 < m
  {
    if m >= n then |first| else if Seeded(first, m, proof) == [] then 0 else |Seeded(first, m, proof)[0]|
  }

  /** Two accepted proofs against one new root agree on the old root exactly when
      their seeds are equally long. */
  lemma ConsistencyUnique(h: Hash, inputs: set<Bytes>, second: Bytes, m: int, n: int,
      first: Bytes, proof: seq<Bytes>, first': Bytes, proof': seq<Bytes>)
    requires 0 < m
    requires CollisionFree(h, inputs)
    requires AcceptedInputs(h, first, m, n, proof) <= inputs && AcceptedInputs(h, first', m, n, proof') <= inputs
    requires Consistent(h, first, second, m, n, proof) && Consistent(h, first', second, m, n, proof')
    ensures first == first' <==> SeedLength(first, m, n, proof) == SeedLength(first', m, n, proof')
  {
    if m < n {
      var p, q := Seeded(first, m, proof), Seeded(first', m, proof');
      if |p[0]| == |q[0]| {
        NewRootFixesProof(h, inputs, m, n, p, q);
      } else {
        SeedsTellRoots(h, inputs, m, n, p, q);
      }
    }
  }

  /** Soundness, exactly: a proof accepted against the root of n entries vouches for
      the root of their first m entries if and only if its seed has 32 octets. */
  lemma ConsistencySound(h: Hash, inputs: set<Bytes>, entries: seq<Bytes>, first: Bytes, m: int, proof: seq<Bytes>)
    requires 0 < m
    requires CollisionFree(h, inputs)
    requires AcceptedInputs(h, first, m, |entries|, proof) <= inputs
    requires m <= |entries| ==>
      AcceptedInputs(h, MerkleRoot(h, entries[..m]), m, |entries|, ConsistencyProof(h, entries, m, |entries|)) <= inputs
    requires Consistent(h, first, MerkleRoot(h, entries), m, |entries|, proof)
    ensures m <= |entries|
    ensures first == MerkleRoot(h, entries[..m]) <==> SeedLength(first, m, |entries|, proof) == 32
  {
    hide Mth, Roots, MerkleRoot;
    var n := |entries|;
    assert entries[..n] == entries;
    ConsistencyComplete(h, entries, m, n);
    HonestSeed(h, entries, m);
    ConsistencyUnique(h, inputs, MerkleRoot(h, entries), m, n, first, proof,
                      MerkleRoot(h, entries[..m]), ConsistencyProof(h, entries, m, n));
  }

  lemma HonestSeed(h: Hash, entries: seq<Bytes>, m: nat)
    requires 0 < m <= |entries|
    ensures SeedLength(MerkleRoot(h, entries[..m]), m, |entries|, ConsistencyProof(h, entries, m, |entries|)) == 32
  {
    hide Mth, MerkleRoot, Subproof;
    var n := |entries|;
    if m < n && !IsPow2(m) {
      SubproofKeepsRoot(h, m, Leaves(h, entries[..n]));
      SubproofRebuilds(h, m, Leaves(h, entries[..n]));
    }
  }

  /** For an empty old tree the verifier looks at neither root. */
  lemma EmptyOldTreeUnchecked(h: Hash, first: Bytes, second: Bytes, n: nat)
    ensures Consistent(h, first, second, 0, n, [])
  {}

  lemma MthOneLevel(h: Hash, left: seq<Digest>, right: seq<Digest>, a: nat)
    requires |left| == Pow2(a) && 0 < |right| <= |left|
    ensures Mth(h, left + right) == NodeHash(h, Mth(h, left), Mth(h, right))
  {
    var whole := left + right;
    SplitPointUnique(|whole|, a);
    hide SplitPoint, NodeHash, Pow2;
    assert Mth(h, whole) == NodeHash(h, Mth(h, whole[..|left|]), Mth(h, whole[|left|..]));
    hide Mth;
    assert whole[..|left|] == left && whole[|left|..] == right;
  }

  /** Roots of three and of four leaves. */
  lemma SmallRoots(h: Hash, a: Digest, b: Digest, c: Digest, d: Digest)
    ensures Mth(h, [a, b, c]) == NodeHash(h, NodeHash(h, a, b), c)
    ensures Mth(h, [a, b, c, d]) == NodeHash(h, NodeHash(h, a, b), NodeHash(h, c, d))
  {
    hide SplitPoint, NodeHash;
    MthOneLevel(h, [a], [b], 0);
    MthOneLevel(h, [c], [d], 0);
    MthOneLevel(h, [a, b], [c], 1);
    MthOneLevel(h, [a, b], [c, d], 1);
    assert [a] + [b] == [a, b] && [c] + [d] == [c, d];
    assert [a, b] + [c] == [a, b, c] && [a, b] + [c, d] == [a, b, c, d];
  }

  lemma RootsThreeToFour(h: Hash, p: Bytes, q: Bytes, r: Bytes)
    ensures ProofLen(3, 4) == 2 && !IsPow2(3)
    ensures Roots(h, 3, 4, [p, q, r]) == (NodeHash(h, r, p), NodeHash(h, r, NodeHash(h, p, q)))
  {
    SplitPointUnique(2, 0);
    SplitPointUnique(4, 1);
    assert [p] + [q] == [p, q] && [p, q] + [r] == [p, q, r];
    hide SplitPoint, NodeHash;
    RootsExtend(h, 1, 2, [p], q);
    RootsExtend(h, 3, 4, [p, q], r);
  }

  lemma SameNodeHash(h: Hash, left: Digest, right: Digest)
    ensures NodeHash(h, left + right[..1], right[1..]) == NodeHash(h, left, right)
  {
    assert (left + right[..1]) + right[1..] == left + right;
    assert NodeInput(left + right[..1], right[1..]) == NodeInput(left, right);
  }

  lemma ThreeToFour(h: Hash, first: Bytes, second: Bytes, p: Bytes, q: Bytes, r: Bytes)
    requires first == NodeHash(h, r, p) && second == NodeHash(h, r, NodeHash(h, p, q))
    ensures Consistent(h, first, second, 3, 4, [p, q, r])
  {
    RootsThreeToFour(h, p, q, r);
    hide Roots, ProofLen, IsPow2, NodeHash;
  }

  /** The verifier does not check the seed's length: moving one octet between the
      first two nodes of the proof from 3 to 4 leaves gives another accepted old
      root, without any collision. */
  lemma ConsistencyNeedsDigests(h: Hash, a: Digest, b: Digest, c: Digest, d: Digest)
    returns (first: Digest, proof: seq<Bytes>)
    requires CollisionFree(h, {NodeInput(NodeHash(h, a, b), c), NodeInput(NodeHash(h, a, b), c + d[..1])})
    ensures Consistent(h, first, Mth(h, [a, b, c, d]), 3, 4, proof)
    ensures first != Mth(h, [a, b, c])
  {
    var n01, p, q := NodeHash(h, a, b), c + d[..1], d[1..];
    first, proof := NodeHash(h, n01, p), [p, q, n01];
    hide Mth, Consistent, CollisionFree, NodeHash;
    SmallRoots(h, a, b, c, d);
    SameNodeHash(h, c, d);
    ThreeToFour(h, first, Mth(h, [a, b, c, d]), p, q, n01);
    if first == NodeHash(h, n01, c) {
      NodeHashBinds(h, {NodeInput(n01, c), NodeInput(n01, p)}, n01, c, n01, p);
    }
  }
}
