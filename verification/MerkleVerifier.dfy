/** The tree verifier as it runs: loops over sizes and indices, a shared stack of
    siblings, and the bit-shifting consistency check, each equal to the recursive
    meaning in module Merkle on every input. */
module MerkleVerifier {
  import opened Octets
  import opened Bits
  import opened Merkle

  method LargestPow2Below(n: nat) returns (k: nat)
    requires n > 1
    ensures k == SplitPoint(n)
  {
    k := 1;
    ghost var a := 0;
    while k * 2 < n
      invariant k == Pow2(a) && k < n
    {
      k := k * 2;
      a := a + 1;
    }
    SplitPointUnique(n, a);
  }

  method ExpectedInclusionPathLen(treeSize: nat, index: nat) returns (n: nat)
    requires index < treeSize
    ensures n == PathLen(treeSize, index)
  {
    hide SplitPoint, PathLen;
    n := 0;
    var size, m := treeSize, index;
    while size > 1
      invariant 0 <= m < size
      invariant n + PathLen(size, m) == PathLen(treeSize, index)
      decreases size
    {
      var k := LargestPow2Below(size);
      PathLenOneLevel(size, m);
      if m < k {
        size := k;
      } else {
        size, m := size - k, m - k;
      }
      n := n + 1;
    }
    NoPath();
  }

  lemma NoPath()
    ensures PathLen(1, 0) == 0
  {}

  /** What a fold of a tree of `size` leaves leaves of a sibling list, and the root
      it folds the rest to. */
  function Leftover(size: nat, m: nat, siblings: seq<Bytes>): seq<Bytes>
    requires m < size && PathLen(size, m) <= |siblings|
  {
    siblings[..|siblings| - PathLen(size, m)]
  }

  function FoldTail(h: Hash, target: Digest, size: nat, m: nat, siblings: seq<Bytes>): Digest
    requires m < size && PathLen(size, m) <= |siblings|
  {
    FoldPath(h, target, size, m, siblings[|siblings| - PathLen(size, m)..])
  }

  lemma FoldNothing(h: Hash, target: Digest, siblings: seq<Bytes>)
    ensures PathLen(1, 0) == 0
    ensures Leftover(1, 0, siblings) == siblings && FoldTail(h, target, 1, 0, siblings) == target
  {}

  lemma PathLenOneLevel(size: nat, m: nat)
    requires m < size && size > 1
    ensures PathLen(size, m) == 1 + PathLen(InnerSize(m, size), m - Skipped(m, size))
  {}

  lemma FoldOneLevel(h: Hash, target: Digest, size: nat, m: nat, siblings: seq<Bytes>, last: Bytes)
    requires m < size && size > 1
    requires PathLen(InnerSize(m, size), m - Skipped(m, size)) <= |siblings|
    ensures PathLen(size, m) == 1 + PathLen(InnerSize(m, size), m - Skipped(m, size)) <= |siblings + [last]|
    ensures Leftover(size, m, siblings + [last]) == Leftover(InnerSize(m, size), m - Skipped(m, size), siblings)
    ensures FoldTail(h, target, size, m, siblings + [last])
         == if m < SplitPoint(size)
            then NodeHash(h, FoldTail(h, target, InnerSize(m, size), m - Skipped(m, size), siblings), last)
            else NodeHash(h, last, FoldTail(h, target, InnerSize(m, size), m - Skipped(m, size), siblings))
  {
    hide SplitPoint, InnerSize, Skipped, FoldPath, PathLen;
    PathLenOneLevel(size, m);
    var rest := |siblings| - PathLen(InnerSize(m, size), m - Skipped(m, size));
    FoldExtend(h, target, size, m, siblings[rest..], last);
    assert (siblings + [last])[rest..] == siblings[rest..] + [last];
    assert (siblings + [last])[..rest] == siblings[..rest];
  }

  /** The sibling list that the recursive fold pops from its end. */
  class SiblingStack {
    var siblings: seq<Bytes>

    constructor (path: seq<Bytes>)
      ensures siblings == path
    {
      siblings := path;
    }

    /** Succeeds exactly when there are siblings for every level, takes the last
        ones off and folds them. */
    method Fold(h: Hash, target: Digest, size: nat, m: nat) returns (r: Option<Digest>)
      requires m < size
      modifies this
      ensures r.Some? <==> PathLen(size, m) <= |old(siblings)|
      ensures r.Some? ==> siblings == Leftover(size, m, old(siblings))
      ensures r.Some? ==> r.value == FoldTail(h, target, size, m, old(siblings))
      decreases size
    {
      hide Leftover, FoldTail, PathLen, SplitPoint;
      if size == 1 {
        FoldNothing(h, target, siblings);
        return Some(target);
      }
      PathLenOneLevel(size, m);
      if siblings == [] { return None; }
      var k := LargestPow2Below(size);
      var sibling := siblings[|siblings| - 1];
      siblings := siblings[..|siblings| - 1];
      assert old(siblings) == siblings + [sibling];
      if PathLen(size, m) <= |old(siblings)| { FoldOneLevel(h, target, size, m, siblings, sibling); }
      if m < k {
        var child := Fold(h, target, k, m);
        if child.None? { return None; }
        return Some(NodeHash(h, child.value, sibling));
      }
      var child := Fold(h, target, size - k, m - k);
      if child.None? { return None; }
      return Some(NodeHash(h, sibling, child.value));
    }
  }

  method RootFromInclusionProof(h: Hash, entry: Bytes, index: int, treeSize: int, auditPath: seq<Bytes>)
    returns (root: Option<Digest>)
    ensures root == RootFromPath(h, entry, index, treeSize, auditPath)
  {
    if !(0 <= index < treeSize) || treeSize > MAX_TREE_SIZE { return None; }
    var expected := ExpectedInclusionPathLen(treeSize, index);
    if |auditPath| != expected { return None; }
    var target := LeafHash(h, entry);
    var stack := new SiblingStack(auditPath);
    var computed := stack.Fold(h, target, treeSize, index);
    if computed.None? || stack.siblings != [] { return None; }
    assert auditPath[0..] == auditPath;
    return computed;
  }

  method VerifyInclusion(h: Hash, entry: Bytes, index: int, treeSize: int, auditPath: seq<Bytes>, root: Bytes)
    returns (ok: bool)
    ensures ok <==> PathFits(index, treeSize, auditPath)
                    && FoldPath(h, LeafHash(h, entry), treeSize, index, auditPath) == root
  {
    var computed := RootFromInclusionProof(h, entry, index, treeSize, auditPath);
    ok := computed.Some? && computed.value == root;
  }

  // ------------------------------------------------- the consistency check

  /** a & b on non-negative integers. */
  function BitAnd(a: nat, b: nat): nat
  {
    if a == 0 || b == 0 then 0
    else (if a % 2 == 1 && b % 2 == 1 then 1 else 0) + 2 * BitAnd(a / 2, b / 2)
  }

  lemma {:induction false} AndWithPredecessor(m: nat)
    requires m > 0
    ensures BitAnd(m, m - 1) == 0 <==> IsPow2(m)
  {
    if m % 2 == 0 {
      AndWithPredecessor(m / 2);
      assert (m - 1) / 2 == m / 2 - 1;
    } else if m > 1 {
      AndWithItself(m / 2);
      assert (m - 1) / 2 == m / 2;
    }
  }

  lemma {:induction false} AndWithItself(m: nat)
    ensures BitAnd(m, m) == m
  {
    if m > 0 { AndWithItself(m / 2); }
  }

  /** q * 2^l */
  function Scale(q: nat, l: nat): nat {
    if l == 0 then q else 2 * Scale(q, l - 1)
  }

  lemma {:induction false} ScaleFacts(q: nat, r: nat, l: nat)
    ensures Scale(q, l + 1) == Scale(2 * q, l)
    ensures Scale(q + 1, l) == Scale(q, l) + Pow2(l)
    ensures Scale(0, l) == 0
    ensures q < r ==> Scale(q, l) + Pow2(l) <= Scale(r, l)
  {
    if l > 0 { ScaleFacts(q, r, l - 1); }
  }

  /** fn and sn are the numbers, at level l, of the nodes over leaf m - 1 and over
      the last leaf of a tree of n leaves. */
  ghost predicate AtLevel(m: nat, n: nat, fn: nat, sn: nat, l: nat) {
    && 0 < m <= n && fn <= sn
    && Scale(fn, l) < m <= Scale(fn, l) + Pow2(l)
    && Scale(sn, l) < n <= Scale(sn, l) + Pow2(l)
  }

  /** Leaves of the new tree under node fn. */
  ghost function Width(m: nat, n: nat, fn: nat, sn: nat, l: nat): (w: nat)
    requires AtLevel(m, n, fn, sn, l)
    ensures m - Scale(fn, l) <= w <= Pow2(l)
  {
    ScaleFacts(fn, sn, l);
    if fn < sn then Pow2(l) else n - Scale(fn, l)
  }

  /** Halving both numbers goes one level up. */
  lemma HalveNumbers(m: nat, n: nat, fn: nat, sn: nat, l: nat)
    requires AtLevel(m, n, fn, sn, l)
    ensures AtLevel(m, n, fn / 2, sn / 2, l + 1)
    ensures Scale(fn / 2, l + 1) == Scale(fn, l) - if fn % 2 == 1 then Pow2(l) else 0
    ensures Scale(sn / 2, l + 1) == Scale(sn, l) - if sn % 2 == 1 then Pow2(l) else 0
  {
    hide Scale, Pow2;
    Doubling(l);
    ScaleFacts(fn / 2, 0, l);
    ScaleFacts(sn / 2, 0, l);
    ScaleFacts(2 * (fn / 2), 0, l);
    ScaleFacts(2 * (sn / 2), 0, l);
  }

  /** Leaf m - 1 is not the last one of a right child: the old tree ends below the
      parent. Holds from the first level on at which the verifier reads nodes. */
  ghost predicate EndsInside(m: nat, n: nat, fn: nat, sn: nat, l: nat) {
    AtLevel(m, n, fn, sn, l) && m < n && (fn % 2 == 1 ==> m < Scale(fn, l) + Pow2(l))
  }

  /** A node that has a sibling: its parent splits exactly there. */
  lemma ParentSplits(m: nat, n: nat, fn: nat, sn: nat, l: nat)
    requires EndsInside(m, n, fn, sn, l) && (fn % 2 == 1 || fn < sn)
    ensures AtLevel(m, n, fn / 2, sn / 2, l + 1) && EndsInside(m, n, fn / 2, sn / 2, l + 1)
    ensures var (m', n') := (m - Scale(fn / 2, l + 1), Width(m, n, fn / 2, sn / 2, l + 1));
      && 0 < m' < n' && SplitPoint(n') == Pow2(l)
      && (m' <= Pow2(l) <==> fn % 2 == 0)
      && m' - Skipped(m' - 1, n') == m - Scale(fn, l)
      && InnerSize(m' - 1, n') == Width(m, n, fn, sn, l)
  {
    hide SplitPoint, Scale, Pow2;
    Doubling(l);
    HalveNumbers(m, n, fn, sn, l);
    ScaleFacts(fn, sn, l);
    ScaleFacts(fn / 2, sn / 2, l + 1);
    var n' := Width(m, n, fn / 2, sn / 2, l + 1);
    assert Pow2(l) < n' <= 2 * Pow2(l);
    SplitPointUnique(n', l);
  }

  /** fr and sr are what the first nodes of a proof rebuild of the old and the new
      tree under node fn. */
  ghost predicate Rebuilt(h: Hash, m: nat, n: nat, fn: nat, sn: nat, l: nat, p: seq<Bytes>, fr: Bytes, sr: Bytes) {
    && EndsInside(m, n, fn, sn, l)
    && |p| == 1 + ProofLen(m - Scale(fn, l), Width(m, n, fn, sn, l))
    && Roots(h, m - Scale(fn, l), Width(m, n, fn, sn, l), p) == (fr, sr)
  }

  /** The next node of the proof is the sibling of node fn. */
  lemma AbsorbSibling(h: Hash, m: nat, n: nat, fn: nat, sn: nat, l: nat, p: seq<Bytes>, fr: Bytes, sr: Bytes,
      node: Bytes)
    requires Rebuilt(h, m, n, fn, sn, l, p, fr, sr) && (fn % 2 == 1 || fn != sn)
    ensures if fn % 2 == 1
      then Rebuilt(h, m, n, fn / 2, sn / 2, l + 1, p + [node], NodeHash(h, node, fr), NodeHash(h, node, sr))
      else Rebuilt(h, m, n, fn / 2, sn / 2, l + 1, p + [node], fr, NodeHash(h, sr, node))
  {
    hide SplitPoint, EndsInside, AtLevel, Width, Scale, Pow2, InnerSize, Skipped, Roots, ProofLen, NodeHash;
    LevelFacts(m, n, fn, sn, l);
    ParentSplits(m, n, fn, sn, l);
    RootsExtend(h, m - Scale(fn / 2, l + 1), Width(m, n, fn / 2, sn / 2, l + 1), p, node);
  }

  /** The last node of a level, when it has no sibling, is its own parent. */
  lemma NoSibling(m: nat, n: nat, fn: nat, l: nat)
    requires EndsInside(m, n, fn, fn, l) && fn % 2 == 0
    ensures AtLevel(m, n, fn / 2, fn / 2, l + 1) && EndsInside(m, n, fn / 2, fn / 2, l + 1)
    ensures Scale(fn / 2, l + 1) == Scale(fn, l)
    ensures Width(m, n, fn / 2, fn / 2, l + 1) == Width(m, n, fn, fn, l)
  {
    HalveNumbers(m, n, fn, fn, l);
  }

  lemma SkipLevel(h: Hash, m: nat, n: nat, fn: nat, l: nat, p: seq<Bytes>, fr: Bytes, sr: Bytes)
    requires Rebuilt(h, m, n, fn, fn, l, p, fr, sr) && fn % 2 == 0
    ensures Rebuilt(h, m, n, fn / 2, fn / 2, l + 1, p, fr, sr)
  {
    NoSibling(m, n, fn, l);
    hide EndsInside, AtLevel, Width, Scale, Pow2;
  }

  lemma LevelFacts(m: nat, n: nat, fn: nat, sn: nat, l: nat)
    requires EndsInside(m, n, fn, sn, l)
    ensures fn <= sn && m < n
    ensures 0 < m - Scale(fn, l) <= Width(m, n, fn, sn, l)
    ensures sn == 0 ==> Scale(fn, l) == 0 && Width(m, n, fn, sn, l) == n
  {
    ScaleFacts(0, 0, l);
  }

  /** Below the root, a proof is still too short. */
  lemma {:induction false} Unfinished(m: nat, n: nat, fn: nat, sn: nat, l: nat)
    requires EndsInside(m, n, fn, sn, l) && sn > 0
    ensures 0 < m - Scale(fn, l) <= Width(m, n, fn, sn, l)
    ensures ProofLen(m - Scale(fn, l), Width(m, n, fn, sn, l)) < ProofLen(m, n)
    decreases sn
  {
    hide SplitPoint, EndsInside, AtLevel, Width, Scale, Pow2, InnerSize, Skipped;
    LevelFacts(m, n, fn, sn, l);
    if fn % 2 == 1 || fn < sn {
      ParentSplits(m, n, fn, sn, l);
    } else {
      NoSibling(m, n, fn, l);
    }
    LevelFacts(m, n, fn / 2, sn / 2, l + 1);
    if sn > 1 { Unfinished(m, n, fn / 2, sn / 2, l + 1); }
  }

  lemma StartLevel(m: nat, n: nat)
    requires 0 < m <= n
    ensures AtLevel(m, n, m - 1, n - 1, 0) && m == Scale(m - 1, 0) + Pow2(0)
  {}

  /** The seed is the old tree's last complete subtree. */
  lemma FirstNode(h: Hash, m: nat, n: nat, fn: nat, sn: nat, l: nat, seed: Bytes)
    requires AtLevel(m, n, fn, sn, l) && m == Scale(fn, l) + Pow2(l) && m < n && fn % 2 == 0
    ensures Rebuilt(h, m, n, fn, sn, l, [seed], seed, seed)
  {
    ScaleFacts(fn, sn, l);
    hide Scale, Pow2;
    assert Width(m, n, fn, sn, l) == m - Scale(fn, l);
  }

  /** What the loop knows when it stops decides acceptance. */
  lemma Verdict(h: Hash, first: Bytes, second: Bytes, m: nat, n: nat, fn: nat, sn: nat, l: nat,
      proof: seq<Bytes>, i: nat, fr: Bytes, sr: Bytes)
    requires 0 < m < n && i <= |Seeded(first, m, proof)|
    requires Rebuilt(h, m, n, fn, sn, l, Seeded(first, m, proof)[..i], fr, sr)
    ensures sn == 0 && i < |Seeded(first, m, proof)| ==> !Consistent(h, first, second, m, n, proof)
    ensures i == |Seeded(first, m, proof)| ==>
      (Consistent(h, first, second, m, n, proof) <==> sn == 0 && fr == first && sr == second)
  {
    var p := Seeded(first, m, proof);
    hide AtLevel, Width, Scale, Pow2, Seeded, ProofLen, Roots;
    LevelFacts(m, n, fn, sn, l);
    if sn > 0 { Unfinished(m, n, fn, sn, l); }
    if i == |p| { assert p[..i] == p; }
  }

  method VerifyConsistency(h: Hash, firstRoot: Bytes, secondRoot: Bytes, firstSize: int, secondSize: int,
      proofNodes: seq<Bytes>) returns (ok: bool)
    ensures ok <==> Consistent(h, firstRoot, secondRoot, firstSize, secondSize, proofNodes)
  {
    var m, n := firstSize, secondSize;
    if m < 0 || n < 0 || m > n { return false; }
    if m == 0 { return proofNodes == []; }
    if m == n { return proofNodes == [] && firstRoot == secondRoot; }

    var proof := proofNodes;
    AndWithPredecessor(m);
    if BitAnd(m, m - 1) == 0 { proof := [firstRoot] + proof; }
    assert proof == Seeded(firstRoot, m, proofNodes);
    if proof == [] { return false; }

    ok := ReadProof(h, firstRoot, secondRoot, m, n, proofNodes, proof);
  }

  /** The loops of VerifyConsistency, over the seeded proof. */
  method ReadProof(h: Hash, firstRoot: Bytes, secondRoot: Bytes, m: nat, n: nat, ghost proofNodes: seq<Bytes>,
      proof: seq<Bytes>) returns (ok: bool)
    requires 0 < m < n && proof != [] && proof == Seeded(firstRoot, m, proofNodes)
    ensures ok <==> Consistent(h, firstRoot, secondRoot, m, n, proofNodes)
  {
    hide Rebuilt, EndsInside, AtLevel, Width, SplitPoint, Scale, Pow2, Consistent, Seeded, IsPow2;
    var fn: nat, sn: nat := m - 1, n - 1;
    ghost var l: nat := 0;
    StartLevel(m, n);
    while fn % 2 == 1
      invariant AtLevel(m, n, fn, sn, l) && m == Scale(fn, l) + Pow2(l)
      decreases fn
    {
      HalveNumbers(m, n, fn, sn, l);
      assert Pow2(l + 1) == 2 * Pow2(l) by { Doubling(l); }
      fn, sn, l := fn / 2, sn / 2, l + 1;
    }

    var fr, sr := proof[0], proof[0];
    FirstNode(h, m, n, fn, sn, l, proof[0]);
    assert proof[..1] == [proof[0]];
    var i := 1;
    while i < |proof|
      invariant 1 <= i <= |proof|
      invariant Rebuilt(h, m, n, fn, sn, l, proof[..i], fr, sr)
    {
      Verdict(h, firstRoot, secondRoot, m, n, fn, sn, l, proofNodes, i, fr, sr);
      if sn == 0 { return false; }
      var node := proof[i];
      assert proof[..i + 1] == proof[..i] + [node];
      ghost var fr', sr' := fr, sr;
      if fn % 2 == 1 || fn == sn {
        fr := NodeHash(h, node, fr);
        sr := NodeHash(h, node, sr);
        while fn % 2 == 0 && fn != 0
          invariant fn % 2 == 1 || (fn == sn && fn > 0)
          invariant Rebuilt(h, m, n, fn, sn, l, proof[..i], fr', sr')
          decreases fn
        {
          SkipLevel(h, m, n, fn, l, proof[..i], fr', sr');
          fn, sn, l := fn / 2, sn / 2, l + 1;
        }
      } else {
        sr := NodeHash(h, sr, node);
      }
      AbsorbSibling(h, m, n, fn, sn, l, proof[..i], fr', sr', node);
      fn, sn, l := fn / 2, sn / 2, l + 1;
      i := i + 1;
    }
    Verdict(h, firstRoot, secondRoot, m, n, fn, sn, l, proofNodes, i, fr, sr);
    return sn == 0 && fr == firstRoot && sr == secondRoot;
  }
}
