/** The Go verifier's inclusion fold, in int64. */
module GoMerkle {
  import opened Octets
  import opened Bits
  import opened Merkle
  import Reference = MerkleVerifier
  import opened FixedWidth

  /** Exact for every int64 above 1, and no intermediate value overflows: the guard
      divides where the reference doubles. */
  method LargestPow2Below(n: int64) returns (k: int64)
    ensures n <= 1 ==> k == 1
    ensures n > 1 ==> k as int == SplitPoint(n as nat)
  {
    hide SplitPoint;
    if n <= 1 { return 1; }
    k := 1;
    ghost var a := 0;
    while k <= (n - 1) / 2
      invariant k as int == Pow2(a) && k < n
      decreases n as int - k as int
    {
      k := k * 2;
      a := a + 1;
    }
    SplitPointUnique(n as nat, a);
  }

  /** Returns for every int64 pair, in range or not. */
  method ExpectedInclusionPathLen(treeSize: int64, index: int64) returns (n: int64)
    ensures 0 <= index < treeSize ==> n as int == PathLen(treeSize as nat, index as nat)
    ensures treeSize <= 1 ==> n == 0
  {
    hide SplitPoint, PathLen;
    n := 0;
    var size, m := treeSize, index;
    while size > 1
      invariant 0 <= n && (n == 0 || 0 < size <= treeSize - n)
      invariant n == 0 ==> size == treeSize && m == index
      invariant 0 <= index < treeSize ==> 0 <= m < size
      invariant 0 <= index < treeSize
        ==> n as int + PathLen(size as nat, m as nat) == PathLen(treeSize as nat, index as nat)
      decreases size as int
    {
      var k := LargestPow2Below(size);
      if 0 <= index < treeSize { Reference.PathLenOneLevel(size as nat, m as nat); }
      if m < k {
        size := k;
      } else {
        size, m := size - k, m - k;
      }
      n := n + 1;
    }
    Reference.NoPath();
  }

  /** The slice that the closure captures and shrinks from its end. */
  class CapturedSiblings {
    var siblings: seq<Bytes>

    constructor (auditPath: seq<Bytes>)
      ensures siblings == auditPath
    {
      siblings := auditPath;
    }

    method Fold(h: Hash, target: Digest, size: int64, m: int64) returns (r: Option<Digest>)
      requires 0 <= m < size
      modifies this
      ensures r.Some? <==> PathLen(size as nat, m as nat) <= |old(siblings)|
      ensures r.Some? ==> siblings == Reference.Leftover(size as nat, m as nat, old(siblings))
      ensures r.Some? ==> r.value == Reference.FoldTail(h, target, size as nat, m as nat, old(siblings))
      decreases size as int
    {
      hide Reference.Leftover, Reference.FoldTail, PathLen, SplitPoint;
      if size == 1 {
        Reference.FoldNothing(h, target, siblings);
        return Some(target);
      }
      Reference.PathLenOneLevel(size as nat, m as nat);
      if |siblings| == 0 { return None; }
      var k := LargestPow2Below(size);
      var sibling := siblings[|siblings| - 1];
      siblings := siblings[..|siblings| - 1];
      assert old(siblings) == siblings + [sibling];
      if PathLen(size as nat, m as nat) <= |old(siblings)| {
        Reference.FoldOneLevel(h, target, size as nat, m as nat, siblings, sibling);
      }
      if m < k {
        var child := Fold(h, target, k, m);
        if child.None? { return None; }
        return Some(NodeHash(h, child.value, sibling));
      }
      var child := Fold(h, target, size - k, m - k);
      if child.None? { return None; }
      return Some(NodeHash(h, sibling, child.value));
    }
  }

  /** The same root, or the same refusal, as the unbounded reference. */
  method RootFromInclusionProof(h: Hash, entry: Bytes, index: int64, treeSize: int64, auditPath: Slice<Bytes>)
    returns (root: Option<Digest>)
    ensures root == RootFromPath(h, entry, index as int, treeSize as int, auditPath)
  {
    hide PathLen;
    if index < 0 || index >= treeSize || treeSize as int > MAX_TREE_SIZE { return None; }
    var expected := ExpectedInclusionPathLen(treeSize, index);
    if |auditPath| as int64 != expected { return None; }
    var target := LeafHash(h, entry);
    var captured := new CapturedSiblings(auditPath);
    var computed := captured.Fold(h, target, treeSize, index);
    if computed.None? || |captured.siblings| != 0 { return None; }
    assert auditPath[0..] == auditPath;
    return computed;
  }
}
