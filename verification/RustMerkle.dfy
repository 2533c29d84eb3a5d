/** The Rust crate's inclusion fold, in u64. */
module RustMerkle {
  import opened Octets
  import opened Bits
  import opened Cbor
  import opened Merkle
  import Reference = MerkleVerifier
  import opened FixedWidth

  /** The loop evaluates its guard at k = 2^a. */
  predicate GuardReached(n: nat, a: nat) { a == 0 || Pow2(a) < n }

  /** The guard doubles, so the loop is safe exactly up to 2^63. */
  lemma GuardFits(n: nat)
    ensures (forall a: nat | GuardReached(n, a) :: 2 * Pow2(a) < TWO64) <==> n <= TWO63
  {
    Powers();
    if n > TWO63 {
      assert GuardReached(n, 63) && 2 * Pow2(63) == TWO64;
    } else {
      forall a: nat | GuardReached(n, a) ensures 2 * Pow2(a) < TWO64 {
        if a >= 63 { Pow2Monotone(63, a); }
        Pow2Monotone(a, 63);
      }
    }
  }

  /** A product that does not fit is an overflow: a panic in a checked build. */
  method Double(k: uint64) returns (r: Option<uint64>)
    ensures r.Some? <==> 2 * (k as nat) < TWO64
    ensures r.Some? ==> r.value as nat == 2 * (k as nat)
  {
    if k > 0x7FFF_FFFF_FFFF_FFFF { return None; }
    return Some(k * 2);
  }

  lemma DoublingStops(n: nat, a: nat)
    requires n <= 2 * Pow2(a) < TWO64
    ensures n <= TWO63
  {
    Powers();
    Pow2Monotone(a + 1, 63);
    Pow2Monotone(64, a + 1);
  }

  /** For any u64: nothing exactly when the guard overflows, which is above 2^63. */
  method LargestPow2Below(n: uint64) returns (r: Option<uint64>)
    ensures r.None? <==> n as nat > TWO63
    ensures r.Some? && n <= 1 ==> r.value == 1
    ensures r.Some? && n > 1 ==> r.value as nat == SplitPoint(n as nat)
  {
    hide SplitPoint;
    var k: uint64 := 1;
    ghost var a := 0;
    var doubled := Double(k);
    while doubled.Some? && doubled.value < n
      invariant k as nat == Pow2(a) && GuardReached(n as nat, a)
      invariant doubled.Some? <==> 2 * (k as nat) < TWO64
      invariant doubled.Some? ==> doubled.value as nat == 2 * (k as nat)
      decreases n as int - k as int
    {
      k := doubled.value;
      a := a + 1;
      doubled := Double(k);
    }
    if doubled.None? { return None; }
    DoublingStops(n as nat, a);
    if n > 1 { SplitPointUnique(n as nat, a); }
    return Some(k);
  }

  /** For any pair of u64: nothing exactly when the split overflows. */
  method ExpectedInclusionPathLen(treeSize: uint64, index: uint64) returns (r: Option<uint64>)
    ensures r.None? <==> treeSize as nat > TWO63
    ensures r.Some? && index < treeSize ==> r.value as nat == PathLen(treeSize as nat, index as nat)
    ensures r.Some? && treeSize <= 1 ==> r.value == 0
  {
    hide SplitPoint, PathLen;
    var n: uint64 := 0;
    var size, m := treeSize, index;
    while size > 1
      invariant n == 0 || 0 < size as int <= treeSize as int - n as int
      invariant n == 0 ==> size == treeSize && m == index
      invariant n > 0 ==> treeSize as nat <= TWO63
      invariant index < treeSize ==> m < size
      invariant index < treeSize ==> n as int + PathLen(size as nat, m as nat) == PathLen(treeSize as nat, index as nat)
      decreases size as int
    {
      var split := LargestPow2Below(size);
      if split.None? { return None; }
      var k := split.value;
      if index < treeSize { Reference.PathLenOneLevel(size as nat, m as nat); }
      if m < k {
        size := k;
      } else {
        size := size - k;
        m := m - k;
      }
      n := n + 1;
    }
    Reference.NoPath();
    return Some(n);
  }

  /** The vector that the fold borrows mutably and pops. */
  class BorrowedSiblings {
    var siblings: seq<Bytes>

    constructor (auditPath: seq<Digest>)
      ensures siblings == auditPath
    {
      siblings := auditPath;
    }

    method Pop() returns (sibling: Option<Bytes>)
      modifies this
      ensures old(siblings) == [] ==> sibling.None? && siblings == []
      ensures old(siblings) != [] ==> sibling.Some? && old(siblings) == siblings + [sibling.value]
    {
      if siblings == [] { return None; }
      sibling := Some(siblings[|siblings| - 1]);
      siblings := siblings[..|siblings| - 1];
    }

    method Fold(h: Hash, size: uint64, m: uint64, target: Digest) returns (r: Option<Digest>)
      requires m < size && size as nat <= TWO63
      modifies this
      ensures r.Some? <==> PathLen(size as nat, m as nat) <= |old(siblings)|
      ensures r.Some? ==> siblings == Reference.Leftover(size as nat, m as nat, old(siblings))
      ensures r.Some? ==> r.value == Reference.FoldTail(h, target, size as nat, m as nat, old(siblings))
      decreases size as int
    {
      hide Reference.Leftover, Reference.FoldTail, PathLen, SplitPoint;
      if size == 1 {
        Reference.FoldNothing(h, target, siblings);
        return Some(target);
      }
      Reference.PathLenOneLevel(size as nat, m as nat);
      var sibling := Pop();
      if sibling.None? { return None; }
      if PathLen(size as nat, m as nat) <= |old(siblings)| {
        Reference.FoldOneLevel(h, target, size as nat, m as nat, siblings, sibling.value);
      }
      var split := LargestPow2Below(size);
      var k := split.value;
      if m < k {
        var child := Fold(h, k, m, target);
        if child.None? { return None; }
        return Some(NodeHash(h, child.value, sibling.value));
      } else {
        var child := Fold(h, size - k, m - k, target);
        if child.None? { return None; }
        return Some(NodeHash(h, sibling.value, child.value));
      }
    }
  }

  /** The same root, or the same refusal, as the unbounded reference. */
  method RootFromInclusionProof(h: Hash, entry: Bytes, index: uint64, treeSize: uint64, auditPath: Slice<Digest>)
    returns (root: Option<Digest>)
    ensures root == RootFromPath(h, entry, index as int, treeSize as int, auditPath)
  {
    hide PathLen;
    if treeSize == 0 || index >= treeSize || treeSize as int > MAX_TREE_SIZE { return None; }
    var expected := ExpectedInclusionPathLen(treeSize, index);
    if |auditPath| as uint64 != expected.value { return None; }
    var target := LeafHash(h, entry);
    var borrowed := new BorrowedSiblings(auditPath);
    var computed := borrowed.Fold(h, treeSize, index, target);
    if computed.None? { return None; }
    if |borrowed.siblings| != 0 { return None; }
    assert auditPath[0..] == auditPath;
    return computed;
  }
}
