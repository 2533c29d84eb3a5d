/** Positions in the flat array of a Merkle Mountain Range. A node is the perfect
    subtree of height a over the leaves x .. x + 2^a - 1; the array lists the nodes
    in post-order. */
module MmrPositions {
  import opened Octets
  import opened Bits

  const MAX_MMR_SIZE: nat := 0x4_0000_0000_0000

  datatype Node = Node(x: nat, a: nat)

  predicate IsNode(n: Node) { Aligned(n.x, n.a) }

  function End(n: Node): nat { n.x + Pow2(n.a) }

  function NodeCount(f: nat): nat { 2 * f - Popcount(f) }

  function PosOf(n: Node): nat { NodeCount(n.x) + 2 * Pow2(n.a) - 2 }

  function Left(n: Node): Node
    requires n.a > 0
  { Node(n.x, n.a - 1) }

  function Right(n: Node): Node
    requires n.a > 0
  { Node(n.x + Pow2(n.a - 1), n.a - 1) }

  predicate Inside(n: Node, top: Node) {
    top.x <= n.x && End(n) <= End(top) && n.a <= top.a
  }

  // --------------------------------------------------------- node counts

  lemma NodeCountStep(f: nat)
    ensures NodeCount(f + 1) == NodeCount(f) + 1 + LowBit(f + 1)
  {
    PopcountStep(f);
  }

  lemma {:induction false} NodeCountMonotone(f: nat, g: nat)
    requires f <= g
    ensures NodeCount(f) + (g - f) <= NodeCount(g)
    decreases g
  {
    if f < g {
      NodeCountMonotone(f, g - 1);
      NodeCountStep(g - 1);
    }
  }

  /** No two leaf counts have the same node count. */
  lemma NodeCountInjective(f: nat, g: nat)
    requires NodeCount(f) == NodeCount(g)
    ensures f == g
  {
    hide NodeCount;
    if f < g { NodeCountMonotone(f, g); } else { NodeCountMonotone(g, f); }
  }

  lemma NodeCountSplit(x: nat, r: nat, a: nat)
    requires Aligned(x, a) && r < Pow2(a)
    ensures NodeCount(x + r) == NodeCount(x) + NodeCount(r)
  {
    PopcountSplit(x, r, a);
  }

  /** Just before a subtree's last leaf is appended, and just after. */
  lemma NodeCountAround(n: Node)
    requires IsNode(n)
    ensures NodeCount(End(n) - 1) + n.a == PosOf(n)
    ensures PosOf(n) < NodeCount(End(n))
    ensures Aligned(n.x, n.a + 1) ==> NodeCount(End(n)) == PosOf(n) + 1
  {
    hide Popcount, Aligned, LowBit, Pow2;
    NodeCountSplit(n.x, Pow2(n.a) - 1, n.a);
    PopcountPow2(n.a);
    NodeCountStep(End(n) - 1);
    AlignedPow2(n.a, n.a);
    AlignedAdd(n.x, Pow2(n.a), n.a);
    LowBitAligned(End(n), n.a);
    if Aligned(n.x, n.a + 1) { LowBitOfSum(n.x, n.a); }
  }

  lemma ChildrenPositions(n: Node)
    requires IsNode(n) && n.a > 0
    ensures IsNode(Left(n)) && IsNode(Right(n))
    ensures Inside(Left(n), n) && Inside(Right(n), n) && End(Left(n)) == Right(n).x && End(Right(n)) == End(n)
    ensures PosOf(Left(n)) + Pow2(n.a) == PosOf(n) && PosOf(Right(n)) + 1 == PosOf(n)
    ensures NodeCount(Right(n).x) == PosOf(Left(n)) + 1
  {
    hide Aligned, Pow2, Popcount, NodeCount;
    Doubling(n.a - 1);
    AlignedWeaken(n.x, n.a, n.a - 1);
    AlignedPow2(n.a - 1, n.a - 1);
    AlignedAdd(n.x, Pow2(n.a - 1), n.a - 1);
    NodeCountAround(Left(n));
  }

  lemma NodeBounds(n: Node)
    requires IsNode(n)
    ensures NodeCount(n.x) <= PosOf(n) < NodeCount(End(n))
    ensures n.x < End(n)
  {
    NodeCountAround(n);
  }

  /** Nodes of one array are nested or disjoint. */
  lemma NestedOrDisjoint(n: Node, top: Node)
    requires IsNode(n) && IsNode(top) && n.a <= top.a && top.x <= n.x < End(top)
    ensures Inside(n, top)
    ensures n.a == top.a ==> n == top
  {
    AlignedNested(top.x, top.a, n.x, n.a);
  }

  // ------------------------------------------------ positions and nodes

  /** The node at position p of the subtree `top`. */
  function Descend(p: nat, top: Node): (n: Node)
    requires IsNode(top) && NodeCount(top.x) <= p <= PosOf(top)
    ensures IsNode(n) && Inside(n, top) && PosOf(n) == p
    decreases top.a
  {
    if p == PosOf(top) then top
    else
      assert top.a > 0;
      ChildrenPositions(top);
      if p <= PosOf(Left(top)) then Descend(p, Left(top)) else Descend(p, Right(top))
  }

  /** Every subtree has its own position. */
  lemma {:induction false} DescendFinds(n: Node, top: Node)
    requires IsNode(n) && IsNode(top) && Inside(n, top)
    ensures NodeCount(top.x) <= PosOf(n) <= PosOf(top)
    ensures Descend(PosOf(n), top) == n
    decreases top.a
  {
    hide PosOf, NodeCount, Pow2, IsNode;
    NodeBounds(n);
    NodeBounds(top);
    if n.a == top.a {
      NestedOrDisjoint(n, top);
    } else {
      ChildrenPositions(top);
      if n.x < Right(top).x {
        NestedOrDisjoint(n, Left(top));
        DescendFinds(n, Left(top));
      } else {
        NodeBounds(Left(top));
        NestedOrDisjoint(n, Right(top));
        DescendFinds(n, Right(top));
      }
    }
  }

  lemma InsideBig(n: Node, g: nat)
    requires IsNode(n) && End(n) <= g
    ensures IsNode(Node(0, g)) && Inside(n, Node(0, g))
  {
    AlignedZero(g);
    Pow2Grows(g);
    Pow2Grows(n.a);
  }

  lemma PosInjective(n: Node, n': Node)
    requires IsNode(n) && IsNode(n') && PosOf(n) == PosOf(n')
    ensures n == n'
  {
    var g := End(n) + End(n');
    InsideBig(n, g);
    InsideBig(n', g);
    DescendFinds(n, Node(0, g));
    DescendFinds(n', Node(0, g));
  }

  // ------------------------------------------------------------- peaks

  /** Bit a of f is set and the bits above it are those of x. */
  predicate IsPeak(n: Node, f: nat) {
    Aligned(n.x, n.a + 1) && End(n) <= f < n.x + 2 * Pow2(n.a)
  }

  /** The mountain of the lowest set bit. */
  function LastMountain(f: nat): (n: Node)
    requires f > 0
    ensures IsPeak(n, f) && End(n) == f && n.x < f
    ensures Popcount(n.x) + 1 == Popcount(f)
  {
    hide Aligned, Popcount, Pow2, LowBit;
    LowBitClear(f);
    Doubling(LowBit(f));
    Node(f - Pow2(LowBit(f)), LowBit(f))
  }

  /** The mountains of f leaves, left to right: one for every set bit of f. */
  function PeakList(f: nat): (peaks: seq<Node>)
    ensures |peaks| == Popcount(f)
  {
    if f == 0 then [] else PeakList(LastMountain(f).x) + [LastMountain(f)]
  }

  lemma LastMountainIs(n: Node)
    requires Aligned(n.x, n.a + 1)
    ensures LastMountain(End(n)) == n
  {
    LowBitOfSum(n.x, n.a);
  }

  /** The last mountain is a single leaf exactly when the leaf count is odd. */
  lemma LastMountainHeight(f: nat)
    requires f > 0
    ensures LastMountain(f).a == 0 <==> f % 2 == 1
    ensures f % 2 == 1 ==> LastMountain(f).x == f - 1
    ensures IsNode(LastMountain(f))
    ensures PosOf(LastMountain(f)) + 1 == NodeCount(f)
  {
    PeakIsNode(LastMountain(f), f);
  }

  lemma PeakIsNode(n: Node, f: nat)
    requires IsPeak(n, f)
    ensures IsNode(n)
    ensures NodeCount(End(n)) == PosOf(n) + 1
  {
    AlignedWeaken(n.x, n.a + 1, n.a);
    NodeCountAround(n);
  }

  /** The i-th mountain, and the leaf counts before and after it. */
  lemma {:induction false} PeakAt(f: nat, i: nat)
    requires i < Popcount(f)
    ensures IsPeak(PeakList(f)[i], f)
    ensures PeakList(f)[..i] == PeakList(PeakList(f)[i].x)
    ensures PeakList(f)[..i + 1] == PeakList(End(PeakList(f)[i]))
  {
    hide LastMountain, Pow2, Popcount;
    var last := LastMountain(f);
    assert PeakList(f) == PeakList(last.x) + [last];
    hide PeakList;
    var before := PeakList(last.x);
    if i == |before| {
      assert (before + [last])[..i] == before;
      assert (before + [last])[..i + 1] == before + [last];
    } else {
      PeakAt(last.x, i);
      var n := before[i];
      assert IsPeak(n, f) by { PeakGrows(n, f); }
      assert (before + [last])[..i] == before[..i];
      assert (before + [last])[..i + 1] == before[..i + 1];
    }
  }

  /** The mountains follow one another without a gap, from leaf 0 to leaf f. */
  lemma {:induction false} PeaksAdjoin(f: nat, i: nat)
    requires i < Popcount(f)
    ensures i == 0 ==> PeakList(f)[i].x == 0
    ensures End(PeakList(f)[i]) == if i + 1 < Popcount(f) then PeakList(f)[i + 1].x else f
  {
    var last := LastMountain(f);
    assert PeakList(f) == PeakList(last.x) + [last];
    hide PeakList, LowBit, Pow2, LastMountain;
    if i < Popcount(last.x) {
      PeaksAdjoin(last.x, i);
    } else if i == 0 {
      EmptyPrefix(last.x);
    }
  }

  lemma EmptyPrefix(x: nat)
    requires PeakList(x) == []
    ensures x == 0
  {}

  /** A mountain of f with its lowest bit cleared is a mountain of f. */
  lemma PeakGrows(n: Node, f: nat)
    requires f > 0 && IsPeak(n, LastMountain(f).x)
    ensures IsPeak(n, f)
  {
    hide LastMountain, LowBit, Pow2, Aligned, Popcount;
    var y, t := LastMountain(f).x, LastMountain(f).a;
    Doubling(n.a);
    Doubling(t);
    if t > n.a {
      // aligned to n's own block, so it cannot lie strictly inside it
      AlignedWeaken(y, t + 1, n.a + 1);
      AlignedNested(n.x, n.a + 1, y, n.a + 1);
      assert false;
    }
    AlignedNested(n.x, n.a + 1, y, t + 1);
  }

  /** Every mountain of f is in the list, at the index counted by the bits above it. */
  lemma {:induction false} PeakIndex(n: Node, f: nat)
    requires IsPeak(n, f)
    ensures Popcount(n.x) < Popcount(f) && PeakList(f)[Popcount(n.x)] == n
    decreases f
  {
    var last := LastMountain(f);
    if End(n) == f {
      LowBitOfSum(n.x, n.a);
    } else {
      PeakShrinks(n, f);
      PeakIndex(n, last.x);
    }
  }

  lemma PeakShrinks(n: Node, f: nat)
    requires IsPeak(n, f) && End(n) < f
    ensures IsPeak(n, LastMountain(f).x)
  {
    hide Aligned, Pow2, LowBit, Popcount;
    var y, t := f - Pow2(LowBit(f)), LowBit(f);
    LowBitClear(f);
    AlignedWeaken(y, t + 1, t);
    AlignedPow2(t, t);
    AlignedAdd(y, Pow2(t), t);
    Doubling(n.a);
    if t > n.a {
      AlignedWeaken(f, t, n.a + 1);
      AlignedNested(n.x, n.a + 1, f, n.a + 1);
      assert false;
    }
    if y < End(n) {
      AlignedWeaken(n.x, n.a + 1, n.a);
      if t == n.a { AlignedWeaken(y, t + 1, n.a + 1); AlignedNested(y, n.a + 1, n.x, n.a + 1); }
      AlignedNested(n.x, n.a, y, t);
      assert false;
    }
  }

  /** The mountain over leaf i. */
  function PeakOver(f: nat, i: nat): (n: Node)
    requires i < f
    ensures IsPeak(n, f) && n.x <= i < End(n)
    decreases f
  {
    var last := LastMountain(f);
    if i >= last.x then last
    else
      PeakGrows(PeakOver(last.x, i), f);
      PeakOver(last.x, i)
  }

  function Positions(nodes: seq<Node>): (ps: seq<nat>)
    ensures |ps| == |nodes|
    ensures forall i | 0 <= i < |nodes| :: ps[i] == PosOf(nodes[i])
  {
    seq(|nodes|, i requires 0 <= i < |nodes| => PosOf(nodes[i]))
  }

  lemma PositionsAppend(nodes: seq<Node>, n: Node)
    ensures Positions(nodes + [n]) == Positions(nodes) + [PosOf(n)]
  {}

  /** The leaf count of an array of `size` nodes, if it is one. */
  ghost function LeavesOf(size: int): (f: Option<nat>)
    ensures f.Some? ==> NodeCount(f.value) == size
    ensures f.None? ==> forall g: nat :: NodeCount(g) != size
  {
    if g: nat :| NodeCount(g) == size then Some(g) else None
  }

  lemma LeavesOfNodeCount(f: nat)
    ensures LeavesOf(NodeCount(f)) == Some(f)
  {
    NodeCountInjective(LeavesOf(NodeCount(f)).value, f);
  }

  /** Between the node counts of `done` and of the next number with a higher low
      bit there is no room for a second mountain of the same height. */
  lemma NotANodeCount(done: nat, size: nat)
    requires done > 0 && size == NodeCount(done) + 2 * Pow2(LowBit(done)) - 1
    ensures LeavesOf(size) == None
  {
    hide NodeCount, Pow2, LowBit, PosOf, End;
    var n := Node(done, LowBit(done));
    GapAfter(n);
    forall f: nat ensures NodeCount(f) != size {
      if f < End(n) { NodeCountMonotone(f, End(n) - 1); } else { NodeCountMonotone(End(n), f); }
    }
  }

  lemma GapAfter(n: Node)
    requires n.x > 0 && n.a == LowBit(n.x)
    ensures End(n) > 0 && NodeCount(End(n) - 1) < NodeCount(n.x) + 2 * Pow2(n.a) - 1 < NodeCount(End(n))
  {
    hide LowBit, Pow2, Aligned, NodeCount;
    LowBitClear(n.x);
    BitAligned(n.x);
    LowBitAligned(End(n), n.a + 1);
    NodeCountAround(n);
    NodeCountStep(End(n) - 1);
  }

  lemma {:induction false} BitAligned(f: nat)
    requires f > 0
    ensures Aligned(f, LowBit(f))
  {
    if f % 2 == 0 { BitAligned(f / 2); }
  }

  /** The node at a position of the array. */
  function NodeAtPos(p: nat): (n: Node)
    ensures IsNode(n) && PosOf(n) == p
  {
    AlignedZero(p);
    Pow2Grows(p);
    Descend(p, Node(0, p))
  }

  lemma NodeAtPosOf(n: Node)
    requires IsNode(n)
    ensures NodeAtPos(PosOf(n)) == n
  {
    PosInjective(NodeAtPos(PosOf(n)), n);
  }

  // -------------------------------------------------------------- paths

  datatype PathStep = PathStep(siblingPos: nat, targetIsRight: bool, parentPos: nat)

  /** The child of `top` on the way to a node strictly below it, and its sibling. */
  function Toward(top: Node, n: Node): Node
    requires n.a < top.a
  {
    if n.x >= Right(top).x then Right(top) else Left(top)
  }

  function Sibling(top: Node, n: Node): Node
    requires n.a < top.a
  {
    if n.x >= Right(top).x then Left(top) else Right(top)
  }

  lemma TowardFacts(n: Node, top: Node)
    requires IsNode(n) && IsNode(top) && Inside(n, top) && n.a < top.a
    ensures IsNode(Toward(top, n)) && IsNode(Sibling(top, n)) && Inside(n, Toward(top, n))
    ensures PosOf(n) <= PosOf(Left(top)) <==> n.x < Right(top).x
  {
    hide NodeCount, PosOf, Pow2, IsNode;
    ChildrenPositions(top);
    NodeBounds(n);
    if n.x < Right(top).x {
      NestedOrDisjoint(n, Left(top));
      DescendFinds(n, Left(top));
    } else {
      NestedOrDisjoint(n, Right(top));
      NodeCountMonotone(Right(top).x, n.x);
    }
  }

  /** The siblings from node n up to `top`, innermost first. */
  function Steps(top: Node, n: Node): (steps: seq<PathStep>)
    requires IsNode(n) && IsNode(top) && Inside(n, top)
    ensures |steps| == top.a - n.a
    decreases top.a
  {
    if n.a == top.a then []
    else
      TowardFacts(n, top);
      Steps(Toward(top, n), n) + [PathStep(PosOf(Sibling(top, n)), n.x >= Right(top).x, PosOf(top))]
  }
}
