/** What an MMR root binds. Equal roots mean equal mountains, equal subtrees, equal
    leaves and, through the committed positions, equal sizes, unless two of the
    finitely many inputs hashed on the two sides collide. */
module MmrBinding {
  import opened Octets
  import opened Bits
  import opened MmrPositions
  import opened MmrTree

  // ------------------------------------------------------ what gets hashed

  function BagInputs(h: Hash, peaks: seq<Digest>): set<Bytes> {
    if |peaks| <= 1 then {} else {BagInput(h, peaks)} + BagInputs(h, peaks[1..])
  }

  /** Inputs of the interior hashes below a node that are not in the known part. */
  function NodeInputs(h: Hash, log: Log, n: Node): set<Bytes>
    requires End(n) <= log.Count()
    decreases n.a
  {
    if End(n) <= log.known || n.a == 0 then {}
    else {TopInput(h, log, n)} + NodeInputs(h, log, Left(n)) + NodeInputs(h, log, Right(n))
  }

  function TopInput(h: Hash, log: Log, n: Node): Bytes
    requires n.a > 0 && End(n) <= log.Count()
  {
    hide Pow2, Popcount;
    ChildEnds(n);
    InteriorInput(NodeHash(h, log, Left(n)), NodeHash(h, log, Right(n)), PosOf(n))
  }

  function PeaksInputs(h: Hash, log: Log, f: nat): set<Bytes>
    requires f <= log.Count()
  {
    if f == 0 then {} else PeaksInputs(h, log, LastMountain(f).x) + NodeInputs(h, log, LastMountain(f))
  }

  /** Everything hashed above the leaves when the root of a log is computed. */
  function RootInputs(h: Hash, log: Log): set<Bytes> {
    BagInputs(h, PeakHashes(h, log, log.Count())) + PeaksInputs(h, log, log.Count())
  }

  function LeafInputs(bodies: seq<Digest>): set<Bytes> {
    set b | b in bodies :: LeafInput(b)
  }

  lemma {:induction false} PeakInputsIncluded(h: Hash, log: Log, f: nat, n: Node)
    requires f <= log.Count() && IsPeak(n, f)
    ensures NodeInputs(h, log, n) <= PeaksInputs(h, log, f)
    decreases f
  {
    hide NodeInputs, Pow2, Aligned, NodeHash;
    if End(n) == f { LastMountainIs(n); } else { PeakShrinks(n, f); PeakInputsIncluded(h, log, LastMountain(f).x, n); }
  }

  // --------------------------------------------------------------- binding

  lemma InteriorBinds(h: Hash, inputs: set<Bytes>, a: Digest, b: Digest, p: nat, c: Digest, d: Digest, q: nat)
    requires CollisionFree(h, inputs)
    requires InteriorInput(a, b, p) in inputs && InteriorInput(c, d, q) in inputs
    requires InteriorHash(h, a, b, p) == InteriorHash(h, c, d, q)
    ensures a == c && b == d
    ensures p + 1 < Pow256(8) && q + 1 < Pow256(8) ==> p == q
  {
    hide BigEndian, FromBigEndian, Pow256, CollisionFree;
    NoCollision(h, inputs, InteriorInput(a, b, p), InteriorInput(c, d, q));
    InteriorSplits(a, b, p, c, d, q);
    if p + 1 < Pow256(8) && q + 1 < Pow256(8) {
      BigEndianRoundTrip(p + 1, 8);
      BigEndianRoundTrip(q + 1, 8);
    }
  }

  /** Peeling off the first k peaks of two equal bags. */
  lemma {:induction false} PeelBags(h: Hash, inputs: set<Bytes>, p: seq<Digest>, q: seq<Digest>, k: nat)
    requires k < |p| && k < |q|
    requires CollisionFree(h, inputs)
    requires BagInputs(h, p) <= inputs && BagInputs(h, q) <= inputs
    requires Bag(h, p) == Bag(h, q)
    ensures p[..k] == q[..k]
    ensures Bag(h, p[k..]) == Bag(h, q[k..])
    ensures BagInputs(h, p[k..]) <= inputs && BagInputs(h, q[k..]) <= inputs
    decreases k
  {
    if k == 0 {
      assert p[0..] == p && q[0..] == q;
    } else {
      NoCollision(h, inputs, BagInput(h, p), BagInput(h, q));
      SplitAt(Bag(h, p[1..]), p[0], Bag(h, q[1..]), q[0]);
      PeelBags(h, inputs, p[1..], q[1..], k - 1);
      hide Bag, BagInputs;
      assert p[1..][k - 1..] == p[k..] && q[1..][k - 1..] == q[k..];
      assert p[..k] == [p[0]] + p[1..][..k - 1] && q[..k] == [q[0]] + q[1..][..k - 1];
    }
  }

  /** Equally many peaks that bag to one root are the same peaks. */
  lemma BagBinds(h: Hash, inputs: set<Bytes>, p: seq<Digest>, q: seq<Digest>)
    requires |p| == |q|
    requires CollisionFree(h, inputs)
    requires BagInputs(h, p) <= inputs && BagInputs(h, q) <= inputs
    requires Bag(h, p) == Bag(h, q)
    ensures p == q
  {
    if p != [] {
      var k := |p| - 1;
      PeelBags(h, inputs, p, q, k);
      assert p[k..] == [p[k]] && q[k..] == [q[k]];
      hide BagInputs, CollisionFree;
      assert p == p[..k] + p[k..] && q == q[..k] + q[k..];
    }
  }

  /** A node the definition of NodeHash asks for. */
  predicate Visible(log: Log, n: Node) {
    IsNode(n) && End(n) <= log.Count() && (End(n) <= log.known ==> IsPeak(n, log.known))
  }

  /** Above the known part, the children of a visible node are visible. */
  lemma VisibleChildren(log: Log, n: Node)
    requires Visible(log, n) && n.a > 0 && End(n) > log.known
    ensures Visible(log, Left(n)) && Visible(log, Right(n))
  {
    ChildrenPositions(n);
  }

  lemma VisibleToward(log: Log, n: Node, top: Node)
    requires Visible(log, top) && Visible(log, n) && Inside(n, top) && n.a < top.a
    ensures End(top) > log.known && Visible(log, Left(top)) && Visible(log, Right(top))
  {
    if End(top) <= log.known {
      PeaksDisjoint(n, top, log.known);
      assert false;
    }
    VisibleChildren(log, top);
  }

  lemma PeaksDisjoint(n: Node, top: Node, f: nat)
    requires IsPeak(n, f) && IsPeak(top, f) && Inside(n, top)
    ensures n == top
  {
    hide Pow2, Aligned;
    Doubling(n.a);
    if n.a < top.a {
      AlignedWeaken(top.x, top.a + 1, top.a);
      AlignedNested(top.x, top.a, n.x, n.a + 1);
      assert false;
    }
    PeakIsNode(n, f);
    PeakIsNode(top, f);
    NodeBounds(n);
    NestedOrDisjoint(n, top);
  }

  /** Two logs that agree on the hash of a node agree on every node under it. */
  lemma {:induction false} NodesAgree(h: Hash, inputs: set<Bytes>, full: Log, log: Log, top: Node, n: Node)
    requires full.known == 0 && End(top) <= full.Count()
    requires Visible(log, top) && Visible(log, n) && Inside(n, top)
    requires CollisionFree(h, inputs)
    requires NodeInputs(h, full, top) <= inputs && NodeInputs(h, log, top) <= inputs
    requires NodeHash(h, full, top) == NodeHash(h, log, top)
    ensures NodeHash(h, full, n) == NodeHash(h, log, n)
    decreases top.a
  {
    if n.a == top.a {
      NodeBounds(n);
      NestedOrDisjoint(n, top);
    } else {
      VisibleToward(log, n, top);
      TowardFacts(n, top);
      NodeHashStep(h, full, top);
      NodeHashStep(h, log, top);
      NodeInputsStep(h, full, top);
      NodeInputsStep(h, log, top);
      hide NodeHash, NodeInputs, Visible, Inside, InteriorHash, InteriorInput, Left, Right, IsNode, End, PosOf,
        CollisionFree;
      InteriorBinds(h, inputs,
        NodeHash(h, full, Left(top)), NodeHash(h, full, Right(top)), PosOf(top),
        NodeHash(h, log, Left(top)), NodeHash(h, log, Right(top)), PosOf(top));
      NodesAgree(h, inputs, full, log, Toward(top, n), n);
    }
  }

  lemma NodeInputsStep(h: Hash, log: Log, n: Node)
    requires n.a > 0 && log.known < End(n) <= log.Count()
    ensures End(Left(n)) <= End(n) && End(Right(n)) == End(n)
    ensures InteriorInput(NodeHash(h, log, Left(n)), NodeHash(h, log, Right(n)), PosOf(n)) in NodeInputs(h, log, n)
    ensures NodeInputs(h, log, Left(n)) <= NodeInputs(h, log, n)
    ensures NodeInputs(h, log, Right(n)) <= NodeInputs(h, log, n)
  {
    ChildEnds(n);
    hide NodeHash, InteriorInput, PosOf, Left, Right, End;
  }

  lemma ChildEnds(n: Node)
    requires n.a > 0
    ensures End(Left(n)) <= End(n) && End(Right(n)) == End(n)
  {}

  /** Every node lies under the mountain over its first leaf. */
  lemma NodeInPeak(n: Node, f: nat)
    requires IsNode(n) && End(n) <= f && n.x < f
    ensures Inside(n, PeakOver(f, n.x))
  {
    var top := PeakOver(f, n.x);
    hide PeakOver, Pow2, Aligned;
    Doubling(top.a);
    AlignedWeaken(top.x, top.a + 1, top.a);
    if top.a < n.a {
      if top.x < n.x {
        AlignedNested(top.x, top.a, n.x, top.a) by { AlignedWeaken(n.x, n.a, top.a); }
        assert false;
      }
      AlignedNested(n.x, n.a, top.x, top.a + 1);
      assert false;
    }
    AlignedNested(top.x, top.a, n.x, n.a);
  }

  lemma PeakVisible(log: Log, n: Node)
    requires IsPeak(n, log.Count())
    ensures Visible(log, n)
  {
    PeakIsNode(n, log.Count());
    hide Pow2, Aligned;
  }

  lemma LeafVisible(log: Log, i: nat)
    requires log.known <= i < log.Count()
    ensures Visible(log, Node(i, 0)) && End(Node(i, 0)) == i + 1
  {}

  /** Two mountains of one leaf count are equal or disjoint. */
  lemma PeaksApart(p: Node, q: Node, f: nat)
    requires IsPeak(p, f) && IsPeak(q, f)
    ensures p == q || End(p) <= q.x || End(q) <= p.x
  {
    hide Pow2, Aligned;
    PeakIsNode(p, f);
    PeakIsNode(q, f);
    if p.x < End(q) && q.x < End(p) {
      if q.x <= p.x && p.a <= q.a {
        NestedOrDisjoint(p, q);
        PeaksDisjoint(p, q, f);
      } else if p.x <= q.x && q.a <= p.a {
        NestedOrDisjoint(q, p);
        PeaksDisjoint(q, p, f);
      } else if p.a < q.a {
        AlignedNested(p.x, p.a, q.x, p.a) by { AlignedWeaken(q.x, q.a, p.a); }
      } else {
        AlignedNested(q.x, q.a, p.x, q.a) by { AlignedWeaken(p.x, p.a, q.a); }
      }
    }
  }
}
