/** What the height of a position says: the mountains are the set bits of the leaf
    count, highest first, and height 0 marks exactly the leaves. */
module MmrHeights {
  import opened Bits
  import opened MmrPositions

  predicate SetBit(f: nat, a: nat) {
    if a == 0 then f % 2 == 1 else SetBit(f / 2, a - 1)
  }

  /** The height of the node at each mountain's root position. */
  function Heights(f: nat): (hs: seq<nat>)
    ensures |hs| == |PeakList(f)|
    ensures forall i | 0 <= i < |hs| :: hs[i] == NodeAtPos(Positions(PeakList(f))[i]).a
  {
    seq(|PeakList(f)|, i requires 0 <= i < |PeakList(f)| => NodeAtPos(Positions(PeakList(f))[i]).a)
  }

  lemma {:induction false} PeakBit(n: Node, f: nat)
    requires IsPeak(n, f)
    ensures SetBit(f, n.a)
    decreases n.a
  {
    if n.a > 0 { PeakBit(Node(n.x / 2, n.a - 1), f / 2); }
  }

  lemma {:induction false} BitPeak(f: nat, a: nat) returns (n: Node)
    requires SetBit(f, a)
    ensures IsPeak(n, f) && n.a == a
  {
    hide SetBit, Aligned, Pow2;
    BitHalf(f, a);
    if a == 0 {
      n := Node(f - 1, 0);
    } else {
      var half := BitPeak(f / 2, a - 1);
      AlignedTwice(half.x, a);
      Doubling(a - 1);
      n := Node(2 * half.x, a);
    }
  }

  lemma BitHalf(f: nat, a: nat)
    requires SetBit(f, a)
    ensures a > 0 ==> SetBit(f / 2, a - 1)
    ensures a == 0 ==> f > 0 && Aligned(f - 1, 1) && Pow2(0) == 1
  {}

  lemma BitHasPeak(f: nat, a: nat)
    requires SetBit(f, a)
    ensures a in Heights(f)
  {
    var n := BitPeak(f, a);
    hide PeakList, Popcount, IsPeak, NodeAtPos, PosOf, SetBit;
    PeakIndex(n, f);
    PeakHeight(f, Popcount(n.x));
    assert Heights(f)[Popcount(n.x)] == a;
  }

  lemma PeakHeight(f: nat, i: nat)
    requires i < |PeakList(f)|
    ensures Heights(f)[i] == PeakList(f)[i].a && IsPeak(PeakList(f)[i], f)
  {
    hide PeakList, Popcount, IsPeak, NodeAtPos, PosOf, IsNode;
    PeakAt(f, i);
    PeakIsNode(PeakList(f)[i], f);
    NodeAtPosOf(PeakList(f)[i]);
  }

  /** A mountain before the last one is higher. */
  lemma HigherBefore(n: Node, f: nat)
    requires f > 0 && IsPeak(n, LastMountain(f).x)
    ensures n.a > LastMountain(f).a
  {
    hide LowBit, Pow2, Aligned, Popcount;
    var y, t := LastMountain(f).x, LastMountain(f).a;
    Doubling(n.a);
    if t >= n.a {
      AlignedWeaken(y, t + 1, n.a + 1);
      AlignedNested(n.x, n.a + 1, y, n.a + 1);
      assert false;
    }
  }

  lemma {:induction false} Descending(f: nat, i: nat, j: nat)
    requires i < j < |PeakList(f)|
    ensures PeakList(f)[i].a > PeakList(f)[j].a
  {
    var last := LastMountain(f);
    assert PeakList(f) == PeakList(last.x) + [last];
    hide PeakList, LowBit, Pow2, LastMountain, IsPeak;
    if j < |PeakList(last.x)| {
      Descending(last.x, i, j);
    } else {
      PeakAt(last.x, i);
      HigherBefore(PeakList(last.x)[i], f);
    }
  }

  /** The heights at the mountains' positions are the set bits of the leaf count, each
      once, in descending order. */
  lemma HeightsAreSetBits(f: nat)
    ensures forall a: nat :: a in Heights(f) <==> SetBit(f, a)
    ensures forall i, j | 0 <= i < j < |Heights(f)| :: Heights(f)[i] > Heights(f)[j]
  {
    hide PeakList, IsPeak, SetBit;
    forall i | 0 <= i < |PeakList(f)| ensures Heights(f)[i] == PeakList(f)[i].a && SetBit(f, Heights(f)[i]) {
      PeakHeight(f, i);
      PeakBit(PeakList(f)[i], f);
    }
    forall a: nat | SetBit(f, a) ensures a in Heights(f) { BitHasPeak(f, a); }
    forall i, j | 0 <= i < j < |Heights(f)| ensures Heights(f)[i] > Heights(f)[j] { Descending(f, i, j); }
  }

  /** Height 0 is the height of the leaf positions and of nothing else. */
  lemma LeavesHaveHeightZero(p: nat)
    ensures NodeAtPos(p).a == 0 <==> exists i :: p == NodeCount(i)
    ensures forall i: nat :: NodeAtPos(NodeCount(i)) == Node(i, 0)
  {
    hide NodeAtPos, NodeCount;
    forall i: nat ensures NodeAtPos(NodeCount(i)) == Node(i, 0) {
      NodeAtPosOf(Node(i, 0));
    }
    if NodeAtPos(p).a == 0 { assert p == NodeCount(NodeAtPos(p).x); }
  }
}
