/** The position math of the log verifier as it runs, with no store to look at. */
module CllPositions {
  import opened Octets
  import opened Bits
  import opened MmrPositions

  /** A subtree of height a has 2^(a+1) - 1 positions; the first half of them, less
      one, is its left child. */
  lemma SubtreeSpan(n: Node)
    requires IsNode(n)
    ensures PosOf(n) + 1 == NodeCount(n.x) + Pow2(n.a + 1) - 1
    ensures n.a > 0 ==>
      && IsNode(Left(n)) && IsNode(Right(n)) && Left(n).x == n.x
      && NodeCount(Right(n).x) == NodeCount(n.x) + Pow2(n.a) - 1
  {
    if n.a > 0 { ChildrenPositions(n); }
  }

  method HeightAt(pos: nat) returns (height: nat)
    ensures height == NodeAtPos(pos).a
  {
    hide IsNode, NodeCount, PosOf, NodeAtPos, Pow2, Popcount;
    var pos1 := pos + 1;
    var h := 0;
    Pow2Grows(pos1);
    while Pow2(h + 1) - 1 < pos1
      invariant h <= pos1
      decreases pos1 - h
    {
      Pow2Grows(h + 1);
      h := h + 1;
    }
    ghost var n := Origin(h);
    while h > 0
      invariant IsNode(n) && n.a == h
      invariant 0 < pos1 <= Pow2(h + 1) - 1 && pos1 + NodeCount(n.x) == pos + 1
    {
      var size := Pow2(h + 1) - 1;
      SubtreeSpan(n);
      if pos1 == size {
        NodeAtPosOf(n);
        return h;
      }
      var leftSize := Pow2(h) - 1;
      Doubling(h);
      if pos1 > leftSize {
        pos1 := pos1 - leftSize;
        n := Right(n);
      } else {
        n := Left(n);
      }
      h := h - 1;
    }
    EmptyMmr();
    Doubling(0);
    SubtreeSpan(n);
    NodeAtPosOf(n);
    return 0;
  }

  ghost function Origin(h: nat): (n: Node)
    ensures IsNode(n) && n.a == h && NodeCount(n.x) == 0
  {
    AlignedZero(h);
    Node(0, h)
  }

  lemma OnlyRepeat(h: nat, t: nat, remaining: nat)
    requires Pow2(h + 1) - 1 <= remaining < Pow2(t + 1) && t <= h
    ensures h == t && remaining == 2 * Pow2(t) - 1
  {
    Pow2Monotone(t, h);
  }

  lemma EmptyMmr()
    ensures NodeCount(0) == 0 && PeakList(0) == [] && Pow2(0) == 1
  {}

  /** A lower mountain after the ones of `done` leaves. */
  lemma NextMountain(done: nat, h: nat)
    requires done == 0 || h < LowBit(done)
    ensures LowBit(done + Pow2(h)) == h
    ensures NodeCount(done + Pow2(h)) == NodeCount(done) + 2 * Pow2(h) - 1
    ensures Positions(PeakList(done + Pow2(h))) == Positions(PeakList(done)) + [NodeCount(done) + 2 * Pow2(h) - 2]
  {
    hide PeakList, NodeCount, Aligned, LowBit, Pow2, Popcount, PosOf, IsPeak;
    AlignedBelow(done, h);
    LowBitOfSum(done, h);
    NextPeak(Node(done, h));
    PeakIsNode(Node(done, h), End(Node(done, h)));
    PositionFormula(Node(done, h));
    PositionsAppend(PeakList(done), Node(done, h));
  }

  lemma AlignedBelow(done: nat, h: nat)
    requires done == 0 || h < LowBit(done)
    ensures Aligned(done, h + 1)
  {
    if done == 0 {
      AlignedZero(h + 1);
    } else {
      BitAligned(done);
      AlignedWeaken(done, LowBit(done), h + 1);
    }
  }

  lemma PositionFormula(n: Node)
    ensures PosOf(n) == NodeCount(n.x) + 2 * Pow2(n.a) - 2
  {}

  lemma NextPeak(n: Node)
    requires Aligned(n.x, n.a + 1)
    ensures IsPeak(n, End(n)) && PeakList(End(n)) == PeakList(n.x) + [n]
  {
    LowBitOfSum(n.x, n.a);
  }

  /** The mountains' root positions, or nothing when no number of leaves makes an
      array of this size. */
  method Peaks(size: int) returns (r: Option<seq<nat>>)
    ensures r.Some? <==> 0 <= size < MAX_MMR_SIZE && LeavesOf(size).Some?
    ensures r.Some? ==> r.value == Positions(PeakList(LeavesOf(size).value))
  {
    hide PeakList, NodeCount, Pow2, LowBit, Popcount, PosOf;
    if size < 0 || size >= MAX_MMR_SIZE { return None; }
    var result: seq<nat> := [];
    var remaining: int, offset: nat := size, 0;
    EmptyMmr();
    var prevHeight: Option<nat> := None;
    ghost var done: nat := 0;
    while remaining > 0
      invariant remaining >= 0 && offset == NodeCount(done) && offset + remaining == size
      invariant result == Positions(PeakList(done))
      invariant prevHeight.None? ==> done == 0
      invariant prevHeight.Some? ==> done > 0 && prevHeight.value == LowBit(done) && remaining < Pow2(LowBit(done) + 1)
    {
      var h: nat := 0;
      Pow2Grows(remaining);
      Doubling(0);
      while Pow2(h + 2) - 1 <= remaining
        invariant h <= remaining && Pow2(h + 1) - 1 <= remaining
        decreases remaining - h
      {
        Pow2Grows(h + 2);
        h := h + 1;
      }
      if prevHeight.Some? && h >= prevHeight.value {
        OnlyRepeat(h, LowBit(done), remaining);
        assert size == NodeCount(done) + 2 * Pow2(LowBit(done)) - 1;
        NotANodeCount(done, size);
        return None;
      }
      NextMountain(done, h);
      Doubling(h);
      Doubling(h + 1);
      var mSize := Pow2(h + 1) - 1;
      offset := offset + mSize;
      result := result + [offset - 1];
      remaining := remaining - mSize;
      prevHeight := Some(h);
      done := done + Pow2(h);
      assert result == Positions(PeakList(done));
    }
    LeavesOfNodeCount(done);
    return Some(result);
  }

  method LeafCount(size: int) returns (r: Option<nat>)
    ensures r == if 0 <= size < MAX_MMR_SIZE then LeavesOf(size) else None
  {
    hide PeakList, NodeCount, Aligned, LowBit, Pow2, IsNode, PosOf;
    var pks := Peaks(size);
    if pks.None? { return None; }
    ghost var f := LeavesOf(size).value;
    var total: nat := 0;
    var i: nat := 0;
    EmptyMmr();
    if |pks.value| > 0 { PeaksAdjoin(f, 0); }
    while i < |pks.value|
      invariant 0 <= i <= |pks.value|
      invariant total == if i < |pks.value| then PeakList(f)[i].x else f
    {
      PeakAt(f, i);
      PeaksAdjoin(f, i);
      ghost var n := PeakList(f)[i];
      PeakIsNode(n, f);
      NodeAtPosOf(n);
      var height := HeightAt(pks.value[i]);
      total := total + Pow2(height);
      i := i + 1;
    }
    return Some(total);
  }

  method LeafIndexToPos(leafIndex: nat) returns (r: Option<nat>)
    ensures r == if NodeCount(leafIndex) < MAX_MMR_SIZE then Some(PosOf(Node(leafIndex, 0))) else None
  {
    var pos := NodeCount(leafIndex);
    if pos >= MAX_MMR_SIZE { return None; }
    return Some(pos);
  }

  /** The mountain whose positions include `pos`, or -1 beyond the last one. */
  method FindContainingPeak(pos: nat, peakPositions: seq<nat>, ghost f: nat) returns (r: int)
    requires peakPositions == Positions(PeakList(f))
    ensures -1 <= r < |peakPositions|
    ensures r == -1 <==> pos >= NodeCount(f)
    ensures r >= 0 ==> NodeCount(PeakList(f)[r].x) <= pos <= PosOf(PeakList(f)[r])
  {
    hide PeakList, NodeCount, Aligned, LowBit, Pow2, IsNode, PosOf, IsPeak, Popcount;
    EmptyMmr();
    ghost var seen: nat := 0;
    if |peakPositions| > 0 { PeaksAdjoin(f, 0); } else { EmptyPrefix(f); }
    var i := 0;
    while i < |peakPositions|
      invariant 0 <= i <= |peakPositions|
      invariant seen == if i < |peakPositions| then PeakList(f)[i].x else f
      invariant NodeCount(seen) <= pos
    {
      ghost var n := PeakList(f)[i];
      PeakAt(f, i);
      PeaksAdjoin(f, i);
      PeakIsNode(n, f);
      NodeAtPosOf(n);
      SubtreeSpan(n);
      NodeBounds(n);
      PeakInside(f, n);
      var h := HeightAt(peakPositions[i]);
      var mSize := Pow2(h + 1) - 1;
      var start := peakPositions[i] - mSize + 1;
      if start <= pos <= peakPositions[i] { return i; }
      seen := End(n);
      i := i + 1;
    }
    return -1;
  }

  lemma PeakInside(f: nat, n: Node)
    requires IsPeak(n, f)
    ensures PosOf(n) < NodeCount(f)
  {
    PeakIsNode(n, f);
    NodeCountMonotone(End(n), f);
  }

  function Reverse<T>(s: seq<T>): seq<T> {
    if s == [] then [] else Reverse(s[1..]) + [s[0]]
  }

  lemma {:induction false} ReverseAppend<T>(s: seq<T>, x: T)
    ensures Reverse(s + [x]) == [x] + Reverse(s)
  {
    if s != [] {
      assert (s + [x])[1..] == s[1..] + [x];
      ReverseAppend(s[1..], x);
    }
  }

  method ReverseSteps(s: seq<PathStep>) returns (r: seq<PathStep>)
    ensures r == Reverse(s)
  {
    r := [];
    var i := |s|;
    assert s[..i] == s;
    while i > 0
      invariant 0 <= i <= |s| && Reverse(s) == r + Reverse(s[..i])
    {
      i := i - 1;
      assert s[..i + 1] == s[..i] + [s[i]];
      ReverseAppend(s[..i], s[i]);
      r := r + [s[i]];
    }
  }

  /** The siblings and sides between a node and a subtree root above it, from the
      two positions and the root's height alone. */
  method LocatePath(rootPos: nat, height: nat, targetPos: nat, ghost top: Node, ghost n: Node)
    returns (path: seq<PathStep>)
    requires IsNode(top) && IsNode(n) && Inside(n, top)
    requires rootPos == PosOf(top) && height == top.a && targetPos == PosOf(n)
    ensures path == Steps(top, n)
  {
    hide NodeCount, Pow2, IsNode, PosOf, Inside, Reverse, Left, Right;
    var topDown: seq<PathStep> := [];
    var curRoot, curHeight := rootPos, height;
    ghost var cur := top;
    EmptyReverse();
    while curHeight > 0 && curRoot != targetPos
      invariant IsNode(cur) && Inside(n, cur) && curRoot == PosOf(cur) && curHeight == cur.a
      invariant Steps(top, n) == Steps(cur, n) + Reverse(topDown)
      decreases curHeight
    {
      if n.a == cur.a { SameHeight(n, cur); }
      TowardFacts(n, cur);
      ChildrenPositions(cur);
      ChildHeights(cur);
      var parentPos := curRoot;
      var leftSize := Pow2(curHeight) - 1;
      var leftChildRoot := curRoot - leftSize - 1;
      var rightChildRoot := curRoot - 1;
      ghost var step := PathStep(PosOf(Sibling(cur, n)), n.x >= Right(cur).x, PosOf(cur));
      ReverseAppend(topDown, step);
      if targetPos <= leftChildRoot {
        topDown := topDown + [PathStep(rightChildRoot, false, parentPos)];
        curRoot := leftChildRoot;
      } else {
        topDown := topDown + [PathStep(leftChildRoot, true, parentPos)];
        curRoot := rightChildRoot;
      }
      cur := Toward(cur, n);
      curHeight := curHeight - 1;
    }
    if n.a == cur.a { SameHeight(n, cur); } else { PosInjective(n, cur); }
    path := ReverseSteps(topDown);
  }

  lemma EmptyReverse()
    ensures Reverse<PathStep>([]) == []
  {}

  lemma ChildHeights(n: Node)
    requires n.a > 0
    ensures Left(n).a == n.a - 1 && Right(n).a == n.a - 1
  {}

  lemma SameHeight(n: Node, top: Node)
    requires IsNode(n) && IsNode(top) && Inside(n, top) && n.a == top.a
    ensures n == top
  {}
}
