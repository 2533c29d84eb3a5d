/** What a Merkle Mountain Range commits to: the hash of every node of a log, its
    mountains, their bagging, and appending one leaf at a time. */
module MmrTree {
  import opened Octets
  import opened Bits
  import opened MmrPositions

  // ---------------------------------------------------------------- hashes

  function LeafInput(body: Digest): Bytes { [0] + body }

  function LeafHash(h: Hash, body: Digest): Digest { h(LeafInput(body)) }

  /** The position is committed together with the children. */
  function InteriorInput(left: Digest, right: Digest, position: nat): Bytes {
    BigEndian(position + 1, 8) + left + right
  }

  function InteriorHash(h: Hash, left: Digest, right: Digest, position: nat): Digest {
    h(InteriorInput(left, right, position))
  }

  function LeafHashes(h: Hash, bodies: seq<Digest>): (leaves: seq<Digest>)
    ensures |leaves| == |bodies|
    ensures forall i | 0 <= i < |bodies| :: leaves[i] == LeafHash(h, bodies[i])
  {
    seq(|bodies|, i requires 0 <= i < |bodies| => LeafHash(h, bodies[i]))
  }

  /** Root of the empty log. */
  const ZERO: Digest := [0, 0, 0, 0, 0, 0, 0, 0, 0, 0, 0, 0, 0, 0, 0, 0, 0, 0, 0, 0, 0, 0, 0, 0, 0, 0, 0, 0, 0, 0, 0, 0]

  /** Bagged peaks: everything to the right is hashed in front of each peak. */
  function Bag(h: Hash, peaks: seq<Digest>): Digest
    decreases |peaks|, 1
  {
    if peaks == [] then ZERO
    else if |peaks| == 1 then peaks[0]
    else h(BagInput(h, peaks))
  }

  function BagInput(h: Hash, peaks: seq<Digest>): Bytes
    requires |peaks| > 1
    decreases |peaks|, 0
  {
    Bag(h, peaks[1..]) + peaks[0]
  }

  lemma InteriorSplits(a: Digest, b: Digest, p: nat, c: Digest, d: Digest, q: nat)
    requires InteriorInput(a, b, p) == InteriorInput(c, d, q)
    ensures a == c && b == d && BigEndian(p + 1, 8) == BigEndian(q + 1, 8)
  {
    SplitAt(BigEndian(p + 1, 8) + a, b, BigEndian(q + 1, 8) + c, d);
    SplitAt(BigEndian(p + 1, 8), a, BigEndian(q + 1, 8), c);
  }

  // ------------------------------------------------------------------ logs

  /** A log of which the first `known` leaves are given by their mountains only. A
      fully known log has known == 0. */
  datatype Log = Log(known: nat, peaks: seq<Digest>, leaves: seq<Digest>) {
    function Count(): nat { known + |leaves| }
  }

  function Full(leaves: seq<Digest>): Log { Log(0, [], leaves) }

  /** The hash of a node. Inside the known part only the mountains themselves are
      ever asked for; each is found by the number of mountains before it. */
  function NodeHash(h: Hash, log: Log, n: Node): Digest
    requires End(n) <= log.Count()
    decreases n.a
  {
    if End(n) <= log.known then
      if Popcount(n.x) < |log.peaks| then log.peaks[Popcount(n.x)] else ZERO
    else if n.a == 0 then log.leaves[n.x - log.known]
    else InteriorHash(h, NodeHash(h, log, Left(n)), NodeHash(h, log, Right(n)), PosOf(n))
  }

  /** The hashes of the mountains of the first f leaves. */
  function PeakHashes(h: Hash, log: Log, f: nat): (peaks: seq<Digest>)
    requires f <= log.Count()
    ensures |peaks| == Popcount(f)
  {
    if f == 0 then [] else PeakHashes(h, log, LastMountain(f).x) + [NodeHash(h, log, LastMountain(f))]
  }

  function Root(h: Hash, log: Log): Digest {
    Bag(h, PeakHashes(h, log, log.Count()))
  }

  lemma PeakHashesNext(h: Hash, log: Log, n: Node)
    requires Aligned(n.x, n.a + 1) && End(n) <= log.Count()
    ensures PeakHashes(h, log, End(n)) == PeakHashes(h, log, n.x) + [NodeHash(h, log, n)]
  {
    LastMountainIs(n);
    hide NodeHash, LowBit, Pow2, Aligned, LastMountain;
  }

  lemma {:induction false} PeakHashAt(h: Hash, log: Log, f: nat, i: nat)
    requires f <= log.Count() && i < Popcount(f)
    ensures End(PeakList(f)[i]) <= f
    ensures PeakHashes(h, log, f)[i] == NodeHash(h, log, PeakList(f)[i])
  {
    hide NodeHash, LastMountain, Popcount;
    var last := LastMountain(f);
    assert PeakList(f) == PeakList(last.x) + [last];
    assert PeakHashes(h, log, f) == PeakHashes(h, log, last.x) + [NodeHash(h, log, last)];
    hide PeakList, PeakHashes;
    if i < Popcount(last.x) { PeakHashAt(h, log, last.x, i); }
  }

  // ---------------------------------------------------- prefix stability

  predicate Extends(log: Log, log': Log) {
    log.known == log'.known && log.peaks == log'.peaks && log.leaves <= log'.leaves
  }

  /** No node changes when leaves are appended. */
  lemma {:induction false} NodeStable(h: Hash, log: Log, log': Log, n: Node)
    requires Extends(log, log') && End(n) <= log.Count()
    ensures NodeHash(h, log, n) == NodeHash(h, log', n)
    decreases n.a
  {
    if n.a > 0 {
      NodeStable(h, log, log', Left(n));
      NodeStable(h, log, log', Right(n));
    }
  }

  lemma {:induction false} PeaksStable(h: Hash, log: Log, log': Log, f: nat)
    requires Extends(log, log') && f <= log.Count()
    ensures PeakHashes(h, log, f) == PeakHashes(h, log', f)
    decreases f
  {
    hide NodeHash, LastMountain;
    if f > 0 {
      PeaksStable(h, log, log', LastMountain(f).x);
      NodeStable(h, log, log', LastMountain(f));
    }
  }

  /** The root of a prefix, read off the whole log. */
  lemma PrefixRoot(h: Hash, leaves: seq<Digest>, f: nat)
    requires f <= |leaves|
    ensures Root(h, Full(leaves[..f])) == Bag(h, PeakHashes(h, Full(leaves), f))
  {
    PeaksStable(h, Full(leaves[..f]), Full(leaves), f);
  }

  // ------------------------------------------------------------- appending

  /** Merge the last mountain into `cur` for every trailing one of f; the new node
      of height b + 1 comes b + 1 places after the new leaf. */
  function MergeUp(h: Hash, stack: seq<Digest>, f: nat, b: nat, cur: Digest): seq<Digest>
    decreases |stack|
  {
    if b < LowBit(f + 1) && stack != [] then
      MergeUp(h, stack[..|stack| - 1], f, b + 1, InteriorHash(h, stack[|stack| - 1], cur, NodeCount(f) + b + 1))
    else stack + [cur]
  }

  function Append(h: Hash, peaks: seq<Digest>, f: nat, leaf: Digest): seq<Digest> {
    MergeUp(h, peaks, f, 0, leaf)
  }

  function AppendAll(h: Hash, peaks: seq<Digest>, f: nat, leaves: seq<Digest>): seq<Digest>
    decreases |leaves|
  {
    if leaves == [] then peaks
    else AppendAll(h, Append(h, peaks, f, leaves[0]), f + 1, leaves[1..])
  }

  /** The node of height b whose last leaf is leaf f. */
  function Newest(f: nat, b: nat): (n: Node)
    requires b <= LowBit(f + 1)
    ensures IsNode(n) && End(n) == f + 1 && n.a == b
    ensures b < LowBit(f + 1) ==> Aligned(n.x, b)
  {
    BitAligned(f + 1);
    AlignedWeaken(f + 1, LowBit(f + 1), b);
    LowBitClear(f + 1);
    Pow2Monotone(b, LowBit(f + 1));
    AlignedPow2(b, b);
    AlignedSub(f + 1, Pow2(b), b);
    Node(f + 1 - Pow2(b), b)
  }

  lemma NewestParent(f: nat, b: nat)
    requires b < LowBit(f + 1)
    ensures Newest(f, b).x == End(Left(Newest(f, b + 1))) && Right(Newest(f, b + 1)) == Newest(f, b)
    ensures Aligned(Left(Newest(f, b + 1)).x, b + 1)
    ensures PosOf(Newest(f, b + 1)) == NodeCount(f) + b + 1
  {
    NodeCountAround(Newest(f, b + 1));
  }

  lemma NewestPeak(f: nat)
    ensures var n := Newest(f, LowBit(f + 1)); Aligned(n.x, n.a + 1)
  {
    LowBitClear(f + 1);
  }

  lemma MergeUpStep(h: Hash, stack: seq<Digest>, top: Digest, f: nat, b: nat, cur: Digest)
    requires b < LowBit(f + 1)
    ensures MergeUp(h, stack + [top], f, b, cur)
         == MergeUp(h, stack, f, b + 1, InteriorHash(h, top, cur, NodeCount(f) + b + 1))
  {
    hide InteriorHash, NodeCount, LowBit;
    assert (stack + [top])[..|stack|] == stack;
  }

  lemma MergeUpDone(h: Hash, stack: seq<Digest>, f: nat, cur: Digest)
    ensures MergeUp(h, stack, f, LowBit(f + 1), cur) == stack + [cur]
  {}

  lemma NodeHashStep(h: Hash, log: Log, n: Node)
    requires n.a > 0 && log.known < End(n) <= log.Count()
    ensures End(Left(n)) <= End(n) && End(Right(n)) == End(n)
    ensures NodeHash(h, log, n) == InteriorHash(h, NodeHash(h, log, Left(n)), NodeHash(h, log, Right(n)), PosOf(n))
  {}

  /** The carries of one append, from height b up. */
  lemma {:induction false} MergeUpPeaks(h: Hash, log: Log, f: nat, b: nat)
    requires b <= LowBit(f + 1) && log.known <= f < log.Count()
    ensures MergeUp(h, PeakHashes(h, log, Newest(f, b).x), f, b, NodeHash(h, log, Newest(f, b)))
         == PeakHashes(h, log, f + 1)
    decreases LowBit(f + 1) - b
  {
    hide NodeHash, PeakHashes, InteriorHash, NodeCount, LowBit, Newest, MergeUp, PosOf, Pow2, Aligned, Popcount;
    if b == LowBit(f + 1) {
      NewestPeak(f);
      PeakHashesNext(h, log, Newest(f, b));
      MergeUpDone(h, PeakHashes(h, log, Newest(f, b).x), f, NodeHash(h, log, Newest(f, b)));
    } else {
      var up := Newest(f, b + 1);
      NewestParent(f, b);
      NodeHashStep(h, log, up);
      PeakHashesNext(h, log, Left(up));
      MergeUpStep(h, PeakHashes(h, log, up.x), NodeHash(h, log, Left(up)), f, b, NodeHash(h, log, Newest(f, b)));
      MergeUpPeaks(h, log, f, b + 1);
    }
  }

  lemma NewestLeaf(h: Hash, log: Log, f: nat)
    requires log.known <= f < log.Count()
    ensures Newest(f, 0).x == f && NodeHash(h, log, Newest(f, 0)) == log.leaves[f - log.known]
  {
    hide LowBit;
    assert Pow2(0) == 1;
  }

  /** Appending a leaf to the mountains gives the mountains of the longer log. */
  lemma AppendPeaks(h: Hash, log: Log, f: nat)
    requires log.known <= f < log.Count()
    ensures Append(h, PeakHashes(h, log, f), f, log.leaves[f - log.known]) == PeakHashes(h, log, f + 1)
  {
    hide MergeUp, PeakHashes, NodeHash, Newest, LowBit;
    NewestLeaf(h, log, f);
    MergeUpPeaks(h, log, f, 0);
  }

  lemma {:induction false} AppendAllPeaks(h: Hash, log: Log, f: nat)
    requires log.known <= f <= log.Count()
    ensures AppendAll(h, PeakHashes(h, log, f), f, log.leaves[f - log.known..]) == PeakHashes(h, log, log.Count())
    decreases log.Count() - f
  {
    hide Append, PeakHashes, Popcount;
    if f < log.Count() {
      AppendPeaks(h, log, f);
      AppendAllPeaks(h, log, f + 1);
      var rest := log.leaves[f - log.known..];
      assert rest[1..] == log.leaves[f + 1 - log.known..];
    }
  }

  /** The mountains of the known part are the given ones. */
  lemma {:induction false} KnownPeaks(h: Hash, log: Log, f: nat)
    requires |log.peaks| == Popcount(log.known) && f <= log.known && PeakList(f) <= PeakList(log.known)
    ensures PeakHashes(h, log, f) == log.peaks[..Popcount(f)]
    decreases f
  {
    hide LastMountain, Popcount;
    if f > 0 {
      var last := LastMountain(f);
      assert PeakList(f) == PeakList(last.x) + [last];
      assert PeakHashes(h, log, f) == PeakHashes(h, log, last.x) + [NodeHash(h, log, last)];
      assert NodeHash(h, log, last) == log.peaks[Popcount(last.x)];
      hide PeakList, PeakHashes, NodeHash;
      KnownPeaks(h, log, last.x);
    }
  }

  /** The range rebuild in one sentence: with no assumption on the hash, the root of
      a log known by its first mountains and its later leaves is what appending
      those leaves one by one to those mountains and bagging gives. */
  lemma RootIsAppend(h: Hash, log: Log)
    requires |log.peaks| == Popcount(log.known)
    ensures Root(h, log) == Bag(h, AppendAll(h, log.peaks, log.known, log.leaves))
  {
    hide NodeHash, Bag, LowBit, Pow2, LastMountain, AppendAll, PeakHashes, Popcount, PeakList;
    KnownPeaks(h, log, log.known);
    assert log.peaks[..Popcount(log.known)] == log.peaks;
    AppendAllPeaks(h, log, log.known);
    assert log.leaves[0..] == log.leaves;
  }
}
