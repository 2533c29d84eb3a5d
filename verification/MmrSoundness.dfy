/** Soundness of the log proofs as statements about logs: what a root shared by a
    true log and by the log a proof describes forces. */
module MmrSoundness {
  import opened Octets
  import opened Bits
  import opened MmrPositions
  import opened MmrTree
  import opened MmrBinding

  /** `full` and `log` have one root, and nothing hashed on either side collides. */
  ghost predicate SameRoot(h: Hash, inputs: set<Bytes>, full: Log, log: Log) {
    && full == Full(full.leaves)
    && CollisionFree(h, inputs)
    && RootInputs(h, full) <= inputs && RootInputs(h, log) <= inputs
    && Root(h, full) == Root(h, log)
  }

  lemma SamePeaks(h: Hash, inputs: set<Bytes>, full: Log, log: Log)
    requires SameRoot(h, inputs, full, log) && full.Count() == log.Count()
    ensures PeakHashes(h, full, full.Count()) == PeakHashes(h, log, log.Count())
  {
    hide PeakHashes, Bag, BagInputs, CollisionFree, PeaksInputs, Popcount;
    BagBinds(h, inputs, PeakHashes(h, full, full.Count()), PeakHashes(h, log, log.Count()));
  }

  /** At the same size, the two logs agree on every node the proof describes. */
  lemma SameNodes(h: Hash, inputs: set<Bytes>, full: Log, log: Log, n: Node)
    requires SameRoot(h, inputs, full, log) && full.Count() == log.Count()
    requires Visible(log, n) && n.x < log.Count()
    ensures NodeHash(h, full, n) == NodeHash(h, log, n)
  {
    var f := full.Count();
    var top := PeakOver(f, n.x);
    SamePeaks(h, inputs, full, log);
    NodeInPeak(n, f) by { hide PeakOver; }
    hide PeakOver, PeakHashes, NodeHash, NodeInputs, PeaksInputs, BagInputs, CollisionFree, Pow2, Aligned, Bag,
      PeakList, Popcount;
    PeakIndex(top, f);
    PeakHashAt(h, full, f, Popcount(top.x));
    PeakHashAt(h, log, f, Popcount(top.x));
    PeakInputsIncluded(h, full, f, top);
    PeakInputsIncluded(h, log, f, top);
    PeakVisible(log, top);
    NodesAgree(h, inputs, full, log, top, n);
  }

  lemma FullSide(h: Hash, inputs: set<Bytes>, full: Log, log: Log)
    requires SameRoot(h, inputs, full, log)
    ensures full == Full(full.leaves)
  {}

  /** Every leaf the proof describes is the true one... */
  lemma SameLeaves(h: Hash, inputs: set<Bytes>, full: Log, log: Log)
    requires SameRoot(h, inputs, full, log) && full.Count() == log.Count()
    ensures log.leaves == full.leaves[log.known..]
  {
    hide SameRoot, Visible;
    assert full == Full(full.leaves) by { FullSide(h, inputs, full, log); }
    forall i | log.known <= i < log.Count() ensures log.leaves[i - log.known] == full.leaves[i] {
      LeafVisible(log, i);
      SameNodes(h, inputs, full, log, Node(i, 0));
    }
  }

  /** ...and the mountains it starts from are those of the true prefix. */
  lemma SamePrefix(h: Hash, inputs: set<Bytes>, full: Log, log: Log)
    requires SameRoot(h, inputs, full, log) && full.Count() == log.Count()
    requires |log.peaks| == Popcount(log.known)
    ensures log.peaks == PeakHashes(h, full, log.known)
    ensures Bag(h, log.peaks) == Root(h, Full(full.leaves[..log.known]))
  {
    var f := log.known;
    assert full == Full(full.leaves) && full.Count() == |full.leaves|;
    hide SameRoot, NodeHash, PeakList, PeakHashes, Bag, Popcount, PeakOver;
    KnownPeaks(h, log, f);
    assert log.peaks[..Popcount(f)] == log.peaks;
    forall i | 0 <= i < Popcount(f)
      ensures PeakHashes(h, full, f)[i] == PeakHashes(h, log, f)[i]
    {
      PeakHashAt(h, full, f, i);
      PeakHashAt(h, log, f, i);
      PeakAt(f, i);
      var n := PeakList(f)[i];
      PeakIsNode(n, f);
      NodeBounds(n);
      SameNodes(h, inputs, full, log, n);
    }
    assert PeakHashes(h, full, f) == PeakHashes(h, log, f);
    PrefixRoot(h, full.leaves, f);
  }

  // ------------------------------------------------------- body digests

  /** A log whose leaves are hashes of body digests. */
  function BodyLog(h: Hash, known: nat, peaks: seq<Digest>, bodies: seq<Digest>): (log: Log)
    ensures log.known == known && log.peaks == peaks && log.Count() == known + |bodies|
  {
    Log(known, peaks, LeafHashes(h, bodies))
  }

  function FullBodyLog(h: Hash, bodies: seq<Digest>): Log { BodyLog(h, 0, [], bodies) }

  /** A true log of bodies and the log a proof describes have one root; nothing
      hashed for either, leaves included, collides. */
  ghost predicate SameBodyRoot(h: Hash, inputs: set<Bytes>, bodies: seq<Digest>,
      known: nat, peaks: seq<Digest>, shown: seq<Digest>)
  {
    && SameRoot(h, inputs, FullBodyLog(h, bodies), BodyLog(h, known, peaks, shown))
    && LeafInputs(bodies) <= inputs && LeafInputs(shown) <= inputs
  }

  lemma LeafHashBinds(h: Hash, inputs: set<Bytes>, bodies: seq<Digest>, shown: seq<Digest>, b: Digest, c: Digest)
    requires CollisionFree(h, inputs) && LeafInputs(bodies) <= inputs && LeafInputs(shown) <= inputs
    requires b in bodies && c in shown && LeafHash(h, b) == LeafHash(h, c)
    ensures b == c
  {
    assert LeafInput(b) in LeafInputs(bodies) && LeafInput(c) in LeafInputs(shown);
    NoCollision(h, inputs, LeafInput(b), LeafInput(c));
    assert LeafInput(b)[1..] == b && LeafInput(c)[1..] == c;
  }

  /** Range soundness at the true size: every body shown is the one at its place. */
  lemma SameBodies(h: Hash, inputs: set<Bytes>, bodies: seq<Digest>, known: nat, peaks: seq<Digest>, shown: seq<Digest>)
    requires SameBodyRoot(h, inputs, bodies, known, peaks, shown)
    requires |bodies| == known + |shown| && |peaks| == Popcount(known)
    ensures shown == bodies[known..] && peaks == PeakHashes(h, FullBodyLog(h, bodies), known)
    ensures Bag(h, peaks) == Root(h, FullBodyLog(h, bodies[..known]))
  {
    var full, log := FullBodyLog(h, bodies), BodyLog(h, known, peaks, shown);
    SameLeaves(h, inputs, full, log);
    SamePrefix(h, inputs, full, log);
    assert full.leaves[..known] == LeafHashes(h, bodies[..known]);
    hide Root, RootInputs, Bag, PeakHashes;
    forall i | 0 <= i < |shown| ensures shown[i] == bodies[known + i] {
      assert log.leaves[i] == full.leaves[known..][i];
      LeafHashBinds(h, inputs, bodies, shown, bodies[known + i], shown[i]);
    }
  }

  // ------------------------------------------------------- binding the size

  /** The input whose hash is a node that a log of bodies describes: 33 octets for
      a leaf, 72 with the node's position in front for an interior node. */
  lemma NodePreimage(h: Hash, inputs: set<Bytes>, known: nat, peaks: seq<Digest>, shown: seq<Digest>, n: Node)
    returns (x: Bytes)
    requires known < End(n) <= BodyLog(h, known, peaks, shown).Count()
    requires NodeInputs(h, BodyLog(h, known, peaks, shown), n) <= inputs && LeafInputs(shown) <= inputs
    ensures x in inputs && h(x) == NodeHash(h, BodyLog(h, known, peaks, shown), n)
    ensures |x| == (if n.a == 0 then 33 else 72)
    ensures n.a > 0 ==> x[..8] == BigEndian(PosOf(n) + 1, 8)
  {
    var log := BodyLog(h, known, peaks, shown);
    if n.a == 0 {
      var b := shown[n.x - known];
      assert LeafInput(b) in LeafInputs(shown);
      x := LeafInput(b);
    } else {
      NodeInputsStep(h, log, n);
      NodeHashStep(h, log, n);
      hide NodeHash, NodeInputs;
      x := InteriorInput(NodeHash(h, log, Left(n)), NodeHash(h, log, Right(n)), PosOf(n));
      assert x == BigEndian(PosOf(n) + 1, 8) + (NodeHash(h, log, Left(n)) + NodeHash(h, log, Right(n)));
    }
  }

  /** Two such nodes with one hash are both leaves or sit at one position. */
  lemma SameNodeHash(h: Hash, inputs: set<Bytes>, bodies: seq<Digest>, known: nat, peaks: seq<Digest>,
      shown: seq<Digest>, n: Node, n': Node)
    requires CollisionFree(h, inputs)
    requires LeafInputs(bodies) <= inputs && LeafInputs(shown) <= inputs
    requires 0 < End(n) <= FullBodyLog(h, bodies).Count() && known < End(n') <= BodyLog(h, known, peaks, shown).Count()
    requires NodeInputs(h, FullBodyLog(h, bodies), n) <= inputs
    requires NodeInputs(h, BodyLog(h, known, peaks, shown), n') <= inputs
    requires NodeHash(h, FullBodyLog(h, bodies), n) == NodeHash(h, BodyLog(h, known, peaks, shown), n')
    requires IsNode(n) && IsNode(n') && PosOf(n) + 1 < Pow256(8) && PosOf(n') + 1 < Pow256(8)
    ensures n.a == 0 <==> n'.a == 0
    ensures n.a > 0 ==> n == n'
  {
    hide NodeHash, NodeInputs, LeafInputs, BodyLog, CollisionFree, BigEndian, PosOf, Pow256, IsNode, End;
    var x := NodePreimage(h, inputs, 0, [], bodies, n);
    var x' := NodePreimage(h, inputs, known, peaks, shown, n');
    NoCollision(h, inputs, x, x');
    if n.a > 0 {
      BigEndianRoundTrip(PosOf(n) + 1, 8);
      BigEndianRoundTrip(PosOf(n') + 1, 8);
      PosInjective(n, n');
    }
  }

  /** A leaf or interior hash is never the bag of two or more peaks. */
  lemma NotABag(h: Hash, inputs: set<Bytes>, peaks: seq<Digest>, x: Bytes)
    requires CollisionFree(h, inputs)
    requires |peaks| > 1 && BagInputs(h, peaks) <= inputs
    requires x in inputs && |x| != 64
    ensures h(x) != Bag(h, peaks)
  {
    if h(x) == Bag(h, peaks) { NoCollision(h, inputs, x, BagInput(h, peaks)); }
  }

  /** The last mountain of f leaves, in the list of hashes. */
  lemma LastHash(h: Hash, log: Log, f: nat)
    requires 0 < f <= log.Count()
    ensures |PeakHashes(h, log, f)| > 0
    ensures var p := PeakHashes(h, log, f); p[|p| - 1] == NodeHash(h, log, LastMountain(f))
    ensures PeakHashes(h, log, f)[..|PeakHashes(h, log, f)| - 1] == PeakHashes(h, log, LastMountain(f).x)
    ensures NodeInputs(h, log, LastMountain(f)) <= PeaksInputs(h, log, f)
    ensures PeaksInputs(h, log, LastMountain(f).x) <= PeaksInputs(h, log, f)
  {
    hide NodeHash, LastMountain, NodeInputs;
  }

  function PeaksOf(h: Hash, log: Log): seq<Digest> { PeakHashes(h, log, log.Count()) }

  /** The last mountain of a described log is hashed from an input of a node's length. */
  lemma LastPreimage(h: Hash, inputs: set<Bytes>, known: nat, peaks: seq<Digest>, shown: seq<Digest>) returns (x: Bytes)
    requires |shown| > 0
    requires RootInputs(h, BodyLog(h, known, peaks, shown)) <= inputs && LeafInputs(shown) <= inputs
    ensures var p := PeaksOf(h, BodyLog(h, known, peaks, shown));
      && |p| > 0 && BagInputs(h, p) <= inputs
      && x in inputs && |x| != 64 && h(x) == p[|p| - 1]
  {
    var log, f := BodyLog(h, known, peaks, shown), known + |shown|;
    hide PeakHashes, BagInputs, NodeInputs, NodeHash, LeafInputs, PeaksInputs, LastMountain, BodyLog, Bag;
    LastHash(h, log, f);
    x := NodePreimage(h, inputs, known, peaks, shown, LastMountain(f));
  }

  /** Both sides have the same mountains, known sizes or not. */
  lemma SamePeaksAnySize(h: Hash, inputs: set<Bytes>, bodies: seq<Digest>, known: nat, peaks: seq<Digest>,
      shown: seq<Digest>)
    requires SameBodyRoot(h, inputs, bodies, known, peaks, shown)
    requires |bodies| > 0 && |shown| > 0
    ensures PeaksOf(h, FullBodyLog(h, bodies)) == PeaksOf(h, BodyLog(h, known, peaks, shown))
    ensures |PeaksOf(h, FullBodyLog(h, bodies))| > 0
  {
    var x := LastPreimage(h, inputs, 0, [], bodies);
    var x' := LastPreimage(h, inputs, known, peaks, shown);
    var p, q := PeaksOf(h, FullBodyLog(h, bodies)), PeaksOf(h, BodyLog(h, known, peaks, shown));
    assert Bag(h, p) == Bag(h, q);
    hide PeaksOf, Bag, BagInputs, CollisionFree;
    if |p| < |q| {
      LongerBag(h, inputs, p, q, x);
    } else if |q| < |p| {
      LongerBag(h, inputs, q, p, x');
    } else {
      BagBinds(h, inputs, p, q);
    }
  }

  /** A list of peaks that ends in a node does not bag to the root of a longer one. */
  lemma LongerBag(h: Hash, inputs: set<Bytes>, p: seq<Digest>, q: seq<Digest>, x: Bytes)
    requires 0 < |p| < |q|
    requires CollisionFree(h, inputs)
    requires BagInputs(h, p) <= inputs && BagInputs(h, q) <= inputs
    requires x in inputs && |x| != 64 && h(x) == p[|p| - 1]
    ensures Bag(h, p) != Bag(h, q)
  {
    hide Bag, BagInputs, CollisionFree;
    if Bag(h, p) == Bag(h, q) {
      PeelBags(h, inputs, p, q, |p| - 1);
      BagOfOne(h, p[|p| - 1..]);
      NotABag(h, inputs, q[|p| - 1..], x);
    }
  }

  lemma BagOfOne(h: Hash, peaks: seq<Digest>)
    requires |peaks| == 1
    ensures Bag(h, peaks) == peaks[0]
  {}

  /** If the last mountains of two leaf counts have one hash, both are single leaves
      or the counts are equal. */
  lemma SameLastMountain(h: Hash, inputs: set<Bytes>, bodies: seq<Digest>, known: nat, peaks: seq<Digest>,
      shown: seq<Digest>, f: nat, g: nat)
    requires CollisionFree(h, inputs)
    requires LeafInputs(bodies) <= inputs && LeafInputs(shown) <= inputs
    requires 0 < f <= |bodies| && known < g <= known + |shown|
    requires PeaksInputs(h, FullBodyLog(h, bodies), f) <= inputs
    requires PeaksInputs(h, BodyLog(h, known, peaks, shown), g) <= inputs
    requires NodeHash(h, FullBodyLog(h, bodies), LastMountain(f))
          == NodeHash(h, BodyLog(h, known, peaks, shown), LastMountain(g))
    requires NodeCount(f) < Pow256(8) && NodeCount(g) < Pow256(8)
    ensures f % 2 == g % 2
    ensures f % 2 == 0 ==> f == g
  {
    hide PeaksInputs, NodeHash, NodeInputs, BodyLog, LastMountain, Pow256, NodeCount, LeafInputs, IsNode, PosOf,
      CollisionFree;
    LastMountainHeight(f);
    LastMountainHeight(g);
    LastHash(h, FullBodyLog(h, bodies), f);
    LastHash(h, BodyLog(h, known, peaks, shown), g);
    SameNodeHash(h, inputs, bodies, known, peaks, shown, LastMountain(f), LastMountain(g));
  }

  /** When a range against a true root forces the size it claims: the last leaf count
      is even, or at least two leaves are shown, or all are. */
  predicate ForcesSize(known: nat, shown: nat) {
    (known + shown) % 2 == 0 || shown > 1 || known == 0
  }

  /** Equal nonempty lists of mountains: the counts have one parity, and agree if even. */
  lemma SameMountains(h: Hash, inputs: set<Bytes>, bodies: seq<Digest>, known: nat, peaks: seq<Digest>,
      shown: seq<Digest>, f: nat, g: nat)
    requires CollisionFree(h, inputs)
    requires LeafInputs(bodies) <= inputs && LeafInputs(shown) <= inputs
    requires 0 < f <= |bodies| && known < g <= known + |shown|
    requires PeaksInputs(h, FullBodyLog(h, bodies), f) <= inputs
    requires PeaksInputs(h, BodyLog(h, known, peaks, shown), g) <= inputs
    requires PeakHashes(h, FullBodyLog(h, bodies), f) == PeakHashes(h, BodyLog(h, known, peaks, shown), g)
    requires NodeCount(f) < Pow256(8) && NodeCount(g) < Pow256(8)
    ensures f % 2 == g % 2
    ensures f % 2 == 0 ==> f == g
    ensures f % 2 == 1 ==>
      && PeakHashes(h, FullBodyLog(h, bodies), f - 1) == PeakHashes(h, BodyLog(h, known, peaks, shown), g - 1)
      && PeaksInputs(h, FullBodyLog(h, bodies), f - 1) <= inputs
      && PeaksInputs(h, BodyLog(h, known, peaks, shown), g - 1) <= inputs
  {
    hide PeakHashes, PeaksInputs, NodeHash, LastMountain, BodyLog, Pow256, NodeCount, LeafInputs, CollisionFree,
      NodeInputs;
    LastHash(h, FullBodyLog(h, bodies), f);
    LastHash(h, BodyLog(h, known, peaks, shown), g);
    LastMountainHeight(f);
    LastMountainHeight(g);
    SameLastMountain(h, inputs, bodies, known, peaks, shown, f, g);
  }

  lemma SizeForced(h: Hash, inputs: set<Bytes>, bodies: seq<Digest>, known: nat, peaks: seq<Digest>, shown: seq<Digest>)
    requires SameBodyRoot(h, inputs, bodies, known, peaks, shown)
    requires |bodies| > 0 && |shown| > 0 && ForcesSize(known, |shown|)
    requires NodeCount(|bodies|) < Pow256(8) && NodeCount(known + |shown|) < Pow256(8)
    ensures |bodies| == known + |shown|
  {
    var full, log, f, g := FullBodyLog(h, bodies), BodyLog(h, known, peaks, shown), |bodies|, known + |shown|;
    hide PeakHashes, PeaksInputs, BodyLog, Pow256, NodeCount, LeafInputs, CollisionFree, Popcount, SameBodyRoot;
    SamePeaksAnySize(h, inputs, bodies, known, peaks, shown);
    NothingCollides(h, inputs, bodies, known, peaks, shown);
    SameMountains(h, inputs, bodies, known, peaks, shown, f, g);
    if g % 2 == 1 {
      NoPeaks(h, full, f - 1);
      NoPeaks(h, log, g - 1);
      if |shown| > 1 {
        NodeCountMonotone(f - 1, f);
        NodeCountMonotone(g - 1, g);
        SameMountains(h, inputs, bodies, known, peaks, shown, f - 1, g - 1);
      }
    }
  }

  lemma NoPeaks(h: Hash, log: Log, f: nat)
    requires f <= log.Count()
    ensures PeakHashes(h, log, f) == [] <==> f == 0
  {}

  /** The last leaf of an odd count, cut off both logs. */
  lemma LastLeaf(h: Hash, known: nat, peaks: seq<Digest>, shown: seq<Digest>, f: nat)
    requires f % 2 == 0 && known <= f < known + |shown|
    ensures PeakHashes(h, BodyLog(h, known, peaks, shown), f + 1)
         == PeakHashes(h, BodyLog(h, known, peaks, shown), f) + [LeafHash(h, shown[f - known])]
  {
    hide PeakHashes, NodeHash, LeafHashes, BodyLog, Aligned, LeafHash;
    EvenAligned(f);
    PeakHashesNext(h, BodyLog(h, known, peaks, shown), Node(f, 0));
    BodyLeaf(h, known, peaks, shown, f - known);
  }

  lemma KnownPart(h: Hash, known: nat, peaks: seq<Digest>, shown: seq<Digest>)
    requires |peaks| == Popcount(known)
    ensures PeakHashes(h, BodyLog(h, known, peaks, shown), known) == peaks
  {
    hide PeakHashes, NodeHash, LeafHashes, BodyLog, PeakList, Popcount;
    KnownPeaks(h, BodyLog(h, known, peaks, shown), known);
    assert peaks[..Popcount(known)] == peaks;
  }

  lemma BodyPrefixRoot(h: Hash, bodies: seq<Digest>, f: nat)
    requires f <= |bodies|
    ensures Root(h, FullBodyLog(h, bodies[..f])) == Bag(h, PeakHashes(h, FullBodyLog(h, bodies), f))
  {
    hide PeakHashes, Bag;
    var leaves := LeafHashes(h, bodies);
    PrefixRoot(h, leaves, f);
    assert leaves[..f] == LeafHashes(h, bodies[..f]);
  }

  lemma NothingCollides(h: Hash, inputs: set<Bytes>, bodies: seq<Digest>, known: nat, peaks: seq<Digest>,
      shown: seq<Digest>)
    requires SameBodyRoot(h, inputs, bodies, known, peaks, shown)
    ensures CollisionFree(h, inputs) && LeafInputs(bodies) <= inputs && LeafInputs(shown) <= inputs
    ensures PeaksInputs(h, FullBodyLog(h, bodies), |bodies|) <= inputs
    ensures PeaksInputs(h, BodyLog(h, known, peaks, shown), known + |shown|) <= inputs
  {
    hide CollisionFree, LeafInputs, BodyLog, Root, PeaksInputs, PeakHashes, BagInputs;
  }

  /** Where the root does not force the size, a single leaf is shown, last in both
      logs, and the mountains agree. */
  lemma OneShownPeaks(h: Hash, inputs: set<Bytes>, bodies: seq<Digest>, known: nat, peaks: seq<Digest>,
      shown: seq<Digest>)
    requires SameBodyRoot(h, inputs, bodies, known, peaks, shown)
    requires |bodies| > 0 && |shown| > 0 && !ForcesSize(known, |shown|)
    requires NodeCount(|bodies|) < Pow256(8) && NodeCount(known + |shown|) < Pow256(8)
    ensures |shown| == 1 && |bodies| % 2 == 1 && known % 2 == 0
    ensures PeakHashes(h, FullBodyLog(h, bodies), |bodies|) == PeakHashes(h, BodyLog(h, known, peaks, shown), known + 1)
  {
    hide PeakHashes, PeaksInputs, BodyLog, Pow256, NodeCount, LeafInputs, CollisionFree, Popcount, SameBodyRoot;
    SamePeaksAnySize(h, inputs, bodies, known, peaks, shown);
    NothingCollides(h, inputs, bodies, known, peaks, shown);
    SameMountains(h, inputs, bodies, known, peaks, shown, |bodies|, known + 1);
  }

  /** What the root says where it does not force the size. */
  lemma OneShown(h: Hash, inputs: set<Bytes>, bodies: seq<Digest>, known: nat, peaks: seq<Digest>, shown: seq<Digest>)
    requires SameBodyRoot(h, inputs, bodies, known, peaks, shown)
    requires |bodies| > 0 && |shown| > 0 && !ForcesSize(known, |shown|) && |peaks| == Popcount(known)
    requires NodeCount(|bodies|) < Pow256(8) && NodeCount(known + |shown|) < Pow256(8)
    ensures |shown| == 1 && shown[0] == bodies[|bodies| - 1]
    ensures Bag(h, peaks) == Root(h, FullBodyLog(h, bodies[..|bodies| - 1]))
  {
    hide PeakHashes, BodyLog, Pow256, NodeCount, LeafInputs, CollisionFree, Popcount, Root, Bag, LeafHash, ForcesSize,
      SameBodyRoot, PeaksInputs;
    var last := |bodies| - 1;
    OneShownPeaks(h, inputs, bodies, known, peaks, shown);
    NothingCollides(h, inputs, bodies, known, peaks, shown);
    LastLeaf(h, 0, [], bodies, last);
    LastLeaf(h, known, peaks, shown, known);
    KnownPart(h, known, peaks, shown);
    SplitLast(PeakHashes(h, FullBodyLog(h, bodies), last), LeafHash(h, bodies[last]), peaks, LeafHash(h, shown[0]));
    LeafHashBinds(h, inputs, bodies, shown, bodies[last], shown[0]);
    BodyPrefixRoot(h, bodies, last);
  }

  /** Whatever size a range claims against a true root, it shows that log's last bodies
      and starts from the mountains of the rest: only sequence numbers can be wrong. */
  lemma ShownAreLast(h: Hash, inputs: set<Bytes>, bodies: seq<Digest>, known: nat, peaks: seq<Digest>,
      shown: seq<Digest>)
    requires SameBodyRoot(h, inputs, bodies, known, peaks, shown)
    requires |bodies| > 0 && |shown| > 0 && |peaks| == Popcount(known)
    requires NodeCount(|bodies|) < Pow256(8) && NodeCount(known + |shown|) < Pow256(8)
    ensures |shown| <= |bodies| && shown == bodies[|bodies| - |shown|..]
    ensures Bag(h, peaks) == Root(h, FullBodyLog(h, bodies[..|bodies| - |shown|]))
  {
    hide SameBodyRoot, Root, Bag, FullBodyLog, NodeCount, Pow256, Popcount, ForcesSize;
    if ForcesSize(known, |shown|) {
      SizeForced(h, inputs, bodies, known, peaks, shown);
      SameBodies(h, inputs, bodies, known, peaks, shown);
    } else {
      OneShown(h, inputs, bodies, known, peaks, shown);
    }
  }

  /** In the remaining case the size is not forced: a single leaf at an odd place
      above 1 is accepted, as leaf f, against the root of 2f - 1 leaves. */
  lemma SizeNotForced(h: Hash, bodies: seq<Digest>, known: nat) returns (peaks: seq<Digest>)
    requires !ForcesSize(known, 1) && |bodies| == 2 * known + 1
    ensures |peaks| == Popcount(known) && known + 1 != |bodies|
    ensures Root(h, BodyLog(h, known, peaks, bodies[2 * known..])) == Root(h, FullBodyLog(h, bodies))
  {
    hide PeakHashes, Bag, Popcount, LowBit, Pow2, LastMountain, NodeHash, LeafHashes, BodyLog, Aligned, PeakList;
    var full := FullBodyLog(h, bodies);
    peaks := PeakHashes(h, full, 2 * known);
    PopcountTwice(known);
    var log := BodyLog(h, known, peaks, bodies[2 * known..]);
    KnownPeaks(h, log, known);
    assert peaks[..Popcount(known)] == peaks;
    EvenAligned(2 * known);
    EvenAligned(known);
    PeakHashesNext(h, full, Node(2 * known, 0));
    PeakHashesNext(h, log, Node(known, 0));
    BodyLeaf(h, 0, [], bodies, 2 * known);
    BodyLeaf(h, known, peaks, bodies[2 * known..], 0);
  }

  lemma BodyLeaf(h: Hash, known: nat, peaks: seq<Digest>, bodies: seq<Digest>, i: nat)
    requires i < |bodies|
    ensures End(Node(known + i, 0)) == known + i + 1
    ensures NodeHash(h, BodyLog(h, known, peaks, bodies), Node(known + i, 0)) == LeafHash(h, bodies[i])
  {}

  lemma EvenAligned(x: nat)
    requires x % 2 == 0
    ensures Aligned(x, 1) && End(Node(x, 0)) == x + 1
  {}
}
