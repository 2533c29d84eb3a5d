/** What a verified receipt establishes, end to end. */
module ReceiptMeaning {
  import opened Octets
  import opened Cbor
  import opened CborSizes
  import opened CoseSign1
  import opened Merkle
  import opened Receipt

  lemma ProtectedLength(receipt: Bytes, s: Shape)
    requires HasShape(receipt, s)
    ensures s.env.protectedHeader.ByteString? && |s.env.protectedHeader.bytes| <= MAX_MESSAGE_BYTES
  {
    hide CritOk, HasKey, ProofItems, InDomain, Head, Decode, ProtectedMap;
    ShapeFacts(receipt, s);
    DecodedPrints(receipt, true);
    var v := Decode(receipt, true).value;
    assert Printable(Array(v.content.items));
    PartLength(v.content.items, 0);
  }

  // --------------------------------------------------------- end to end

  /** The log key verifies only over Sig_structures whose payload is the root of one
      of the log's entry lists. */
  ghost predicate KeySignsOnly(h: Hash, check: SignatureCheck, lists: seq<seq<Bytes>>) {
    forall alg: int, tbs: Bytes, signature: Bytes :: Checks(check, alg, tbs, signature) ==> SignedBy(h, tbs, lists)
  }

  predicate Checks(check: SignatureCheck, alg: int, tbs: Bytes, signature: Bytes) {
    check(alg, tbs, signature)
  }

  ghost predicate SignedBy(h: Hash, tbs: Bytes, lists: seq<seq<Bytes>>) {
    exists k, p :: 0 <= k < |lists| && tbs == SigStructure(p, MerkleRoot(h, lists[k]))
  }

  /** Everything hashed when one of the log's roots is computed or a candidate of the
      receipt is folded. */
  ghost predicate ReceiptHashes(h: Hash, inputs: set<Bytes>, s: Shape, leaf: Bytes, lists: seq<seq<Bytes>>) {
    && (forall k | 0 <= k < |lists| :: TreeInputs(h, lists[k]) <= inputs)
    && (forall b, c | b in s.proofs && ProofOf(b, c) :: FoldInputs(h, leaf, c.treeSize, c.leafIndex, c.path) <= inputs)
  }

  /** One candidate that the signature holds over proves membership. */
  lemma SignedLeaf(h: Hash, check: SignatureCheck, inputs: set<Bytes>, s: Shape, leaf: Bytes, lists: seq<seq<Bytes>>,
      blob: Bytes, c: Candidate)
    requires s.env.protectedHeader.ByteString? && |s.env.protectedHeader.bytes| <= MAX_MESSAGE_BYTES
    requires KeySignsOnly(h, check, lists) && CollisionFree(h, inputs) && ReceiptHashes(h, inputs, s, leaf, lists)
    requires blob in s.proofs && ProofOf(blob, c) && Signs(h, check, s, leaf, c)
    ensures exists k | 0 <= k < |lists| :: leaf in lists[k]
  {
    hide SigStructure, MerkleRoot, TreeInputs, FoldInputs, FoldPath, CollisionFree, Decode, AlgOf, PathLen;
    var p, root := s.env.protectedHeader.bytes, RootOf(h, leaf, c);
    var tbs := SigStructure(p, root);
    assert Checks(check, AlgOf(s.protectedMap).value, tbs, s.env.signature.bytes);
    assert SignedBy(h, tbs, lists);
    var k, p' :| 0 <= k < |lists| && tbs == SigStructure(p', MerkleRoot(h, lists[k]));
    SigStructureInjective(p, root, p', MerkleRoot(h, lists[k]));
    InclusionSound(h, inputs, lists[k], leaf, c.treeSize, c.leafIndex, c.path);
  }

  /** End to end: a receipt of the RFC 9162 structure that verifies means that the
      leaf entry is in one of the lists whose root the log signed. */
  lemma VerifiedMeansLogged(h: Hash, check: SignatureCheck, ccf: CcfRoot, inputs: set<Bytes>, receipt: Bytes,
      leaf: Bytes, lists: seq<seq<Bytes>>)
    requires Decide(h, check, ccf, receipt, leaf).ok
    requires VdsOf(ShapeOf(receipt).value.protectedMap) == Some(VDS_RFC9162_SHA256)
    requires KeySignsOnly(h, check, lists) && CollisionFree(h, inputs)
    requires ReceiptHashes(h, inputs, ShapeOf(receipt).value, leaf, lists)
    ensures exists k | 0 <= k < |lists| :: leaf in lists[k]
  {
    hide DecideTree, DecideCcf, VdsOf, HasShape, KeySignsOnly, CollisionFree, ReceiptHashes, Signs, Decode;
    var s := ShapeOf(receipt).value;
    ShapeFacts(receipt, s);
    ProtectedLength(receipt, s);
    TreeDecision(h, check, s, leaf);
    var blob, c :| blob in s.proofs && ProofOf(blob, c) && Signs(h, check, s, leaf, c);
    SignedLeaf(h, check, inputs, s, leaf, lists, blob, c);
  }
}
