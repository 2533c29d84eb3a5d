/** The Rust crate's reading of an inclusion proof into u64 fields and its loop over
    the candidates, which takes the folded root without testing for its absence. */
module RustReceipt {
  import opened Octets
  import opened Cbor
  import opened CoseSign1
  import opened Merkle
  import opened Receipt
  import opened FixedWidth
  import CborRoundTrip
  import ReceiptVerifier
  import RustMerkle

  datatype Decoded = Decoded(treeSize: uint64, leafIndex: uint64, path: Slice<Digest>) {
    function Wide(): Candidate { Candidate(treeSize as nat, leafIndex as nat, path) }
  }

  function Widened(d: Option<Decoded>): Option<Candidate> {
    if d.None? then None else Some(d.value.Wide())
  }

  /** Narrowing a decoded integer to u64 loses nothing. */
  lemma IntegersNarrow(blob: Bytes, i: nat)
    requires Decode(blob, false).Some? && Decode(blob, false).value.Array?
    requires i < |Decode(blob, false).value.items| && Decode(blob, false).value.items[i].UInt?
    ensures Decode(blob, false).value.items[i].n < TWO64
  {
    hide ReadItem;
    CborRoundTrip.ItemSound(blob, 0, 0, false);
    var v := Decode(blob, false).value;
    assert InDomain(v, 0, false);
    assert v.items[i] in v.items;
    assert InDomain(v.items[i], 1, false);
  }

  /** Decides and reads what the reference decides and reads. */
  method DecodeInclusionProof(blob: Bytes) returns (d: Option<Decoded>)
    ensures Widened(d) == DecodeProof(blob)
  {
    hide DecodeProof, Decode, PathFits, PathLen;
    var v := Decode(blob, false);
    forall x | ProofOf(blob, x) ensures ReceiptVerifier.Foldable(v, x) { ReceiptVerifier.FoldableProof(blob, x); }
    if v.None? || !v.value.Array? || |v.value.items| != 3 { return None; }
    var sizeItem, indexItem, pathRaw := v.value.items[0], v.value.items[1], v.value.items[2];
    if !IsInt(sizeItem) || IntOf(sizeItem) < 0 { return None; }
    IntegersNarrow(blob, 0);
    var treeSize := IntOf(sizeItem) as uint64;
    if !IsInt(indexItem) || IntOf(indexItem) < 0 { return None; }
    IntegersNarrow(blob, 1);
    var leafIndex := IntOf(indexItem) as uint64;
    if !pathRaw.Array? || |pathRaw.items| > MAX_AUDIT_PATH { return None; }
    var path: seq<Digest> := [];
    for i := 0 to |pathRaw.items|
      invariant |path| == i && forall k | 0 <= k < i :: pathRaw.items[k] == ByteString(path[k])
    {
      if !pathRaw.items[i].ByteString? || |pathRaw.items[i].bytes| != 32 { return None; }
      path := path + [pathRaw.items[i].bytes];
    }
    assert pathRaw.items == NodeStrings(path);
    if treeSize == 0 || treeSize as int > MAX_TREE_SIZE || leafIndex >= treeSize { return None; }
    var expected := RustMerkle.ExpectedInclusionPathLen(treeSize, leafIndex);
    if |path| as uint64 != expected.value { return None; }
    var found := Decoded(treeSize, leafIndex, path);
    ReceiptVerifier.FitsOf(found.Wide());
    assert v.value.items == ProofValue(found.Wide()).items;
    DecodeProofIs(blob, found.Wide());
    return Some(found);
  }

  /** For candidates that passed the reading the fold always yields a root, so the
      unconditional unwrapping is safe, and the report is the reference's. */
  method TryCandidates(h: Hash, check: SignatureCheck, s: Shape, leaf: Bytes, decoded: seq<Decoded>,
      result: ReceiptVerifier.ReceiptResult) returns (matched: bool)
    requires s.env.protectedHeader.ByteString? && decoded != [] && forall d | d in decoded :: d.Wide().Fits()
    requires result.View() == Outcome(false, None, None, None, NO_CLAIMS, None)
    modifies result
    ensures var cs := WideAll(decoded); var k := FirstSigned(h, check, s, leaf, cs);
      && (matched <==> k < |cs|)
      && (matched ==> result.View() == Report(h, leaf, cs[k], true, NO_CLAIMS).(ok := false))
      && (!matched ==> result.View() == Report(h, leaf, cs[0], false, NO_CLAIMS))
  {
    hide FoldPath, PathLen, SignatureHolds, FirstSigned;
    ghost var cs := WideAll(decoded);
    var diagnostic: Option<(uint64, uint64, Digest)> := None;
    for i := 0 to |decoded|
      invariant forall k | 0 <= k < i :: !Signs(h, check, s, leaf, cs[k])
      invariant result.View() == Outcome(false, None, None, None, NO_CLAIMS, None)
      invariant diagnostic == if i == 0 then None
                              else Some((decoded[0].treeSize, decoded[0].leafIndex, RootOf(h, leaf, cs[0])))
    {
      var d := decoded[i];
      assert d.Wide() == cs[i] && cs[i].Fits();
      var reconstructed := RustMerkle.RootFromInclusionProof(h, leaf, d.leafIndex, d.treeSize, d.path);
      var root := reconstructed.value;
      if !SignatureHolds(check, s.env, s.protectedMap, root) {
        if diagnostic.None? { diagnostic := Some((d.treeSize, d.leafIndex, root)); }
      } else {
        ReceiptVerifier.FirstSignedIs(h, check, s, leaf, cs, i);
        result.treeSize := Some(d.treeSize as nat);
        result.leafIndex := Some(d.leafIndex as nat);
        result.root := Some(root);
        return true;
      }
    }
    ReceiptVerifier.FirstSignedIs(h, check, s, leaf, cs, |cs|);
    var (treeSize, leafIndex, root) := diagnostic.value;
    result.treeSize := Some(treeSize as nat);
    result.leafIndex := Some(leafIndex as nat);
    result.root := Some(root);
    result.failedAt := Some(Signature);
    return false;
  }

  function WideAll(decoded: seq<Decoded>): (cs: seq<Candidate>)
    requires forall d | d in decoded :: d.Wide().Fits()
    ensures |cs| == |decoded| && forall i | 0 <= i < |cs| :: cs[i] == decoded[i].Wide()
    ensures forall c | c in cs :: c.Fits()
  {
    seq(|decoded|, i requires 0 <= i < |decoded| => decoded[i].Wide())
  }
}
