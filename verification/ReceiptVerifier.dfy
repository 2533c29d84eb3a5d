/** Receipt verification as it runs: structural checks in order, every candidate parsed
    before any is tried, the first signature that holds reported, and a result object
    filled in step by step. */
module ReceiptVerifier {
  import opened Octets
  import opened Cbor
  import opened CoseSign1
  import opened Merkle
  import opened Receipt
  import CborRoundTrip
  import EncodingRule
  import MerkleVerifier

  method DecodeInclusionProof(blob: Bytes) returns (c: Option<Candidate>)
    ensures c == DecodeProof(blob)
  {
    hide DecodeProof, Decode, PathFits, PathLen;
    var v := Decode(blob, false);
    forall x | ProofOf(blob, x) ensures Foldable(v, x) { FoldableProof(blob, x); }
    if v.None? || !v.value.Array? || |v.value.items| != 3 { return None; }
    var size, index, pathItem := v.value.items[0], v.value.items[1], v.value.items[2];
    if !IsInt(size) || !IsInt(index) || !pathItem.Array? { return None; }
    if |pathItem.items| > MAX_AUDIT_PATH { return None; }
    var path: seq<Bytes> := [];
    for i := 0 to |pathItem.items|
      invariant |path| == i && forall k | 0 <= k < i :: pathItem.items[k] == ByteString(path[k])
    {
      if !pathItem.items[i].ByteString? { return None; }
      path := path + [pathItem.items[i].bytes];
    }
    assert pathItem.items == NodeStrings(path);
    if !(0 <= IntOf(index) < IntOf(size)) || IntOf(size) > MAX_TREE_SIZE { return None; }
    var expected := MerkleVerifier.ExpectedInclusionPathLen(IntOf(size), IntOf(index));
    if |path| != expected { return None; }
    if !AllDigests(path) { return None; }
    var found := Candidate(IntOf(size), IntOf(index), path);
    FitsOf(found);
    assert v.value.items == ProofValue(found).items;
    DecodeProofIs(blob, found);
    return Some(found);
  }

  lemma FitsOf(c: Candidate)
    requires c.leafIndex < c.treeSize <= MAX_TREE_SIZE && |c.path| == PathLen(c.treeSize, c.leafIndex)
      && AllDigests(c.path)
    ensures c.Fits()
  {}

  /** What the encoding of a candidate that fits looks like. */
  ghost predicate Foldable(v: Option<Value>, c: Candidate) {
    && v.Some? && v.value.Array? && |v.value.items| == 3
    && v.value.items[0] == UInt(c.treeSize) && v.value.items[1] == UInt(c.leafIndex)
    && v.value.items[2].Array? && |v.value.items[2].items| == |c.path| <= MAX_AUDIT_PATH
    && (forall i | 0 <= i < |c.path| :: v.value.items[2].items[i] == ByteString(c.path[i]))
    && c.leafIndex < c.treeSize <= MAX_TREE_SIZE && |c.path| == PathLen(c.treeSize, c.leafIndex) && AllDigests(c.path)
  }

  lemma FoldableProof(blob: Bytes, c: Candidate)
    requires ProofOf(blob, c)
    ensures Foldable(Decode(blob, false), c)
  {
    hide Decode, PathLen;
    PathAtMost62(c.leafIndex, c.treeSize);
    assert ProofValue(c).items[2] == Array(NodeStrings(c.path));
  }

  /** The structural checks, in the order they are made. */
  method CheckShape(receipt: Bytes) returns (s: Option<Shape>)
    ensures s == ShapeOf(receipt)
  {
    hide ReadEnvelope, ProtectedMap, CritOk, Lookup, ProofItems, Decode, ShapeOf, CCF_UNDERSTOOD, RECEIPT_UNDERSTOOD;
    ShapeOfNone(receipt);
    var env := ReadEnvelope(receipt);
    if env.None? { return None; }
    if env.value.payload != NULL { return None; }
    var protectedMap := ProtectedMap(env.value.protectedHeader);
    if protectedMap.None? { return None; }
    var critOk := CheckCriticalHeaders(protectedMap.value, UnderstoodLabels(protectedMap.value));
    if !critOk { return None; }
    if !HasKey(protectedMap.value, Label(HDR_ALG)) { return None; }
    var items := ProofItems(env.value.unprotected);
    if items.None? || items.value == [] { return None; }
    if |items.value| > MAX_INCLUSION_PROOFS { return None; }
    var proofs: seq<Bytes> := [];
    for i := 0 to |items.value|
      invariant |proofs| == i && forall k | 0 <= k < i :: items.value[k] == ByteString(proofs[k])
      invariant forall b | b in proofs :: Decode(b, false).Some?
    {
      if !items.value[i].ByteString? {
        NoShape(receipt, env.value, items.value, i);
        return None;
      }
      var blob := items.value[i].bytes;
      var accepted := EncodingRule.Check(blob, false);
      DecodeAccepted(blob);
      if !accepted {
        NoShape(receipt, env.value, items.value, i);
        return None;
      }
      proofs := proofs + [blob];
    }
    assert items.value == NodeStrings(proofs);
    var found := Shape(env.value, protectedMap.value, proofs);
    ShapeIs(receipt, found);
    return Some(found);
  }

  lemma DecodeAccepted(octets: Bytes)
    ensures Decode(octets, false).Some? <==> CborRoundTrip.Accepted(octets, false)
  {}

  /** Without a witness there is no shape. */
  lemma ShapeOfNone(receipt: Bytes)
    ensures (forall s :: !HasShape(receipt, s)) ==> ShapeOf(receipt) == None
  {}

  lemma ShapeItems(receipt: Bytes, s: Shape)
    requires HasShape(receipt, s)
    ensures ReadEnvelope(receipt) == Some(s.env) && ProofItems(s.env.unprotected).Some?
    ensures var items := ProofItems(s.env.unprotected).value;
      forall i | 0 <= i < |items| :: items[i].ByteString? && Decode(items[i].bytes, false).Some?
  {
    hide ReadEnvelope, ProtectedMap, CritOk, Lookup, ProofItems, Decode;
    forall i | 0 <= i < |s.proofs| ensures Decode(NodeStrings(s.proofs)[i].bytes, false).Some? {
      assert s.proofs[i] in s.proofs;
    }
  }

  lemma NoShape(receipt: Bytes, env: Envelope, items: seq<Value>, i: nat)
    requires ReadEnvelope(receipt) == Some(env) && ProofItems(env.unprotected) == Some(items)
    requires i < |items| && (items[i].ByteString? ==> Decode(items[i].bytes, false).None?)
    ensures forall s :: !HasShape(receipt, s)
  {
    hide ReadEnvelope, ProtectedMap, CritOk, Lookup, ProofItems, Decode;
    forall s ensures !HasShape(receipt, s) {
      if HasShape(receipt, s) {
        ShapeItems(receipt, s);
      }
    }
  }

  // ------------------------------------------------------------ the result

  class ReceiptResult {
    var ok: bool
    var root: Option<Bytes>
    var treeSize: Option<nat>
    var leafIndex: Option<nat>
    var iat: Option<int>
    var issuer: Option<Bytes>
    var subject: Option<Bytes>
    var protectedHeaderExt: seq<Entry>
    var failedAt: Option<FailedAt>

    constructor ()
      ensures View() == Outcome(false, None, None, None, NO_CLAIMS, None)
    {
      ok, root, treeSize, leafIndex := false, None, None, None;
      iat, issuer, subject, protectedHeaderExt := None, None, None, [];
      failedAt := None;
    }

    function View(): Outcome
      reads this
    {
      Outcome(ok, root, treeSize, leafIndex, Claims(iat, issuer, subject, protectedHeaderExt), failedAt)
    }
  }

  /** An outcome before structural failures are named. */
  function Unnamed(d: Outcome): Outcome {
    if d.failedAt == Some(Structure) then d.(failedAt := None) else d
  }

  lemma Sign1UnderShape(check: SignatureCheck, receipt: Bytes, s: Shape, root: Bytes, understood: set<Value>)
    requires HasShape(receipt, s) && CritOk(s.protectedMap, understood)
    ensures s.env.protectedHeader.ByteString?
    ensures Sign1Verifies(check, receipt, Some(root), understood)
       <==> SignatureHolds(check, s.env, s.protectedMap, root)
  {
    hide ReadEnvelope, CritOk, Lookup, Decode, SigStructure, SignatureHolds, HasKey;
  }

  /** Parse every proof before verifying any. */
  method ParseCandidates(proofs: seq<Bytes>) returns (cs: Option<seq<Candidate>>)
    ensures cs == Candidates(proofs)
  {
    hide DecodeProof;
    var parsed: seq<Candidate> := [];
    for i := 0 to |proofs|
      invariant |parsed| == i && forall k | 0 <= k < i :: DecodeProof(proofs[k]) == Some(parsed[k])
    {
      var c := DecodeInclusionProof(proofs[i]);
      if c.None? {
        assert proofs[i] in proofs;
        return None;
      }
      parsed := parsed + [c.value];
    }
    assert forall b | b in proofs :: DecodeProof(b).Some?;
    assert parsed == Candidates(proofs).value;
    return Some(parsed);
  }

  /** Try the candidates in turn; report the first that the signature holds over, or
      the first one as a diagnostic. */
  method TryCandidates(h: Hash, check: SignatureCheck, receipt: Bytes, leaf: Bytes, cs: seq<Candidate>,
      result: ReceiptResult, ghost s: Shape) returns (found: bool)
    requires HasShape(receipt, s) && CritOk(s.protectedMap, RECEIPT_UNDERSTOOD)
    requires s.env.protectedHeader.ByteString? && cs != [] && forall c | c in cs :: c.Fits()
    requires result.View() == Outcome(false, None, None, None, NO_CLAIMS, None)
    modifies result
    ensures var k := FirstSigned(h, check, s, leaf, cs);
      && (found <==> k < |cs|)
      && (found ==> result.View() == Report(h, leaf, cs[k], true, NO_CLAIMS).(ok := false))
      && (!found ==> result.View() == Report(h, leaf, cs[0], false, NO_CLAIMS))
  {
    hide HasShape, CritOk, FoldPath, PathLen, SignatureHolds, RECEIPT_UNDERSTOOD, Sign1Verifies, FirstSigned;
    var diagnostic: Option<(Candidate, Bytes)> := None;
    for i := 0 to |cs|
      invariant forall k | 0 <= k < i :: !Signs(h, check, s, leaf, cs[k])
      invariant result.View() == Outcome(false, None, None, None, NO_CLAIMS, None)
      invariant diagnostic == if i == 0 then None else Some((cs[0], RootOf(h, leaf, cs[0])))
    {
      var c := cs[i];
      assert c.Fits();
      var reconstructed := MerkleVerifier.RootFromInclusionProof(h, leaf, c.leafIndex, c.treeSize, c.path);
      if diagnostic.None? { diagnostic := Some((c, reconstructed.value)); }
      Sign1UnderShape(check, receipt, s, reconstructed.value, RECEIPT_UNDERSTOOD);
      var signed := VerifySign1(check, receipt, Some(reconstructed.value), RECEIPT_UNDERSTOOD);
      if signed.Some? {
        FirstSignedIs(h, check, s, leaf, cs, i);
        result.treeSize := Some(c.treeSize);
        result.leafIndex := Some(c.leafIndex);
        result.root := Some(reconstructed.value);
        return true;
      }
    }
    FirstSignedIs(h, check, s, leaf, cs, |cs|);
    result.treeSize, result.leafIndex := Some(diagnostic.value.0.treeSize), Some(diagnostic.value.0.leafIndex);
    result.root := Some(diagnostic.value.1);
    result.failedAt := Some(Signature);
    return false;
  }

  lemma FirstSignedIs(h: Hash, check: SignatureCheck, s: Shape, leaf: Bytes, cs: seq<Candidate>, k: nat)
    requires s.env.protectedHeader.ByteString? && k <= |cs| && forall c | c in cs :: c.Fits()
    requires k < |cs| ==> Signs(h, check, s, leaf, cs[k])
    requires forall i | 0 <= i < k :: !Signs(h, check, s, leaf, cs[i])
    ensures FirstSigned(h, check, s, leaf, cs) == k
  {
    hide FirstSigned, Signs;
  }

  /** Copy the claims of a verified header onto the result. */
  method SurfaceClaims(result: ReceiptResult, protectedMap: seq<Entry>)
    modifies result
    ensures result.View() == old(result.View()).(ok := true, claims := ClaimsOf(protectedMap))
  {
    hide Lookup, Unprocessed;
    var cwt := Lookup(protectedMap, Label(HDR_CWT_CLAIMS));
    var claims := if cwt.Some? && cwt.value.Map? then cwt.value.entries else [];
    result.iat := IatOf(Lookup(claims, Label(CWT_CLAIM_IAT)));
    result.issuer := TextOf(Lookup(claims, Label(CWT_CLAIM_ISS)));
    result.subject := TextOf(Lookup(claims, Label(CWT_CLAIM_SUB)));
    result.protectedHeaderExt := Unprocessed(protectedMap);
    result.ok := true;
  }

  method VerifySteps(h: Hash, check: SignatureCheck, ccf: CcfRoot, receipt: Bytes, leaf: Bytes)
    returns (result: ReceiptResult)
    ensures fresh(result)
    ensures result.View() == Unnamed(Decide(h, check, ccf, receipt, leaf))
  {
    hide HasShape, CritOk, Lookup, Decode, Candidates, FirstSigned, SignatureHolds, ClaimsOf, FoldPath, PathLen,
      RECEIPT_UNDERSTOOD, CCF_UNDERSTOOD, Sign1Verifies, ShapeOf;
    result := new ReceiptResult();
    var shape := CheckShape(receipt);
    if shape.None? { return; }
    var s := shape.value;
    ShapeCrit(receipt, s);
    ShapeFacts(receipt, s);
    var vds := VdsOf(s.protectedMap);
    if vds == Some(VDS_RFC9162_SHA256) {
      var cs := ParseCandidates(s.proofs);
      if cs.None? { return; }
      AllFit(s.proofs);
      var found := TryCandidates(h, check, receipt, leaf, cs.value, result, s);
      if !found { return; }
    } else if vds == Some(VDS_CCF_LEDGER_SHA256) {
      var root := ccf(s.proofs[0], leaf);
      if root.None? { return; }
      result.root := root;
      Sign1UnderShape(check, receipt, s, root.value, CCF_UNDERSTOOD);
      var signed := VerifySign1(check, receipt, root, CCF_UNDERSTOOD);
      if signed.None? {
        result.failedAt := Some(Signature);
        return;
      }
    } else {
      return;
    }
    SurfaceClaims(result, s.protectedMap);
  }

  lemma ShapeCrit(receipt: Bytes, s: Shape)
    requires HasShape(receipt, s)
    ensures CritOk(s.protectedMap, UnderstoodLabels(s.protectedMap))
  {}

  lemma AllFit(proofs: seq<Bytes>)
    requires Candidates(proofs).Some?
    ensures forall c | c in Candidates(proofs).value :: c.Fits()
  {
    hide DecodeProof, PathFits;
  }

  /** Every failure that is not the signature's is structural. */
  method VerifyReceipt(h: Hash, check: SignatureCheck, ccf: CcfRoot, receipt: Bytes, leaf: Bytes)
    returns (result: ReceiptResult)
    ensures fresh(result)
    ensures result.View() == Decide(h, check, ccf, receipt, leaf)
  {
    hide Decide;
    result := VerifySteps(h, check, ccf, receipt, leaf);
    NothingLeaks(h, check, ccf, receipt, leaf);
    if !result.ok && result.failedAt.None? { result.failedAt := Some(Structure); }
  }
}
