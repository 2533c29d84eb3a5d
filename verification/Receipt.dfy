/** COSE receipts: their shape, the decision about one, and what a decision means. */
module Receipt {
  import opened Octets
  import opened Cbor
  import opened CoseSign1
  import opened Merkle

  const HDR_VDS := 395
  const HDR_VDP := 396
  const VDS_RFC9162_SHA256 := 1
  const VDS_CCF_LEDGER_SHA256 := 2
  const VDP_INCLUSION_PROOFS := -1
  const MAX_INCLUSION_PROOFS: nat := 16
  const MAX_AUDIT_PATH: nat := 64
  const HDR_CWT_CLAIMS := 15
  const CWT_CLAIM_ISS := 1
  const CWT_CLAIM_SUB := 2
  const CWT_CLAIM_IAT := 6
  const HDR_KID := 4
  const HDR_GRADE := -65537

  /** alg, crit, vds and the CWT claims. */
  const RECEIPT_UNDERSTOOD: set<Value> := {UInt(1), UInt(2), UInt(395), UInt(15)}

  /** Also kid and the text label ccf.v1. */
  const CCF_UNDERSTOOD: set<Value> := RECEIPT_UNDERSTOOD + {UInt(4), Text([0x63, 0x63, 0x66, 0x2E, 0x76, 0x31])}

  /** The root of a CCF proof blob for a claim digest, when the blob is well formed. */
  type CcfRoot = (Bytes, Bytes) -> Option<Bytes>

  // ------------------------------------------------------ inclusion proofs

  datatype Candidate = Candidate(treeSize: nat, leafIndex: nat, path: seq<Bytes>) {
    predicate Fits() { PathFits(leafIndex, treeSize, path) && AllDigests(path) }
  }

  function NodeStrings(path: seq<Bytes>): (items: seq<Value>)
    ensures |items| == |path| && forall i | 0 <= i < |path| :: items[i] == ByteString(path[i])
  {
    seq(|path|, i requires 0 <= i < |path| => ByteString(path[i]))
  }

  function ProofValue(c: Candidate): Value {
    Array([UInt(c.treeSize), UInt(c.leafIndex), Array(NodeStrings(c.path))])
  }

  function EncodeInclusionProof(treeSize: nat, leafIndex: nat, path: seq<Bytes>): Bytes {
    Print(ProofValue(Candidate(treeSize, leafIndex, path)))
  }

  /** blob is the encoding of c, and c can be folded. */
  ghost predicate ProofOf(blob: Bytes, c: Candidate) {
    c.Fits() && Decode(blob, false) == Some(ProofValue(c))
  }

  lemma ProofOfUnique(blob: Bytes, c: Candidate, c': Candidate)
    requires ProofOf(blob, c) && ProofOf(blob, c')
    ensures c == c'
  {
    hide Decode;
    var items, items' := NodeStrings(c.path), NodeStrings(c'.path);
    assert ProofValue(c).items == ProofValue(c').items;
    assert ProofValue(c).items[0] == UInt(c.treeSize) && ProofValue(c').items[0] == UInt(c'.treeSize);
    assert ProofValue(c).items[1] == UInt(c.leafIndex) && ProofValue(c').items[1] == UInt(c'.leafIndex);
    assert ProofValue(c).items[2] == Array(items) && ProofValue(c').items[2] == Array(items');
    forall i | 0 <= i < |c.path| ensures c.path[i] == c'.path[i] {
      assert items[i] == items'[i];
    }
  }

  ghost function DecodeProof(blob: Bytes): (c: Option<Candidate>)
    ensures c.Some? ==> ProofOf(blob, c.value)
    ensures c.None? ==> forall x :: !ProofOf(blob, x)
  {
    if c :| ProofOf(blob, c) then Some(c) else None
  }

  lemma DecodeProofIs(blob: Bytes, c: Candidate)
    requires ProofOf(blob, c)
    ensures DecodeProof(blob) == Some(c)
  {
    ProofOfUnique(blob, DecodeProof(blob).value, c);
  }

  /** Every blob, in order; nothing when one is malformed. */
  ghost function Candidates(proofs: seq<Bytes>): (r: Option<seq<Candidate>>)
    ensures r.Some? <==> forall b | b in proofs :: DecodeProof(b).Some?
    ensures r.Some? ==> |r.value| == |proofs|
    ensures r.Some? ==> forall i | 0 <= i < |proofs| :: DecodeProof(proofs[i]) == Some(r.value[i])
  {
    if exists b :: b in proofs && DecodeProof(b).None? then None
    else Some(seq(|proofs|, i requires 0 <= i < |proofs| => DecodeProof(proofs[i]).value))
  }

  // ------------------------------------------------------------- the shape

  datatype Shape = Shape(env: Envelope, protectedMap: seq<Entry>, proofs: seq<Bytes>)

  /** vds counts only as an integer of the protected header. */
  function VdsOf(protectedMap: seq<Entry>): Option<int> {
    var vds := Lookup(protectedMap, Label(HDR_VDS));
    if vds.Some? && IsInt(vds.value) then Some(IntOf(vds.value)) else None
  }

  /** The labels that may be critical. */
  function UnderstoodLabels(protectedMap: seq<Entry>): set<Value> {
    if VdsOf(protectedMap) == Some(VDS_CCF_LEDGER_SHA256) then CCF_UNDERSTOOD else RECEIPT_UNDERSTOOD
  }

  /** The inclusion proofs array of the unprotected header. */
  function ProofItems(unprotected: Value): Option<seq<Value>> {
    if !unprotected.Map? then None
    else
      var vdp := Lookup(unprotected.entries, Label(HDR_VDP));
      if vdp.None? || !vdp.value.Map? then None
      else
        var proofs := Lookup(vdp.value.entries, Label(VDP_INCLUSION_PROOFS));
        if proofs.None? || !proofs.value.Array? then None else Some(proofs.value.items)
  }

  /** Everything checked before a proof is read, in either verifiable data structure. */
  ghost predicate HasShape(receipt: Bytes, s: Shape) {
    && ReadEnvelope(receipt) == Some(s.env)
    && s.env.payload == NULL
    && ProtectedMap(s.env.protectedHeader) == Some(s.protectedMap)
    && CritOk(s.protectedMap, UnderstoodLabels(s.protectedMap))
    && HasKey(s.protectedMap, Label(HDR_ALG))
    && 0 < |s.proofs| <= MAX_INCLUSION_PROOFS
    && ProofItems(s.env.unprotected) == Some(NodeStrings(s.proofs))
    && forall b | b in s.proofs :: Decode(b, false).Some?
  }

  lemma ShapeUnique(receipt: Bytes, s: Shape, s': Shape)
    requires HasShape(receipt, s) && HasShape(receipt, s')
    ensures s == s'
  {
    hide ReadEnvelope, ProtectedMap, CritOk, HasKey, Decode, ProofItems;
    forall i | 0 <= i < |s.proofs| ensures s.proofs[i] == s'.proofs[i] {
      assert NodeStrings(s.proofs)[i] == NodeStrings(s'.proofs)[i];
    }
  }

  ghost function ShapeOf(receipt: Bytes): (s: Option<Shape>)
    ensures s.Some? ==> HasShape(receipt, s.value)
    ensures s.None? ==> forall x :: !HasShape(receipt, x)
  {
    if s :| HasShape(receipt, s) then Some(s) else None
  }

  lemma ShapeIs(receipt: Bytes, s: Shape)
    requires HasShape(receipt, s)
    ensures ShapeOf(receipt) == Some(s)
  {
    hide HasShape;
    ShapeUnique(receipt, ShapeOf(receipt).value, s);
  }

  // ---------------------------------------------------------- the decision

  datatype FailedAt = Structure | Signature

  datatype Claims = Claims(iat: Option<int>, issuer: Option<Bytes>, subject: Option<Bytes>, ext: seq<Entry>)

  const NO_CLAIMS: Claims := Claims(None, None, None, [])

  datatype Outcome = Outcome(ok: bool, root: Option<Bytes>, treeSize: Option<nat>, leafIndex: Option<nat>,
    claims: Claims, failedAt: Option<FailedAt>)

  const MALFORMED: Outcome := Outcome(false, None, None, None, NO_CLAIMS, Some(Structure))

  function TextOf(v: Option<Value>): Option<Bytes> {
    if v.Some? && v.value.Text? then Some(v.value.bytes) else None
  }

  /** Reported within 64-bit signed integers only. */
  function IatOf(v: Option<Value>): Option<int> {
    if v.Some? && IsInt(v.value) && 0 <= IntOf(v.value) + TWO63 < TWO64 then Some(IntOf(v.value)) else None
  }

  /** Entries under labels that this verifier does not process. */
  function Unprocessed(entries: seq<Entry>): seq<Entry> {
    if entries == [] then []
    else (if entries[0].key in RECEIPT_UNDERSTOOD then [] else [entries[0]]) + Unprocessed(entries[1..])
  }

  function ClaimsOf(protectedMap: seq<Entry>): Claims {
    var cwt := Lookup(protectedMap, Label(HDR_CWT_CLAIMS));
    var claims := if cwt.Some? && cwt.value.Map? then cwt.value.entries else [];
    Claims(IatOf(Lookup(claims, Label(CWT_CLAIM_IAT))), TextOf(Lookup(claims, Label(CWT_CLAIM_ISS))),
           TextOf(Lookup(claims, Label(CWT_CLAIM_SUB))), Unprocessed(protectedMap))
  }

  function RootOf(h: Hash, leaf: Bytes, c: Candidate): Digest
    requires c.Fits()
  {
    FoldPath(h, LeafHash(h, leaf), c.treeSize, c.leafIndex, c.path)
  }

  /** The signature holds over the root that a candidate rebuilds from the leaf. */
  predicate Signs(h: Hash, check: SignatureCheck, s: Shape, leaf: Bytes, c: Candidate)
    requires s.env.protectedHeader.ByteString? && c.Fits()
  {
    SignatureHolds(check, s.env, s.protectedMap, RootOf(h, leaf, c))
  }

  /** Index of the first candidate the signature holds over, or their number. */
  function FirstSigned(h: Hash, check: SignatureCheck, s: Shape, leaf: Bytes, cs: seq<Candidate>): (k: nat)
    requires s.env.protectedHeader.ByteString? && forall c | c in cs :: c.Fits()
    ensures k <= |cs|
    ensures k < |cs| ==> Signs(h, check, s, leaf, cs[k])
    ensures forall i | 0 <= i < k :: !Signs(h, check, s, leaf, cs[i])
    decreases |cs|
  {
    if cs == [] then 0
    else if Signs(h, check, s, leaf, cs[0]) then 0
    else 1 + FirstSigned(h, check, s, leaf, cs[1..])
  }

  function Report(h: Hash, leaf: Bytes, c: Candidate, ok: bool, claims: Claims): Outcome
    requires c.Fits()
  {
    Outcome(ok, Some(RootOf(h, leaf, c)), Some(c.treeSize), Some(c.leafIndex), claims,
            if ok then None else Some(Signature))
  }

  /** The decision for the RFC 9162 structure once the shape is known. */
  ghost function DecideTree(h: Hash, check: SignatureCheck, s: Shape, leaf: Bytes): Outcome
    requires s.env.protectedHeader.ByteString? && s.proofs != []
  {
    var cs := Candidates(s.proofs);
    if cs.None? then MALFORMED
    else
      assert forall c | c in cs.value :: c.Fits();
      var k := FirstSigned(h, check, s, leaf, cs.value);
      if k < |cs.value| then Report(h, leaf, cs.value[k], true, ClaimsOf(s.protectedMap))
      else Report(h, leaf, cs.value[0], false, NO_CLAIMS)
  }

  ghost function DecideCcf(check: SignatureCheck, ccf: CcfRoot, s: Shape, leaf: Bytes): Outcome
    requires s.env.protectedHeader.ByteString? && s.proofs != []
  {
    var root := ccf(s.proofs[0], leaf);
    if root.None? then MALFORMED
    else if SignatureHolds(check, s.env, s.protectedMap, root.value) then
      Outcome(true, root, None, None, ClaimsOf(s.protectedMap), None)
    else Outcome(false, root, None, None, NO_CLAIMS, Some(Signature))
  }

  ghost function DecideShape(h: Hash, check: SignatureCheck, ccf: CcfRoot, s: Shape, leaf: Bytes): Outcome
    requires s.env.protectedHeader.ByteString? && s.proofs != []
  {
    if VdsOf(s.protectedMap) == Some(VDS_RFC9162_SHA256) then DecideTree(h, check, s, leaf)
    else if VdsOf(s.protectedMap) == Some(VDS_CCF_LEDGER_SHA256) then DecideCcf(check, ccf, s, leaf)
    else MALFORMED
  }

  ghost function Decide(h: Hash, check: SignatureCheck, ccf: CcfRoot, receipt: Bytes, leaf: Bytes): Outcome {
    var s := ShapeOf(receipt);
    if s.None? then MALFORMED else (ShapeFacts(receipt, s.value); DecideShape(h, check, ccf, s.value, leaf))
  }

  lemma ShapeFacts(receipt: Bytes, s: Shape)
    requires HasShape(receipt, s)
    ensures s.env.protectedHeader.ByteString? && s.proofs != []
  {}

  // ----------------------------------------------------- what it means

  /** The signature holds over the root of some well-formed blob. */
  ghost predicate SomeSigned(h: Hash, check: SignatureCheck, s: Shape, leaf: Bytes)
    requires s.env.protectedHeader.ByteString?
  {
    exists b, c :: b in s.proofs && ProofOf(b, c) && Signs(h, check, s, leaf, c)
  }

  /** ok and failed_at, by existence alone. */
  lemma TreeDecision(h: Hash, check: SignatureCheck, s: Shape, leaf: Bytes)
    requires s.env.protectedHeader.ByteString? && s.proofs != []
    ensures var d := DecideTree(h, check, s, leaf);
      var wellFormed := forall b | b in s.proofs :: DecodeProof(b).Some?;
      && (d.ok <==> wellFormed && SomeSigned(h, check, s, leaf))
      && d.failedAt == (if d.ok then None else if wellFormed then Some(Signature) else Some(Structure))
      && (d.root.Some? <==> wellFormed)
      && d.claims == if d.ok then ClaimsOf(s.protectedMap) else NO_CLAIMS
  {
    hide Signs, RootOf, DecodeProof, ClaimsOf;
    var cs := Candidates(s.proofs);
    if cs.Some? {
      forall b, c | b in s.proofs && ProofOf(b, c) ensures c in cs.value {
        var i :| 0 <= i < |s.proofs| && s.proofs[i] == b;
        DecodeProofIs(b, c);
        assert cs.value[i] == c;
      }
      var k := FirstSigned(h, check, s, leaf, cs.value);
      if k < |cs.value| {
        assert s.proofs[k] in s.proofs && ProofOf(s.proofs[k], cs.value[k]);
      }
    }
  }

  /** Only which proofs there are matters. */
  lemma SameProofsDecide(h: Hash, check: SignatureCheck, s: Shape, s': Shape, leaf: Bytes)
    requires s.env.protectedHeader.ByteString? && s.proofs != [] && s'.proofs != []
    requires s'.env.protectedHeader == s.env.protectedHeader && s'.env.signature == s.env.signature
    requires s'.protectedMap == s.protectedMap && forall b :: b in s.proofs <==> b in s'.proofs
    ensures DecideTree(h, check, s, leaf).ok == DecideTree(h, check, s', leaf).ok
    ensures DecideTree(h, check, s, leaf).failedAt == DecideTree(h, check, s', leaf).failedAt
    ensures DecideTree(h, check, s, leaf).claims == DecideTree(h, check, s', leaf).claims
  {
    hide DecideTree, DecodeProof, ProofOf, ClaimsOf, RootOf;
    TreeDecision(h, check, s, leaf);
    TreeDecision(h, check, s', leaf);
    assert forall c: Candidate | c.Fits() :: Signs(h, check, s, leaf, c) == Signs(h, check, s', leaf, c);
    assert SomeSigned(h, check, s, leaf) == SomeSigned(h, check, s', leaf);
  }

  /** Nothing of an unverified header is surfaced, and failed_at is set on failure
      only. */
  lemma NothingLeaks(h: Hash, check: SignatureCheck, ccf: CcfRoot, receipt: Bytes, leaf: Bytes)
    ensures var d := Decide(h, check, ccf, receipt, leaf);
      && (d.ok <==> d.failedAt == None)
      && (!d.ok ==> d.claims == NO_CLAIMS)
      && (d.failedAt == Some(Structure) ==> d == MALFORMED)
      && (d.ok || d.failedAt == Some(Signature) ==> d.root.Some?)
  {
    hide ClaimsOf, RootOf, HasShape, Candidates, FirstSigned;
  }
}
