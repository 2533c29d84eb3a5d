/** What the verdict on a receipt is, by what stands in its octets: labels, limits and
    kinds written out. */
module ReceiptLaws {
  import opened Octets
  import opened Cbor
  import opened CborRoundTrip
  import opened CoseSign1
  import opened Merkle
  import opened Receipt
  import opened Sign1Laws

  // ------------------------------------------------------------ the reading

  /** What the verifier takes from a receipt. */
  datatype Reading = Reading(headerOctets: Bytes, header: seq<Entry>, signature: Value, proofs: seq<Bytes>)

  /** The text ccf.v1 */
  const CCF_LABEL: Value := Text([0x63, 0x63, 0x66, 0x2E, 0x76, 0x31])

  predicate HasVds(header: seq<Entry>, vds: nat) { Entry(UInt(395), UInt(vds)) in header }

  function CriticalLabels(header: seq<Entry>): set<Value> {
    if HasVds(header, 2) then {UInt(1), UInt(2), UInt(15), UInt(395), UInt(4), CCF_LABEL}
    else {UInt(1), UInt(2), UInt(15), UInt(395)}
  }

  /** The unprotected header holds this list of proofs: label 396, then label -1. */
  ghost predicate HoldsProofs(unprotected: Value, proofs: seq<Bytes>) {
    && unprotected.Map?
    && exists vdp: seq<Entry> ::
         Entry(UInt(396), Map(vdp)) in unprotected.entries && Entry(NInt(0), Array(NodeStrings(proofs))) in vdp
  }

  /** A receipt of at most 10 MiB that prints four elements: a protected header with an
      algorithm and no critical label but the understood ones, between 1 and 16 proofs
      that each print an item, a null payload, and any signature element. */
  ghost predicate Reads(receipt: Bytes, r: Reading) {
    && |receipt| <= 10 * 1024 * 1024
    && (exists unprotected ::
          && IsPrintingOf(receipt, Sign1Value(ByteString(r.headerOctets), unprotected, Simple(22), r.signature), true)
          && HoldsProofs(unprotected, r.proofs))
    && HeaderPrints(r.headerOctets, r.header)
    && (exists e | e in r.header :: e.key == UInt(1))
    && CritLaw(r.header, CriticalLabels(r.header))
    && 1 <= |r.proofs| <= 16
    && forall b | b in r.proofs :: exists v :: IsPrintingOf(b, v, false)
  }

  lemma VdsIs(header: seq<Entry>, n: nat)
    requires DistinctKeys(header)
    ensures VdsOf(header) == Some(n) <==> HasVds(header, n)
  {
    hide Lookup, DistinctKeys;
    LookupIff(header, UInt(395), UInt(n));
  }

  lemma LabelsAre(header: seq<Entry>)
    requires DistinctKeys(header)
    ensures CriticalLabels(header) == UnderstoodLabels(header)
  {
    hide VdsOf, HasVds;
    VdsIs(header, 2);
  }

  lemma ProofItemsAre(unprotected: Value, proofs: seq<Bytes>, level: nat)
    requires InDomain(unprotected, level, false)
    ensures ProofItems(unprotected) == Some(NodeStrings(proofs)) <==> HoldsProofs(unprotected, proofs)
  {
    hide Lookup, DistinctKeys, InDomain;
    if unprotected.Map? {
      KeysDistinct(unprotected.entries, level);
      forall vdp | Entry(UInt(396), Map(vdp)) in unprotected.entries ensures DistinctKeys(vdp) {
        MapEntryDomain(unprotected.entries, Entry(UInt(396), Map(vdp)), level);
        KeysDistinct(vdp, level + 1);
      }
      if ProofItems(unprotected) == Some(NodeStrings(proofs)) {
        var vdp := Lookup(unprotected.entries, Label(HDR_VDP)).value;
        LookupIff(unprotected.entries, UInt(396), vdp);
        LookupIff(vdp.entries, NInt(0), Array(NodeStrings(proofs)));
      }
      forall vdp |
        Entry(UInt(396), Map(vdp)) in unprotected.entries && Entry(NInt(0), Array(NodeStrings(proofs))) in vdp
        ensures ProofItems(unprotected) == Some(NodeStrings(proofs))
      {
        LookupIff(unprotected.entries, UInt(396), Map(vdp));
        LookupIff(vdp, NInt(0), Array(NodeStrings(proofs)));
      }
    }
  }

  lemma MapEntryDomain(entries: seq<Entry>, e: Entry, level: nat)
    requires InDomain(Map(entries), level, false) && e in entries
    ensures InDomain(e.value, level + 1, false)
  {}

  lemma UnprotectedDomain(header: Value, unprotected: Value, payload: Value, signature: Value)
    requires InDomain(Sign1Value(header, unprotected, payload, signature), 0, true)
    ensures InDomain(unprotected, 2, false)
  {
    var parts := [header, unprotected, payload, signature];
    assert InDomain(Array(parts), 1, false);
    assert parts[1] in parts;
  }

  lemma BlobIsPrinted(b: Bytes)
    ensures Decode(b, false).Some? <==> exists v :: IsPrintingOf(b, v, false)
  {
    hide Accepted, IsPrintingOf, ReadItem;
    AcceptedIffPrinted(b, false);
    assert Decode(b, false).Some? <==> Accepted(b, false);
  }

  function ReadingOf(s: Shape): Reading
    requires s.env.protectedHeader.ByteString?
  {
    Reading(s.env.protectedHeader.bytes, s.protectedMap, s.env.signature, s.proofs)
  }

  lemma ShapeReads(receipt: Bytes, s: Shape)
    requires HasShape(receipt, s)
    ensures s.env.protectedHeader.ByteString? && Reads(receipt, ReadingOf(s)) && DistinctKeys(s.protectedMap)
  {
    hide InDomain, Printable, Print, Decode, CritOk, CritLaw, ProtectedMap, HeaderPrints, DistinctKeys, ReadEnvelope,
      ProofItems, HoldsProofs, HasKey, CriticalLabels, UnderstoodLabels;
    ShapeFacts(receipt, s);
    ReadPrints(receipt, s.env);
    UnprotectedDomain(s.env.protectedHeader, s.env.unprotected, s.env.payload, s.env.signature);
    HeaderIsPrinted(s.env.protectedHeader, s.protectedMap);
    HasKeyIff(s.protectedMap, UInt(1));
    LabelsAre(s.protectedMap);
    CritIsLaw(s.protectedMap, CriticalLabels(s.protectedMap));
    ProofItemsAre(s.env.unprotected, s.proofs, 2);
    forall b | b in s.proofs ensures exists v :: IsPrintingOf(b, v, false) { BlobIsPrinted(b); }
  }

  lemma ReadingHasShape(receipt: Bytes, r: Reading) returns (s: Shape)
    requires Reads(receipt, r)
    ensures HasShape(receipt, s) && s.env.protectedHeader == ByteString(r.headerOctets) && ReadingOf(s) == r
  {
    hide InDomain, Printable, Print, Decode, CritOk, CritLaw, ProtectedMap, HeaderPrints, DistinctKeys, ReadEnvelope,
      ProofItems, HoldsProofs, HasKey, CriticalLabels, UnderstoodLabels;
    var header := ByteString(r.headerOctets);
    var unprotected :| IsPrintingOf(receipt, Sign1Value(header, unprotected, Simple(22), r.signature), true)
                       && HoldsProofs(unprotected, r.proofs);
    EnvelopeOf(receipt, header, unprotected, Simple(22), r.signature);
    UnprotectedDomain(header, unprotected, Simple(22), r.signature);
    HeaderIsPrinted(header, r.header);
    HasKeyIff(r.header, UInt(1));
    LabelsAre(r.header);
    CritIsLaw(r.header, CriticalLabels(r.header));
    ProofItemsAre(unprotected, r.proofs, 2);
    forall b | b in r.proofs ensures Decode(b, false).Some? { BlobIsPrinted(b); }
    s := Shape(Envelope(header, unprotected, Simple(22), r.signature), r.header, r.proofs);
  }

  // ------------------------------------------------------------ the verdict

  /** The blob prints size, index and nodes: within 2^62, the index in the tree, one node
      of 32 octets for every level. */
  ghost predicate Offers(blob: Bytes, c: Candidate) {
    && c.leafIndex < c.treeSize <= 0x4000_0000_0000_0000
    && |c.path| == PathLen(c.treeSize, c.leafIndex)
    && (forall i | 0 <= i < |c.path| :: |c.path[i]| == 32)
    && IsPrintingOf(blob, Array([UInt(c.treeSize), UInt(c.leafIndex), Array(NodeStrings(c.path))]), false)
  }

  lemma OffersIsProof(blob: Bytes, c: Candidate)
    ensures Offers(blob, c) <==> ProofOf(blob, c)
  {
    hide InDomain, Printable, Print, Decode, PathLen;
    if ProofOf(blob, c) { DecodedPrints(blob, false); }
    if Offers(blob, c) { DecodePrinted(ProofValue(c), false); }
  }

  /** The signature holds over the root that a proof of the receipt folds the leaf to. */
  ghost predicate Confirms(h: Hash, check: SignatureCheck, r: Reading, leaf: Bytes, c: Candidate) {
    var root := RootFromPath(h, leaf, c.leafIndex, c.treeSize, c.path);
    root.Some? && SignedOver(check, r.headerOctets, r.header, r.signature, root.value)
  }

  /** d reports this candidate's root, size and index. */
  ghost predicate Reports(h: Hash, leaf: Bytes, d: Outcome, c: Candidate) {
    && d.treeSize == Some(c.treeSize) && d.leafIndex == Some(c.leafIndex)
    && d.root.Some? && RootFromPath(h, leaf, c.leafIndex, c.treeSize, c.path) == Some(d.root.value)
  }

  lemma ConfirmsIsSigns(h: Hash, check: SignatureCheck, s: Shape, leaf: Bytes, c: Candidate)
    requires s.env.protectedHeader.ByteString? && DistinctKeys(s.protectedMap) && c.Fits()
    ensures Confirms(h, check, ReadingOf(s), leaf, c) <==> Signs(h, check, s, leaf, c)
  {
    hide SignatureHolds, SignedOver, DistinctKeys, FoldPath, PathLen;
    HoldsIsSigned(check, s.env, s.protectedMap, RootOf(h, leaf, c));
  }

  /** A receipt that is not read is malformed. */
  lemma UnreadIsMalformed(h: Hash, check: SignatureCheck, ccf: CcfRoot, receipt: Bytes, leaf: Bytes)
    requires forall r :: !Reads(receipt, r)
    ensures Decide(h, check, ccf, receipt, leaf)
         == Outcome(false, None, None, None, Claims(None, None, None, []), Some(Structure))
  {
    hide HasShape, Reads;
    if ShapeOf(receipt).Some? { ShapeReads(receipt, ShapeOf(receipt).value); }
  }

  /** The verdict under vds 1. It is the first proof, in the array's order, that the
      signature confirms; when none does, the first proof is reported as a diagnostic;
      when a blob offers no candidate, nothing is. */
  lemma TreeVerdict(h: Hash, check: SignatureCheck, ccf: CcfRoot, receipt: Bytes, leaf: Bytes, r: Reading)
    requires Reads(receipt, r) && HasVds(r.header, 1)
    ensures var d := Decide(h, check, ccf, receipt, leaf);
      && (d.failedAt == Some(Structure) <==> exists b | b in r.proofs :: forall c :: !Offers(b, c))
      && (d.ok <==> exists k, c :: FirstConfirmed(h, check, r, leaf, k, c))
      && (forall k, c :: FirstConfirmed(h, check, r, leaf, k, c) ==> Reports(h, leaf, d, c))
      && (d.failedAt == Some(Signature) ==> forall c :: Offers(r.proofs[0], c) ==> Reports(h, leaf, d, c))
      && (d.ok ==> d.claims == ClaimsOf(r.header))
  {
    hide InDomain, HasShape, Offers, ProofOf, Reads, VdsOf, HasVds, Confirms, Signs, ClaimsOf, FoldPath, PathLen,
      PathFits, RootFromPath, DistinctKeys, DecodeProof;
    var s := ReadingHasShape(receipt, r);
    ShapeIs(receipt, s);
    ShapeReads(receipt, s);
    VdsIs(r.header, 1);
    ShapeFacts(receipt, s);
    forall b, c ensures Offers(b, c) <==> ProofOf(b, c) { OffersIsProof(b, c); }
    TreeVerdictOfShape(h, check, s, leaf);
  }

  /** Every blob offers a candidate, and this is the first one confirmed. */
  ghost predicate FirstConfirmed(h: Hash, check: SignatureCheck, r: Reading, leaf: Bytes, k: nat, c: Candidate) {
    && (forall b | b in r.proofs :: exists x :: Offers(b, x))
    && k < |r.proofs| && Offers(r.proofs[k], c) && Confirms(h, check, r, leaf, c)
    && forall i, x | 0 <= i < k && Offers(r.proofs[i], x) :: !Confirms(h, check, r, leaf, x)
  }

  lemma AllOffered(proofs: seq<Bytes>)
    ensures Candidates(proofs).Some? <==> forall b | b in proofs :: exists x :: Offers(b, x)
    ensures Candidates(proofs).None? <==> exists b | b in proofs :: forall x :: !Offers(b, x)
  {
    hide Offers, ProofOf;
    forall b, c ensures Offers(b, c) <==> ProofOf(b, c) { OffersIsProof(b, c); }
  }

  lemma OfferedAt(proofs: seq<Bytes>, k: nat, c: Candidate)
    requires Candidates(proofs).Some? && k < |proofs|
    ensures Offers(proofs[k], c) <==> Candidates(proofs).value[k] == c
    ensures Candidates(proofs).value[k].Fits()
  {
    hide Offers, ProofOf;
    OffersIsProof(proofs[k], c);
    if ProofOf(proofs[k], c) { DecodeProofIs(proofs[k], c); }
    ProofFits(proofs[k], Candidates(proofs).value[k]);
  }

  lemma ProofFits(b: Bytes, c: Candidate)
    requires ProofOf(b, c)
    ensures c.Fits()
  {
    hide PathFits;
  }

  lemma ReportReports(h: Hash, leaf: Bytes, c: Candidate, ok: bool, claims: Claims)
    requires c.Fits()
    ensures Reports(h, leaf, Report(h, leaf, c, ok, claims), c)
  {
    hide FoldPath, PathLen;
  }

  /** The first candidate that the signature holds over is the only first confirmed one. */
  lemma FirstSignedIsConfirmed(h: Hash, check: SignatureCheck, s: Shape, leaf: Bytes, cs: seq<Candidate>)
    requires s.env.protectedHeader.ByteString? && s.proofs != [] && DistinctKeys(s.protectedMap)
    requires Candidates(s.proofs) == Some(cs) && forall c | c in cs :: c.Fits()
    ensures var first := FirstSigned(h, check, s, leaf, cs);
      forall k: nat, c :: FirstConfirmed(h, check, ReadingOf(s), leaf, k, c) <==>
        && k == first && first < |cs| && c == cs[first]
  {
    hide Offers, Confirms, Signs, PathFits, RootFromPath, DistinctKeys, Candidates, FirstSigned;
    var r := ReadingOf(s);
    AllOffered(s.proofs);
    forall i, c | 0 <= i < |cs| ensures Offers(s.proofs[i], c) <==> cs[i] == c {
      OfferedAt(s.proofs, i, c);
    }
    forall i | 0 <= i < |cs| ensures Confirms(h, check, r, leaf, cs[i]) <==> Signs(h, check, s, leaf, cs[i]) {
      ConfirmsIsSigns(h, check, s, leaf, cs[i]);
    }
  }

  lemma TreeVerdictOfShape(h: Hash, check: SignatureCheck, s: Shape, leaf: Bytes)
    requires s.env.protectedHeader.ByteString? && s.proofs != [] && DistinctKeys(s.protectedMap)
    ensures var d, r := DecideTree(h, check, s, leaf), ReadingOf(s);
      && (d.failedAt == Some(Structure) <==> exists b | b in r.proofs :: forall c :: !Offers(b, c))
      && (d.ok <==> exists k, c :: FirstConfirmed(h, check, r, leaf, k, c))
      && (forall k, c :: FirstConfirmed(h, check, r, leaf, k, c) ==> Reports(h, leaf, d, c))
      && (d.failedAt == Some(Signature) ==> forall c :: Offers(r.proofs[0], c) ==> Reports(h, leaf, d, c))
      && (d.ok ==> d.claims == ClaimsOf(r.header))
  {
    hide Offers, ClaimsOf, PathFits, DistinctKeys, Candidates, Reports, Report, FirstSigned, FirstConfirmed;
    AllOffered(s.proofs);
    FirstNeedsOffers(h, check, s, leaf);
    if Candidates(s.proofs).Some? {
      var cs := Candidates(s.proofs).value;
      forall i, c | 0 <= i < |cs| ensures (Offers(s.proofs[i], c) <==> cs[i] == c) && cs[i].Fits() {
        OfferedAt(s.proofs, i, c);
      }
      assert forall c | c in cs :: c.Fits();
      FirstSignedIsConfirmed(h, check, s, leaf, cs);
      var k := FirstSigned(h, check, s, leaf, cs);
      if k < |cs| {
        assert FirstConfirmed(h, check, ReadingOf(s), leaf, k, cs[k]);
        ReportReports(h, leaf, cs[k], true, ClaimsOf(s.protectedMap));
        ReportFails(h, leaf, cs[k], true, ClaimsOf(s.protectedMap));
      } else {
        ReportReports(h, leaf, cs[0], false, NO_CLAIMS);
        ReportFails(h, leaf, cs[0], false, NO_CLAIMS);
      }
    } else {
      var b :| b in s.proofs && forall x :: !Offers(b, x);
      assert b in ReadingOf(s).proofs;
    }
  }

  lemma FirstNeedsOffers(h: Hash, check: SignatureCheck, s: Shape, leaf: Bytes)
    requires s.env.protectedHeader.ByteString?
    ensures forall k: nat, c :: FirstConfirmed(h, check, ReadingOf(s), leaf, k, c) ==>
      forall b | b in s.proofs :: exists x :: Offers(b, x)
  {
    hide Offers, Confirms;
  }

  lemma ReportFails(h: Hash, leaf: Bytes, c: Candidate, ok: bool, claims: Claims)
    requires c.Fits()
    ensures var d := Report(h, leaf, c, ok, claims);
      d.ok == ok && d.claims == claims && d.failedAt == if ok then None else Some(Signature)
  {
    hide RootOf;
  }

  /** The verdict under vds 2: what the first proof gives for the leaf is the root, and the
      signature must hold over it. */
  lemma CcfVerdict(h: Hash, check: SignatureCheck, ccf: CcfRoot, receipt: Bytes, leaf: Bytes, r: Reading)
    requires Reads(receipt, r) && HasVds(r.header, 2)
    ensures var d, root := Decide(h, check, ccf, receipt, leaf), ccf(r.proofs[0], leaf);
      && (d.ok <==> root.Some? && SignedOver(check, r.headerOctets, r.header, r.signature, root.value))
      && (d.failedAt == Some(Structure) <==> root.None?)
      && d.root == root && d.treeSize == None && d.leafIndex == None
      && (d.ok ==> d.claims == ClaimsOf(r.header))
  {
    hide InDomain, HasShape, Reads, VdsOf, HasVds, ClaimsOf, DistinctKeys, SignatureHolds, SignedOver, DecideTree;
    var s := ReadingHasShape(receipt, r);
    ShapeIs(receipt, s);
    ShapeReads(receipt, s);
    VdsIs(r.header, 1);
    VdsIs(r.header, 2);
    ShapeFacts(receipt, s);
    var root := ccf(r.proofs[0], leaf);
    if root.Some? { HoldsIsSigned(check, s.env, s.protectedMap, root.value); }
  }

  /** Under any other vds, or none, a receipt is malformed. */
  lemma OtherVdsIsMalformed(h: Hash, check: SignatureCheck, ccf: CcfRoot, receipt: Bytes, leaf: Bytes, r: Reading)
    requires Reads(receipt, r) && !HasVds(r.header, 1) && !HasVds(r.header, 2)
    ensures Decide(h, check, ccf, receipt, leaf)
         == Outcome(false, None, None, None, Claims(None, None, None, []), Some(Structure))
  {
    hide InDomain, HasShape, Reads, VdsOf, HasVds, DistinctKeys, DecideTree, DecideCcf;
    var s := ReadingHasShape(receipt, r);
    ShapeIs(receipt, s);
    ShapeReads(receipt, s);
    VdsIs(r.header, 1);
    VdsIs(r.header, 2);
    ShapeFacts(receipt, s);
  }

  /** Under either structure, ok means that the signature holds over the reported root,
      under the receipt's own header. */
  lemma OkMeansSigned(h: Hash, check: SignatureCheck, ccf: CcfRoot, receipt: Bytes, leaf: Bytes) returns (r: Reading)
    requires Decide(h, check, ccf, receipt, leaf).ok
    ensures Reads(receipt, r) && (HasVds(r.header, 1) || HasVds(r.header, 2))
    ensures var d := Decide(h, check, ccf, receipt, leaf);
      && d.root.Some? && SignedOver(check, r.headerOctets, r.header, r.signature, d.root.value)
      && d.claims == ClaimsOf(r.header)
  {
    hide Decide, ClaimsOf, Reads, HasVds, SignedOver, Offers, RootFromPath;
    if forall x :: !Reads(receipt, x) {
      UnreadIsMalformed(h, check, ccf, receipt, leaf);
    }
    r :| Reads(receipt, r);
    if HasVds(r.header, 1) {
      TreeVerdict(h, check, ccf, receipt, leaf, r);
      var k, c :| FirstConfirmed(h, check, r, leaf, k, c);
      assert Reports(h, leaf, Decide(h, check, ccf, receipt, leaf), c);
    } else if HasVds(r.header, 2) {
      CcfVerdict(h, check, ccf, receipt, leaf, r);
    } else {
      OtherVdsIsMalformed(h, check, ccf, receipt, leaf, r);
    }
  }

  /** A critical label that is not understood makes a receipt malformed, whoever signed it. */
  lemma UnknownCriticalLabel(h: Hash, check: SignatureCheck, ccf: CcfRoot, receipt: Bytes, leaf: Bytes,
      headerOctets: Bytes, header: seq<Entry>, unprotected: Value, payload: Value, signature: Value,
      labels: seq<Value>, name: Value)
    requires IsPrintingOf(receipt, Sign1Value(ByteString(headerOctets), unprotected, payload, signature), true)
    requires HeaderPrints(headerOctets, header)
    requires Entry(UInt(2), Array(labels)) in header && name in labels
    requires name !in {UInt(1), UInt(2), UInt(15), UInt(395)}
    requires HasVds(header, 2) ==> name != UInt(4) && name != CCF_LABEL
    ensures Decide(h, check, ccf, receipt, leaf)
         == Outcome(false, None, None, None, Claims(None, None, None, []), Some(Structure))
  {
    hide Decide, InDomain, Printable, Print, HasVds, HoldsProofs;
    forall r ensures !Reads(receipt, r) {
      if Reads(receipt, r) {
        OneHeader(receipt, r, ByteString(headerOctets), unprotected, payload, signature, header);
      }
    }
    UnreadIsMalformed(h, check, ccf, receipt, leaf);
  }

  /** Octets determine the reading's header. */
  lemma OneHeader(receipt: Bytes, r: Reading, header: Value, unprotected: Value, payload: Value, signature: Value,
      entries: seq<Entry>)
    requires Reads(receipt, r) && header.ByteString? && HeaderPrints(header.bytes, entries)
    requires IsPrintingOf(receipt, Sign1Value(header, unprotected, payload, signature), true)
    ensures r.header == entries && r.headerOctets == header.bytes && r.signature == signature && payload == Simple(22)
  {
    hide InDomain, Printable, Print, HoldsProofs, HeaderPrints, CritLaw, ReadEnvelope, IsPrintingOf;
    var u :| IsPrintingOf(receipt, Sign1Value(ByteString(r.headerOctets), u, Simple(22), r.signature), true)
             && HoldsProofs(u, r.proofs);
    EnvelopeOf(receipt, header, unprotected, payload, signature);
    EnvelopeOf(receipt, ByteString(r.headerOctets), u, Simple(22), r.signature);
    HeaderIsPrinted(header, entries);
    HeaderIsPrinted(ByteString(r.headerOctets), r.header);
  }

  // ------------------------------------------------------------- the claims

  /** The claims of a verified header: issued-at under 15 and 6, within signed 64 bits;
      issuer and subject, when text, under 1 and 2; and every entry but 1, 2, 395 and 15. */
  lemma ClaimsAre(header: seq<Entry>, level: nat)
    requires InDomain(Map(header), level, false)
    ensures var c := ClaimsOf(header);
      && (forall n: int :: c.iat == Some(n) <==>
            -0x8000_0000_0000_0000 <= n <= 0x7FFF_FFFF_FFFF_FFFF
            && exists cwt: seq<Entry> :: Entry(UInt(15), Map(cwt)) in header && HasInt(cwt, UInt(6), n))
      && (forall t :: c.issuer == Some(t) <==>
            exists cwt: seq<Entry> :: Entry(UInt(15), Map(cwt)) in header && Entry(UInt(1), Text(t)) in cwt)
      && (forall t :: c.subject == Some(t) <==>
            exists cwt: seq<Entry> :: Entry(UInt(15), Map(cwt)) in header && Entry(UInt(2), Text(t)) in cwt)
      && (forall e :: e in c.ext <==> e in header && e.key !in {UInt(1), UInt(2), UInt(395), UInt(15)})
  {
    hide Lookup, DistinctKeys, InDomain, Unprocessed;
    KeysDistinct(header, level);
    UnprocessedAre(header);
    var found := Lookup(header, UInt(15));
    forall v ensures found == Some(v) <==> Entry(UInt(15), v) in header { LookupIff(header, UInt(15), v); }
    var cwt := if found.Some? && found.value.Map? then found.value.entries else [];
    if found.Some? && found.value.Map? {
      assert Entry(UInt(15), Map(cwt)) in header;
      MapEntryDomain(header, Entry(UInt(15), Map(cwt)), level);
      KeysDistinct(cwt, level + 1);
    } else {
      assert DistinctKeys(cwt) by { NoKeys(); }
    }
    ClaimsIn(cwt);
  }

  lemma ClaimsIn(cwt: seq<Entry>)
    requires DistinctKeys(cwt)
    ensures forall n: int :: IatOf(Lookup(cwt, UInt(6))) == Some(n) <==>
              -0x8000_0000_0000_0000 <= n <= 0x7FFF_FFFF_FFFF_FFFF && HasInt(cwt, UInt(6), n)
    ensures forall t :: TextOf(Lookup(cwt, UInt(1))) == Some(t) <==> Entry(UInt(1), Text(t)) in cwt
    ensures forall t :: TextOf(Lookup(cwt, UInt(2))) == Some(t) <==> Entry(UInt(2), Text(t)) in cwt
  {
    hide Lookup, DistinctKeys;
    forall k, v ensures Lookup(cwt, k) == Some(v) <==> Entry(k, v) in cwt { LookupIff(cwt, k, v); }
  }

  lemma {:induction false} UnprocessedAre(header: seq<Entry>)
    ensures forall e :: e in Unprocessed(header) <==> e in header && e.key !in {UInt(1), UInt(2), UInt(395), UInt(15)}
    decreases |header|
  {
    if header != [] {
      UnprocessedAre(header[1..]);
      assert header == [header[0]] + header[1..];
    }
  }
}
