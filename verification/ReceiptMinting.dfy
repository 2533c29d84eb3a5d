/** Minting a receipt for one entry of a list, and that it verifies. */
module ReceiptMinting {
  import opened Octets
  import opened Cbor
  import opened CborSizes
  import opened CoseSign1
  import opened Merkle
  import opened Receipt

  /** The signing key's signature over octets under an algorithm code point. */
  type Signer = (int, Bytes) -> Bytes

  /** Optional header content; text is given as UTF-8 octets. */
  datatype Meta = Meta(iss: Option<Bytes>, sub: Option<Bytes>, kid: Option<Bytes>, iat: Option<int>,
      grade: Option<Bytes>)

  predicate TextOk(t: Option<Bytes>) { t.Some? ==> ValidUtf8(t.value) }

  /** Text is UTF-8, and the issued-at time is an integer the rule admits. */
  predicate MetaOk(meta: Meta) {
    && TextOk(meta.iss) && TextOk(meta.sub) && TextOk(meta.grade)
    && (meta.iat.Some? ==> 0 <= meta.iat.value + TWO63 && meta.iat.value < TWO64)
  }

  predicate KnownAlg(alg: int) { alg == -8 || alg == -7 || alg == -35 }

  function IfText(key: int, t: Option<Bytes>): seq<Entry> {
    if t.Some? then [Entry(Label(key), Text(t.value))] else []
  }

  function ClaimEntries(meta: Meta): seq<Entry> {
    IfText(CWT_CLAIM_ISS, meta.iss) + IfText(CWT_CLAIM_SUB, meta.sub)
    + (if meta.iat.Some? then [Entry(Label(CWT_CLAIM_IAT), Label(meta.iat.value))] else [])
  }

  function CwtEntry(meta: Meta): seq<Entry> {
    if ClaimEntries(meta) == [] then [] else [Entry(Label(HDR_CWT_CLAIMS), Map(ClaimEntries(meta)))]
  }

  function ExtEntries(meta: Meta): seq<Entry> {
    IfText(HDR_GRADE, meta.grade) + (if meta.kid.Some? then [Entry(Label(HDR_KID), ByteString(meta.kid.value))] else [])
  }

  function ProtectedEntries(alg: int, meta: Meta): seq<Entry> {
    [Entry(Label(HDR_VDS), UInt(VDS_RFC9162_SHA256))] + CwtEntry(meta) + ExtEntries(meta)
    + [Entry(Label(HDR_ALG), Label(alg))]
  }

  // ---------------------------------------------------- looking labels up

  lemma {:induction false} LookupConcat(a: seq<Entry>, b: seq<Entry>, key: Value)
    ensures Lookup(a + b, key) == if Lookup(a, key).Some? then Lookup(a, key) else Lookup(b, key)
    decreases |a|
  {
    if a == [] {
      assert a + b == b;
    } else {
      assert (a + b)[1..] == a[1..] + b;
      LookupConcat(a[1..], b, key);
    }
  }

  lemma LookupOne(e: Entry, key: Value)
    ensures Lookup([e], key) == if e.key == key then Some(e.value) else None
    ensures Lookup([], key) == None
  {}

  /** The labels of a minted protected header. */
  lemma ProtectedLookups(alg: int, meta: Meta)
    ensures var p := ProtectedEntries(alg, meta);
      && Lookup(p, Label(HDR_VDS)) == Some(UInt(VDS_RFC9162_SHA256))
      && Lookup(p, Label(HDR_ALG)) == Some(Label(alg))
      && Lookup(p, Label(HDR_CRIT)) == None
      && Lookup(p, Label(HDR_CWT_CLAIMS)) == if ClaimEntries(meta) == [] then None else Some(Map(ClaimEntries(meta)))
  {
    forall key ensures Lookup(ProtectedEntries(alg, meta), key) == PiecewiseLookup(alg, meta, key) {
      PiecewiseIsLookup(alg, meta, key);
    }
    hide Lookup, ClaimEntries;
  }

  function PiecewiseLookup(alg: int, meta: Meta, key: Value): Option<Value> {
    if key == Label(HDR_VDS) then Some(UInt(VDS_RFC9162_SHA256))
    else if key == Label(HDR_CWT_CLAIMS) && ClaimEntries(meta) != [] then Some(Map(ClaimEntries(meta)))
    else if key == Label(HDR_GRADE) && meta.grade.Some? then Some(Text(meta.grade.value))
    else if key == Label(HDR_KID) && meta.kid.Some? then Some(ByteString(meta.kid.value))
    else if key == Label(HDR_ALG) then Some(Label(alg))
    else None
  }

  lemma PiecewiseIsLookup(alg: int, meta: Meta, key: Value)
    ensures Lookup(ProtectedEntries(alg, meta), key) == PiecewiseLookup(alg, meta, key)
  {
    hide Lookup, ClaimEntries;
    var vds, alg' := Entry(Label(HDR_VDS), UInt(VDS_RFC9162_SHA256)), Entry(Label(HDR_ALG), Label(alg));
    var grade := IfText(HDR_GRADE, meta.grade);
    var kid := if meta.kid.Some? then [Entry(Label(HDR_KID), ByteString(meta.kid.value))] else [];
    LookupConcat([vds] + CwtEntry(meta) + ExtEntries(meta), [alg'], key);
    LookupConcat([vds] + CwtEntry(meta), ExtEntries(meta), key);
    LookupConcat([vds], CwtEntry(meta), key);
    LookupConcat(grade, kid, key);
    LookupOne(vds, key);
    LookupOne(alg', key);
    if CwtEntry(meta) != [] { LookupOne(CwtEntry(meta)[0], key); }
    if grade != [] { LookupOne(grade[0], key); }
    if kid != [] { LookupOne(kid[0], key); }
  }

  lemma ClaimLookups(meta: Meta)
    ensures TextOf(Lookup(ClaimEntries(meta), Label(CWT_CLAIM_ISS))) == meta.iss
    ensures TextOf(Lookup(ClaimEntries(meta), Label(CWT_CLAIM_SUB))) == meta.sub
    ensures Lookup(ClaimEntries(meta), Label(CWT_CLAIM_IAT))
         == if meta.iat.Some? then Some(Label(meta.iat.value)) else None
  {
    hide Lookup;
    ClaimLookup(meta, Label(CWT_CLAIM_ISS));
    ClaimLookup(meta, Label(CWT_CLAIM_SUB));
    ClaimLookup(meta, Label(CWT_CLAIM_IAT));
  }

  lemma ClaimLookup(meta: Meta, key: Value)
    ensures Lookup(ClaimEntries(meta), key) ==
      if key == Label(CWT_CLAIM_ISS) && meta.iss.Some? then Some(Text(meta.iss.value))
      else if key == Label(CWT_CLAIM_SUB) && meta.sub.Some? then Some(Text(meta.sub.value))
      else if key == Label(CWT_CLAIM_IAT) && meta.iat.Some? then Some(Label(meta.iat.value))
      else None
  {
    hide Lookup;
    var iss, sub := IfText(CWT_CLAIM_ISS, meta.iss), IfText(CWT_CLAIM_SUB, meta.sub);
    var iat := if meta.iat.Some? then [Entry(Label(CWT_CLAIM_IAT), Label(meta.iat.value))] else [];
    LookupConcat(iss + sub, iat, key);
    LookupConcat(iss, sub, key);
    LookupOne(Entry(key, key), key);
    if iss != [] { LookupOne(iss[0], key); }
    if sub != [] { LookupOne(sub[0], key); }
    if iat != [] { LookupOne(iat[0], key); }
  }

  lemma {:induction false} UnprocessedConcat(a: seq<Entry>, b: seq<Entry>)
    ensures Unprocessed(a + b) == Unprocessed(a) + Unprocessed(b)
    decreases |a|
  {
    if a == [] {
      assert a + b == b;
    } else {
      assert (a + b)[1..] == a[1..] + b;
      UnprocessedConcat(a[1..], b);
    }
  }

  lemma UnprocessedOne(e: Entry)
    ensures Unprocessed([e]) == if e.key in RECEIPT_UNDERSTOOD then [] else [e]
    ensures Unprocessed([]) == []
  {}

  /** What a minted header reports. */
  function MintedClaims(meta: Meta): Claims {
    Claims(if meta.iat.Some? && meta.iat.value < TWO63 then meta.iat else None, meta.iss, meta.sub, ExtEntries(meta))
  }

  lemma MintedClaimsReported(alg: int, meta: Meta)
    requires MetaOk(meta)
    ensures ClaimsOf(ProtectedEntries(alg, meta)) == MintedClaims(meta)
  {
    ProtectedLookups(alg, meta);
    ClaimLookups(meta);
    EmptyClaims(meta);
    MintedExt(alg, meta);
    hide Lookup, ClaimEntries, ProtectedEntries, ExtEntries, Unprocessed;
  }

  lemma EmptyClaims(meta: Meta)
    ensures ClaimEntries(meta) == [] <==> meta.iss.None? && meta.sub.None? && meta.iat.None?
    ensures forall key :: Lookup([], key) == None
  {}

  lemma MintedExt(alg: int, meta: Meta)
    ensures Unprocessed(ProtectedEntries(alg, meta)) == ExtEntries(meta)
  {
    hide Unprocessed, ClaimEntries, RECEIPT_UNDERSTOOD;
    var vds, alg' := Entry(Label(HDR_VDS), UInt(VDS_RFC9162_SHA256)), Entry(Label(HDR_ALG), Label(alg));
    var grade := IfText(HDR_GRADE, meta.grade);
    var kid := if meta.kid.Some? then [Entry(Label(HDR_KID), ByteString(meta.kid.value))] else [];
    UnprocessedConcat([vds] + CwtEntry(meta) + ExtEntries(meta), [alg']);
    UnprocessedConcat([vds] + CwtEntry(meta), ExtEntries(meta));
    UnprocessedConcat([vds], CwtEntry(meta));
    UnprocessedConcat(grade, kid);
    Understood();
    UnprocessedOne(vds);
    UnprocessedOne(alg');
    if CwtEntry(meta) != [] { UnprocessedOne(CwtEntry(meta)[0]); }
    if grade != [] { UnprocessedOne(grade[0]); }
    if kid != [] { UnprocessedOne(kid[0]); }
  }

  lemma Understood()
    ensures Label(HDR_VDS) in RECEIPT_UNDERSTOOD && Label(HDR_ALG) in RECEIPT_UNDERSTOOD
      && Label(HDR_CWT_CLAIMS) in RECEIPT_UNDERSTOOD
    ensures Label(HDR_GRADE) !in RECEIPT_UNDERSTOOD && Label(HDR_KID) !in RECEIPT_UNDERSTOOD
  {}

  // ------------------------------------------------- the minted message

  predicate EntryShaped(e: Entry, depth: nat) {
    KeyKind(e.key) && WellShaped(e.key, depth, false) && WellShaped(e.value, depth, false)
  }

  predicate Shaped(entries: seq<Entry>, depth: nat) {
    DistinctKeys(entries) && forall e | e in entries :: EntryShaped(e, depth)
  }

  lemma ShapedOne(e: Entry, depth: nat)
    ensures Shaped([e], depth) <==> EntryShaped(e, depth)
    ensures Shaped([], depth)
  {
    hide EntryShaped;
    assert e in [e];
  }

  lemma ShapedConcat(a: seq<Entry>, b: seq<Entry>, depth: nat)
    requires Shaped(a, depth) && Shaped(b, depth)
    requires forall x, y | x in a && y in b :: x.key != y.key
    ensures Shaped(a + b, depth)
  {
    hide EntryShaped;
    forall i, j | 0 <= i < j < |a + b| ensures (a + b)[i].key != (a + b)[j].key {
      if j < |a| {
        assert (a + b)[i] == a[i] && (a + b)[j] == a[j];
      } else if i >= |a| {
        assert (a + b)[i] == b[i - |a|] && (a + b)[j] == b[j - |a|];
      } else {
        assert (a + b)[i] in a && (a + b)[j] in b;
      }
    }
  }

  lemma ShapedMap(entries: seq<Entry>, depth: nat)
    requires Shaped(entries, depth + 1) && depth <= MAX_DEPTH
    ensures WellShaped(Map(entries), depth, false)
  {
    hide DistinctKeys;
    assert forall e | e in entries :: EntryShaped(e, depth + 1);
  }

  lemma IntShaped(n: int, depth: nat)
    requires 0 <= n + TWO63 && n < TWO64 && depth <= MAX_DEPTH
    ensures KeyKind(Label(n)) && WellShaped(Label(n), depth, false)
  {}

  lemma IfTextShaped(key: int, t: Option<Bytes>, depth: nat)
    requires TextOk(t) && 0 <= key + TWO63 && key < TWO64 && depth <= MAX_DEPTH
    ensures Shaped(IfText(key, t), depth)
    ensures forall e | e in IfText(key, t) :: e.key == Label(key)
  {
    hide ValidUtf8;
    IntShaped(key, depth);
    if t.Some? { ShapedOne(IfText(key, t)[0], depth); } else { ShapedOne(Entry(Label(key), Label(key)), depth); }
  }

  lemma ClaimsShaped(meta: Meta, depth: nat)
    requires MetaOk(meta) && depth <= MAX_DEPTH
    ensures Shaped(ClaimEntries(meta), depth)
  {
    hide ValidUtf8, Shaped, WellShaped;
    var iss, sub := IfText(CWT_CLAIM_ISS, meta.iss), IfText(CWT_CLAIM_SUB, meta.sub);
    var iat := if meta.iat.Some? then [Entry(Label(CWT_CLAIM_IAT), Label(meta.iat.value))] else [];
    IfTextShaped(CWT_CLAIM_ISS, meta.iss, depth);
    IfTextShaped(CWT_CLAIM_SUB, meta.sub, depth);
    IntShaped(CWT_CLAIM_IAT, depth);
    if meta.iat.Some? { IntShaped(meta.iat.value, depth); }
    ShapedOne(if iat != [] then iat[0] else Entry(Label(1), Label(1)), depth);
    ShapedConcat(iss, sub, depth);
    ShapedConcat(iss + sub, iat, depth);
  }

  lemma ExtShaped(meta: Meta, depth: nat)
    requires MetaOk(meta) && depth <= MAX_DEPTH
    ensures Shaped(ExtEntries(meta), depth)
    ensures forall e | e in ExtEntries(meta) :: e.key == Label(HDR_GRADE) || e.key == Label(HDR_KID)
  {
    hide ValidUtf8, Shaped;
    var grade := IfText(HDR_GRADE, meta.grade);
    var kid := if meta.kid.Some? then [Entry(Label(HDR_KID), ByteString(meta.kid.value))] else [];
    IfTextShaped(HDR_GRADE, meta.grade, depth);
    ShapedOne(if kid != [] then kid[0] else Entry(Label(1), Label(1)), depth);
    ShapedConcat(grade, kid, depth);
  }

  lemma ProtectedShaped(alg: int, meta: Meta)
    requires MetaOk(meta) && KnownAlg(alg)
    ensures WellShaped(Map(ProtectedEntries(alg, meta)), 0, false)
  {
    hide ValidUtf8, Shaped, WellShaped, ClaimEntries, ExtEntries;
    var vds, alg' := Entry(Label(HDR_VDS), UInt(VDS_RFC9162_SHA256)), Entry(Label(HDR_ALG), Label(alg));
    var cwt := CwtEntry(meta);
    ClaimsShaped(meta, 2);
    ShapedMap(ClaimEntries(meta), 1);
    ExtShaped(meta, 1);
    IntShaped(HDR_CWT_CLAIMS, 1);
    IntShaped(HDR_VDS, 1);
    IntShaped(VDS_RFC9162_SHA256, 1);
    IntShaped(HDR_ALG, 1);
    IntShaped(alg, 1);
    ShapedOne(vds, 1);
    ShapedOne(alg', 1);
    if cwt != [] { ShapedOne(cwt[0], 1); }
    ShapedConcat([vds], cwt, 1);
    ShapedConcat([vds] + cwt, ExtEntries(meta), 1);
    ShapedConcat([vds] + cwt + ExtEntries(meta), [alg'], 1);
    ShapedMap(ProtectedEntries(alg, meta), 0);
  }

  function ProtectedOctets(alg: int, meta: Meta): Bytes
    requires MetaOk(meta) && KnownAlg(alg)
  {
    ProtectedShaped(alg, meta);
    WellShapedPrintable(Map(ProtectedEntries(alg, meta)), 0, false);
    Print(Map(ProtectedEntries(alg, meta)))
  }

  function ProofsMap(blob: Bytes): Value {
    Map([Entry(Label(HDR_VDP), Map([Entry(Label(VDP_INCLUSION_PROOFS), Array([ByteString(blob)]))]))])
  }

  function MessageValue(protectedOctets: Bytes, blob: Bytes, signature: Bytes): Value {
    Sign1(Array([ByteString(protectedOctets), ProofsMap(blob), NULL, ByteString(signature)]))
  }

  lemma MessageShaped(protectedOctets: Bytes, blob: Bytes, signature: Bytes)
    ensures WellShaped(MessageValue(protectedOctets, blob, signature), 0, true)
    ensures Printable(MessageValue(protectedOctets, blob, signature))
  {
    hide Shaped;
    var inner := Entry(Label(VDP_INCLUSION_PROOFS), Array([ByteString(blob)]));
    assert WellShaped(ByteString(blob), 5, false);
    assert WellShaped(inner.value, 4, false);
    IntShaped(VDP_INCLUSION_PROOFS, 4);
    IntShaped(HDR_VDP, 3);
    ShapedOne(inner, 4);
    ShapedMap([inner], 3);
    var outer := Entry(Label(HDR_VDP), Map([inner]));
    ShapedOne(outer, 3);
    ShapedMap([outer], 2);
    WellShapedPrintable(MessageValue(protectedOctets, blob, signature), 0, true);
  }

  lemma ProofShaped(c: Candidate)
    requires c.leafIndex < c.treeSize < TWO64
    ensures WellShaped(ProofValue(c), 0, false) && Printable(ProofValue(c))
  {
    assert forall x | x in NodeStrings(c.path) :: x.ByteString?;
    assert WellShaped(Array(NodeStrings(c.path)), 1, false);
    WellShapedPrintable(ProofValue(c), 0, false);
  }

  /** Parts of a message are no longer than the message. */
  lemma MessageParts(protectedOctets: Bytes, blob: Bytes, signature: Bytes)
    ensures Printable(MessageValue(protectedOctets, blob, signature))
    ensures var r := Print(MessageValue(protectedOctets, blob, signature));
      |protectedOctets| < |r| && |blob| < |r|
  {
    hide Head, WellShaped;
    MessageShaped(protectedOctets, blob, signature);
    var items := MessageValue(protectedOctets, blob, signature).content.items;
    PartLength(items, 0);
    PartLength(items, 1);
    var vdp := Entry(Label(VDP_INCLUSION_PROOFS), Array([ByteString(blob)]));
    assert Printable(items[1]) && Printable(Map([vdp]));
    EntryLength(items[1].entries, 0);
    EntryLength([vdp], 0);
    PartLength([ByteString(blob)], 0);
  }

  // ---------------------------------------------------------- the receipt

  function OwnCandidate(h: Hash, entries: seq<Bytes>, index: nat): Candidate
    requires index < |entries|
  {
    Candidate(|entries|, index, Path(h, Leaves(h, entries), index))
  }

  function OwnBlob(h: Hash, entries: seq<Bytes>, index: nat): Bytes
    requires index < |entries| <= MAX_TREE_SIZE
  {
    ProofShaped(OwnCandidate(h, entries, index));
    EncodeInclusionProof(|entries|, index, Path(h, Leaves(h, entries), index))
  }

  /** The octets of a receipt for one entry of a list. */
  function ReceiptOctets(h: Hash, sign: Signer, entries: seq<Bytes>, index: nat, alg: int, meta: Meta): Bytes
    requires index < |entries| <= MAX_TREE_SIZE && MetaOk(meta) && KnownAlg(alg)
  {
    var p := ProtectedOctets(alg, meta);
    var signature := sign(alg, SigStructure(p, MerkleRoot(h, entries)));
    MessageShaped(p, OwnBlob(h, entries, index), signature);
    Print(MessageValue(p, OwnBlob(h, entries, index), signature))
  }

  /** A short minted message decodes to the value it prints. */
  lemma MessageDecodes(p: Bytes, blob: Bytes, signature: Bytes)
    ensures Printable(MessageValue(p, blob, signature))
    ensures |Print(MessageValue(p, blob, signature))| <= MAX_MESSAGE_BYTES ==>
      ReadEnvelope(Print(MessageValue(p, blob, signature)))
      == Some(Envelope(ByteString(p), ProofsMap(blob), NULL, ByteString(signature)))
  {
    hide Print, WellShaped, Decode, InDomain, ProofsMap;
    var v := MessageValue(p, blob, signature);
    MessageShaped(p, blob, signature);
    if |Print(v)| <= MAX_MESSAGE_BYTES {
      ShortInDomain(v, 0, true);
      DecodePrinted(v, true);
    }
  }

  lemma HeaderDecodes(alg: int, meta: Meta)
    requires MetaOk(meta) && KnownAlg(alg) && |ProtectedOctets(alg, meta)| < TWO64
    ensures ProtectedMap(ByteString(ProtectedOctets(alg, meta))) == Some(ProtectedEntries(alg, meta))
  {
    hide Print, WellShaped, Decode, InDomain, ProtectedEntries;
    var v := Map(ProtectedEntries(alg, meta));
    ProtectedShaped(alg, meta);
    WellShapedPrintable(v, 0, false);
    ShortInDomain(v, 0, false);
    DecodePrinted(v, false);
  }

  lemma BlobDecodes(h: Hash, entries: seq<Bytes>, index: nat)
    requires index < |entries| <= MAX_TREE_SIZE && |OwnBlob(h, entries, index)| < TWO64
    ensures ProofOf(OwnBlob(h, entries, index), OwnCandidate(h, entries, index))
  {
    hide Print, WellShaped, Decode, InDomain, ProofValue, Path, PathLen;
    var c := OwnCandidate(h, entries, index);
    ProofShaped(c);
    ShortInDomain(ProofValue(c), 0, false);
    DecodePrinted(ProofValue(c), false);
  }

  lemma ProofItemsOf(blob: Bytes)
    ensures ProofItems(ProofsMap(blob)) == Some(NodeStrings([blob]))
  {
    assert NodeStrings([blob]) == [ByteString(blob)];
  }

  lemma MintedShape(h: Hash, sign: Signer, entries: seq<Bytes>, index: nat, alg: int, meta: Meta) returns (s: Shape)
    requires index < |entries| <= MAX_TREE_SIZE && MetaOk(meta) && KnownAlg(alg)
    requires |ReceiptOctets(h, sign, entries, index, alg, meta)| <= MAX_MESSAGE_BYTES
    ensures HasShape(ReceiptOctets(h, sign, entries, index, alg, meta), s)
    ensures s.env.protectedHeader == ByteString(ProtectedOctets(alg, meta))
    ensures s.env.signature == ByteString(sign(alg, SigStructure(ProtectedOctets(alg, meta), MerkleRoot(h, entries))))
    ensures s.protectedMap == ProtectedEntries(alg, meta)
    ensures s.proofs == [OwnBlob(h, entries, index)]
    ensures ProofOf(OwnBlob(h, entries, index), OwnCandidate(h, entries, index))
  {
    hide Print, ReadEnvelope, ProtectedMap, ProofItems, Lookup, Decode, SigStructure, MerkleRoot, ProtectedOctets,
      OwnBlob, ProtectedEntries, MessageValue, ProofsMap, OwnCandidate, ProofValue;
    var p, blob := ProtectedOctets(alg, meta), OwnBlob(h, entries, index);
    var signature := sign(alg, SigStructure(p, MerkleRoot(h, entries)));
    MessageParts(p, blob, signature);
    MessageDecodes(p, blob, signature);
    HeaderDecodes(alg, meta);
    BlobDecodes(h, entries, index);
    ProofItemsOf(blob);
    ProtectedLookups(alg, meta);
    s := Shape(Envelope(ByteString(p), ProofsMap(blob), NULL, ByteString(signature)), ProtectedEntries(alg, meta),
      [blob]);
  }

  /** Minted receipts verify for their own entry, with their own root, size, index and
      claims, exactly when they are within the message size limit. */
  lemma MintedVerifies(h: Hash, sign: Signer, check: SignatureCheck, ccf: CcfRoot,
      entries: seq<Bytes>, index: nat, alg: int, meta: Meta)
    requires index < |entries| <= MAX_TREE_SIZE && MetaOk(meta) && KnownAlg(alg)
    requires var tbs := SigStructure(ProtectedOctets(alg, meta), MerkleRoot(h, entries));
      check(alg, tbs, sign(alg, tbs))
    ensures var r := ReceiptOctets(h, sign, entries, index, alg, meta);
      Decide(h, check, ccf, r, entries[index])
      == if |r| <= MAX_MESSAGE_BYTES
         then Outcome(true, Some(MerkleRoot(h, entries)), Some(|entries|), Some(index), MintedClaims(meta), None)
         else MALFORMED
  {
    hide Print, ReadEnvelope, ProtectedMap, ProofItems, Lookup, Decode, SigStructure, MerkleRoot, ProtectedOctets,
      OwnBlob,
      ProtectedEntries, ReceiptOctets, ClaimsOf, ProofValue, Path, FoldPath, PathLen, MintedClaims, FirstSigned,
        ProofOf;
    var r := ReceiptOctets(h, sign, entries, index, alg, meta);
    if |r| <= MAX_MESSAGE_BYTES {
      var s := MintedShape(h, sign, entries, index, alg, meta);
      var c := OwnCandidate(h, entries, index);
      hide HasShape;
      ShapeIs(r, s);
      DecodeProofIs(OwnBlob(h, entries, index), c);
      InclusionComplete(h, entries, index);
      ProtectedLookups(alg, meta);
      MintedClaimsReported(alg, meta);
      assert Candidates(s.proofs).value[0] == c;
      SignedFirst(h, check, s, entries[index], Candidates(s.proofs).value);
    } else {
      TooLong(r);
    }
  }

  lemma SignedFirst(h: Hash, check: SignatureCheck, s: Shape, leaf: Bytes, cs: seq<Candidate>)
    requires s.env.protectedHeader.ByteString? && forall c | c in cs :: c.Fits()
    requires cs != [] && Signs(h, check, s, leaf, cs[0])
    ensures FirstSigned(h, check, s, leaf, cs) == 0
  {}

  lemma TooLong(r: Bytes)
    requires |r| > MAX_MESSAGE_BYTES
    ensures ShapeOf(r) == None
  {}

  /** Mint a receipt: refuse an index out of range, an entry that is not the one at
      the index, or an attached payload. */
  method BuildReceipt(h: Hash, sign: Signer, leafEntry: Bytes, leafIndex: int, treeEntries: seq<Bytes>, alg: int,
      meta: Meta, detached: bool) returns (r: Option<Bytes>)
    requires |treeEntries| <= MAX_TREE_SIZE && MetaOk(meta)
    ensures r.Some? <==>
      && 0 <= leafIndex < |treeEntries| && treeEntries[leafIndex] == leafEntry
      && detached && (alg == -8 || alg == -7 || alg == -35)
    ensures r.Some? ==> r.value == ReceiptOctets(h, sign, treeEntries, leafIndex, alg, meta)
  {
    hide Print, SigStructure, MerkleRoot, Path, PathLen, WellShaped, Printable;
    if !(0 <= leafIndex < |treeEntries|) { return None; }
    if treeEntries[leafIndex] != leafEntry { return None; }
    if !detached { return None; }
    if !KnownAlg(alg) { return None; }
    var root := MerkleRoot(h, treeEntries);
    var auditPath := Path(h, Leaves(h, treeEntries), leafIndex);
    ProofShaped(OwnCandidate(h, treeEntries, leafIndex));
    var blob := EncodeInclusionProof(|treeEntries|, leafIndex, auditPath);
    var protectedMap := [Entry(Label(HDR_VDS), UInt(VDS_RFC9162_SHA256))];
    var claims := [];
    if meta.iss.Some? { claims := claims + [Entry(Label(CWT_CLAIM_ISS), Text(meta.iss.value))]; }
    if meta.sub.Some? { claims := claims + [Entry(Label(CWT_CLAIM_SUB), Text(meta.sub.value))]; }
    if meta.iat.Some? { claims := claims + [Entry(Label(CWT_CLAIM_IAT), Label(meta.iat.value))]; }
    assert claims == ClaimEntries(meta);
    if claims != [] { protectedMap := protectedMap + [Entry(Label(HDR_CWT_CLAIMS), Map(claims))]; }
    ghost var soFar := protectedMap;
    assert soFar == [Entry(Label(HDR_VDS), UInt(VDS_RFC9162_SHA256))] + CwtEntry(meta);
    hide ClaimEntries;
    if meta.grade.Some? { protectedMap := protectedMap + [Entry(Label(HDR_GRADE), Text(meta.grade.value))]; }
    if meta.kid.Some? { protectedMap := protectedMap + [Entry(Label(HDR_KID), ByteString(meta.kid.value))]; }
    assert protectedMap == soFar + ExtEntries(meta);
    protectedMap := protectedMap + [Entry(Label(HDR_ALG), Label(alg))];
    assert protectedMap == ProtectedEntries(alg, meta);
    ProtectedShaped(alg, meta);
    WellShapedPrintable(Map(protectedMap), 0, false);
    var protectedOctets := Print(Map(protectedMap));
    var signature := sign(alg, SigStructure(protectedOctets, root));
    MessageShaped(protectedOctets, blob, signature);
    return Some(Print(MessageValue(protectedOctets, blob, signature)));
  }
}
