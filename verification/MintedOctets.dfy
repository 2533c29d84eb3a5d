/** Minted receipts written out in octets. */
module MintedOctets {
  import opened Octets
  import opened Cbor
  import opened CborDomain
  import opened CoseSign1
  import opened Receipt
  import opened ReceiptMinting
  import opened Sign1Laws

  // ------------------------------------------------------------ the message

  lemma OneEntry(key: Value, v: Value)
    requires Printable(key) && Printable(v)
    ensures Printable(Map([Entry(key, v)])) && Print(Map([Entry(key, v)])) == [0xA1] + Print(key) + Print(v)
  {
    HeadInOctets(5, 1);
    OneEntryPrinted(Entry(key, v));
    Associative([0xA1], Print(key), Print(v));
    hide Print, Head, PrintEntries;
    MapPrinted([Entry(key, v)]);
  }

  lemma OneEntryPrinted(e: Entry)
    requires Printable(e.key) && Printable(e.value)
    ensures PrintEntries([e]) == Print(e.key) + Print(e.value)
  {
    hide Print, Printable;
    assert [e][1..] == [] && PrintEntries([]) == [];
    assert PrintEntries([e]) == PrintEntry(e) + [];
  }

  lemma MapPrinted(entries: seq<Entry>)
    requires forall e | e in entries :: Printable(e.key) && Printable(e.value)
    ensures Printable(Map(entries)) && Print(Map(entries)) == Head(5, |entries|) + PrintEntries(entries)
  {
    hide Head, PrintEntries;
  }

  lemma LabelsPrinted()
    ensures Print(UInt(395)) == [0x19, 0x01, 0x8B] && Print(UInt(396)) == [0x19, 0x01, 0x8C]
    ensures Print(NInt(0)) == [0x20] && Print(Simple(22)) == [0xF6]
  {
    hide BigEndian;
    HeadInOctets(0, 395);
    HeadInOctets(0, 396);
    HeadInOctets(1, 0);
  }

  lemma OneItem(v: Value)
    requires Printable(v)
    ensures Printable(Array([v])) && Print(Array([v])) == [0x81] + Print(v)
  {
    HeadInOctets(4, 1);
    PrintTwo(v, v);
    hide Print, Head, PrintItems;
    ArrayPrinted([v]);
  }

  /** The unprotected header: {396: {-1: [blob]}}. */
  lemma ProofsMapInOctets(blob: Bytes)
    ensures Printable(ProofsMap(blob))
    ensures Print(ProofsMap(blob)) == [0xA1, 0x19, 0x01, 0x8C, 0xA1, 0x20, 0x81] + Print(ByteString(blob))
  {
    hide Print, Head;
    var list := Array([ByteString(blob)]);
    LabelsPrinted();
    OneItem(ByteString(blob));
    OneEntry(NInt(0), list);
    OneEntry(UInt(396), Map([Entry(NInt(0), list)]));
    var b := Print(ByteString(blob));
    Associative([0xA1] + [0x20], [0x81], b);
    assert [0xA1] + [0x20] + [0x81] == [0xA1, 0x20, 0x81];
    Associative([0xA1] + [0x19, 0x01, 0x8C], [0xA1, 0x20, 0x81], b);
    assert [0xA1] + [0x19, 0x01, 0x8C] + [0xA1, 0x20, 0x81] == [0xA1, 0x19, 0x01, 0x8C, 0xA1, 0x20, 0x81];
  }

  /** A minted message: tag 18, four elements, the payload null. */
  lemma MessageInOctets(p: Bytes, blob: Bytes, signature: Bytes)
    ensures Printable(MessageValue(p, blob, signature))
    ensures Print(MessageValue(p, blob, signature))
         == [0xD2] + ([0x84] + (Head(2, |p|) + p)
                      + ([0xA1, 0x19, 0x01, 0x8C, 0xA1, 0x20, 0x81] + (Head(2, |blob|) + blob))
                      + [0xF6] + (Head(2, |signature|) + signature))
  {
    hide Head;
    HeadInOctets(6, 18);
    LabelsPrinted();
    PartsPrinted(p);
    PartsPrinted(blob);
    PartsPrinted(signature);
    ProofsMapInOctets(blob);
    FourPrinted(ByteString(p), ProofsMap(blob), NULL, ByteString(signature));
    var content := Array([ByteString(p), ProofsMap(blob), NULL, ByteString(signature)]);
    assert MessageValue(p, blob, signature) == Sign1(content);
    hide ProofsMap, NULL, PrintItems;
    assert Print(Sign1(content)) == Head(6, 18) + Print(content);
  }

  // ----------------------------------------------------- the protected header

  /** The shortest header: {395: 1, 1: -8}. */
  lemma ShortHeaderInOctets()
    ensures MetaOk(Meta(None, None, None, None, None)) && KnownAlg(-8)
    ensures ProtectedOctets(-8, Meta(None, None, None, None, None)) == [0xA2, 0x19, 0x01, 0x8B, 0x01, 0x01, 0x27]
  {
    hide BigEndian, Head;
    var d, e := Entry(UInt(395), UInt(1)), Entry(UInt(1), NInt(7));
    assert ProtectedEntries(-8, Meta(None, None, None, None, None)) == [d, e];
    HeadInOctets(5, 2);
    SmallPrinted(1);
    SmallPrinted(7);
    LabelsPrinted();
    PrintEntryPair(d, e);
    MapPrinted([d, e]);
  }

  lemma SmallPrinted(n: nat)
    requires n <= 23
    ensures Print(UInt(n)) == [n] && Print(NInt(n)) == [0x20 + n]
  {
    HeadInOctets(0, n);
    HeadInOctets(1, n);
  }

  lemma NextEntry(e: Entry, rest: seq<Entry>)
    requires Printable(e.key) && Printable(e.value)
    requires forall x | x in rest :: Printable(x.key) && Printable(x.value)
    ensures PrintEntries([e] + rest) == Print(e.key) + Print(e.value) + PrintEntries(rest)
  {
    hide Print, Printable;
    assert ([e] + rest)[1..] == rest;
  }

  lemma LetterPrinted(c: Byte)
    ensures Print(Text([c])) == [0x61, c] && Print(ByteString([c])) == [0x41, c]
  {
    HeadInOctets(2, 1);
    HeadInOctets(3, 1);
  }

  lemma GradeLabelPrinted()
    ensures Print(Label(HDR_GRADE)) == [0x3A, 0x00, 0x01, 0x00, 0x00]
  {
    hide BigEndian;
    HeadInOctets(1, 65536);
    BigEndianStep(65536, 3);
    BigEndianStep(256, 2);
    BigEndianStep(1, 1);
    BigEndianStep(0, 0);
    assert BigEndian(65536, 4) == [0x00, 0x01, 0x00, 0x00] by { assert |BigEndian(0, 0)| == 0; }
    assert Print(NInt(65536)) == [0x3A] + BigEndian(65536, 4);
  }

  /** The claims {1: "i", 2: "s", 6: 9}. */
  lemma ClaimsInOctets(meta: Meta)
    requires meta.iss == Some([0x69]) && meta.sub == Some([0x73]) && meta.iat == Some(9)
    ensures Printable(Map(ClaimEntries(meta)))
    ensures Print(Map(ClaimEntries(meta))) == [0xA3, 0x01, 0x61, 0x69, 0x02, 0x61, 0x73, 0x06, 0x09]
  {
    hide Head;
    var a, b, c := Entry(UInt(1), Text([0x69])), Entry(UInt(2), Text([0x73])), Entry(UInt(6), UInt(9));
    assert ClaimEntries(meta) == [a, b, c];
    HeadInOctets(5, 3);
    SmallPrinted(1);
    SmallPrinted(2);
    SmallPrinted(6);
    SmallPrinted(9);
    LetterPrinted(0x69);
    LetterPrinted(0x73);
    hide Print, ClaimEntries, PrintEntries;
    PrintEntryPair(b, c);
    NextEntry(a, [b, c]);
    assert [a] + [b, c] == [a, b, c];
    MapPrinted([a, b, c]);
  }

  const FULL_META: Meta := Meta(Some([0x69]), Some([0x73]), Some([0x6B]), Some(9), Some([0x67]))

  lemma FullEntries(a: Entry, b: Entry, c: Entry, d: Entry, e: Entry)
    requires a == Entry(UInt(395), UInt(1)) && b == Entry(UInt(15), Map(ClaimEntries(FULL_META)))
    requires c == Entry(Label(HDR_GRADE), Text([0x67])) && d == Entry(UInt(4), ByteString([0x6B]))
    requires e == Entry(UInt(1), NInt(6))
    ensures MetaOk(FULL_META) && ProtectedEntries(-7, FULL_META) == [a, b, c, d, e]
  {
    LetterValid(0x69);
    LetterValid(0x73);
    LetterValid(0x67);
    hide ValidUtf8;
  }

  ghost predicate PairPrints(e: Entry, octets: Bytes) {
    Printable(e.key) && Printable(e.value) && Print(e.key) + Print(e.value) == octets
  }

  /** The entries 395: 1, 4: h'6B', 1: -7. */
  lemma SmallEntries()
    ensures PairPrints(Entry(UInt(395), UInt(1)), [0x19, 0x01, 0x8B, 0x01])
    ensures PairPrints(Entry(UInt(4), ByteString([0x6B])), [0x04, 0x41, 0x6B])
    ensures PairPrints(Entry(UInt(1), NInt(6)), [0x01, 0x26])
  {
    SmallPrinted(1);
    SmallPrinted(4);
    SmallPrinted(6);
    LabelsPrinted();
    LetterPrinted(0x6B);
    hide Print;
  }

  /** The entry -65537: "g". */
  lemma GradeEntry(e: Entry)
    requires e == Entry(Label(HDR_GRADE), Text([0x67]))
    ensures PairPrints(e, [0x3A, 0x00, 0x01, 0x00, 0x00, 0x61, 0x67])
  {
    GradeLabelPrinted();
    LetterPrinted(0x67);
    hide Print;
  }

  /** The entry 15: {1: "i", 2: "s", 6: 9}. */
  lemma ClaimsEntry(e: Entry)
    requires e == Entry(UInt(15), Map(ClaimEntries(FULL_META)))
    ensures PairPrints(e, [0x0F, 0xA3, 0x01, 0x61, 0x69, 0x02, 0x61, 0x73, 0x06, 0x09])
  {
    ClaimsInOctets(FULL_META);
    SmallPrinted(15);
    hide Print, ClaimEntries;
  }

  /** The fullest header: {395: 1, 15: {1: "i", 2: "s", 6: 9}, -65537: "g", 4: h'6B', 1: -7}. */
  lemma FullHeaderInOctets()
    ensures MetaOk(FULL_META) && KnownAlg(-7)
    ensures ProtectedOctets(-7, FULL_META)
         == [0xA5] + ([0x19, 0x01, 0x8B, 0x01]
            + ([0x0F, 0xA3, 0x01, 0x61, 0x69, 0x02, 0x61, 0x73, 0x06, 0x09]
            + ([0x3A, 0x00, 0x01, 0x00, 0x00, 0x61, 0x67] + ([0x04, 0x41, 0x6B] + [0x01, 0x26]))))
  {
    hide Print, Head, PrintEntries, ClaimEntries, ProtectedEntries, MetaOk, PairPrints;
    var a, b := Entry(UInt(395), UInt(1)), Entry(UInt(15), Map(ClaimEntries(FULL_META)));
    var c, d, e := Entry(Label(HDR_GRADE), Text([0x67])), Entry(UInt(4), ByteString([0x6B])), Entry(UInt(1), NInt(6));
    FullEntries(a, b, c, d, e);
    SmallEntries();
    ClaimsEntry(b);
    GradeEntry(c);
    FiveEntryMap(a, b, c, d, e, [0x19, 0x01, 0x8B, 0x01],
                 [0x0F, 0xA3, 0x01, 0x61, 0x69, 0x02, 0x61, 0x73, 0x06, 0x09],
                 [0x3A, 0x00, 0x01, 0x00, 0x00, 0x61, 0x67], [0x04, 0x41, 0x6B], [0x01, 0x26]);
  }

  lemma FiveEntryMap(a: Entry, b: Entry, c: Entry, d: Entry, e: Entry,
                     p: Bytes, q: Bytes, r: Bytes, s: Bytes, t: Bytes)
    requires PairPrints(a, p) && PairPrints(b, q) && PairPrints(c, r) && PairPrints(d, s) && PairPrints(e, t)
    ensures Printable(Map([a, b, c, d, e])) && Print(Map([a, b, c, d, e])) == [0xA5] + (p + (q + (r + (s + t))))
  {
    HeadInOctets(5, 5);
    hide Print, Head, Printable, PrintEntries;
    FiveEntries(a, b, c, d, e);
    MapPrinted([a, b, c, d, e]);
  }

  lemma LetterValid(c: Byte)
    requires c < 0x80
    ensures ValidUtf8([c])
  {
    assert [c][1..] == [];
  }

  lemma FiveEntries(a: Entry, b: Entry, c: Entry, d: Entry, e: Entry)
    requires forall x | x in [a, b, c, d, e] :: Printable(x.key) && Printable(x.value)
    ensures PrintEntries([a, b, c, d, e])
         == Print(a.key) + Print(a.value) + (Print(b.key) + Print(b.value)
            + (Print(c.key) + Print(c.value) + (Print(d.key) + Print(d.value) + (Print(e.key) + Print(e.value)))))
  {
    hide Print, Printable, PrintEntries;
    PrintEntryPair(d, e);
    NextEntry(c, [d, e]);
    NextEntry(b, [c, d, e]);
    NextEntry(a, [b, c, d, e]);
    assert [c] + [d, e] == [c, d, e] && [b] + [c, d, e] == [b, c, d, e] && [a] + [b, c, d, e] == [a, b, c, d, e];
  }

  /** The proof of the only entry of a list: [1, 0, []]. */
  lemma SmallestBlobInOctets()
    ensures EncodeInclusionProof(1, 0, []) == [0x83, 0x01, 0x00, 0x80]
  {
    hide Head;
    HeadInOctets(4, 3);
    HeadInOctets(4, 0);
    SmallPrinted(1);
    SmallPrinted(0);
    var x, y, z := UInt(1), UInt(0), Array([]);
    assert ProofValue(Candidate(1, 0, [])) == Array([x, y, z]);
    assert Print(z) == [0x80] by { assert PrintItems([]) == []; }
    hide Print, PrintItems;
    PrintTwo(y, z);
    PrintItemsCons(x, [y, z]);
    assert [x] + [y, z] == [x, y, z];
    ArrayPrinted([x, y, z]);
  }
}
