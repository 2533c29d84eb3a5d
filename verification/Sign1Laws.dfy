/** When a COSE_Sign1 message verifies, by what stands in it: labels, kinds and octets
    written out, with no function of the verifier in between. */
module Sign1Laws {
  import opened Octets
  import opened Cbor
  import opened CborRoundTrip
  import opened CoseSign1
  import CborDomain

  /** The octets of a protected header print this map; no octets stand for no entries. */
  ghost predicate HeaderPrints(octets: Bytes, entries: seq<Entry>) {
    if octets == [] then entries == [] else IsPrintingOf(octets, Map(entries), false)
  }

  /** The map has this integer under this label. */
  predicate HasInt(entries: seq<Entry>, key: Value, n: int) {
    Entry(key, if n >= 0 then UInt(n) else NInt(-1 - n)) in entries
  }

  /** Section 3.1 of RFC 9052: whatever is under label 2 is a nonempty array of integer or
      text labels, each of them in the map and in `understood`. */
  ghost predicate CritLaw(entries: seq<Entry>, understood: set<Value>) {
    forall crit | Entry(UInt(2), crit) in entries ::
      && crit.Array? && crit.items != []
      && forall name | name in crit.items ::
           && (name.UInt? || name.NInt? || name.Text?)
           && (exists e | e in entries :: e.key == name)
           && name in understood
  }

  lemma LookupIff(entries: seq<Entry>, key: Value, v: Value)
    requires DistinctKeys(entries)
    ensures Lookup(entries, key) == Some(v) <==> Entry(key, v) in entries
  {
    hide Lookup, DistinctKeys;
    if Lookup(entries, key) == Some(v) { var i := FoundAt(entries, key); }
    if Entry(key, v) in entries {
      var i :| 0 <= i < |entries| && entries[i] == Entry(key, v);
      LookupAt(entries, i);
    }
  }

  lemma HasKeyIff(entries: seq<Entry>, key: Value)
    requires DistinctKeys(entries)
    ensures HasKey(entries, key) <==> exists e | e in entries :: e.key == key
  {
    hide Lookup, DistinctKeys;
    if HasKey(entries, key) {
      var i := FoundAt(entries, key);
      assert entries[i] in entries;
    }
    forall e | e in entries && e.key == key ensures HasKey(entries, key) {
      assert e == Entry(key, e.value);
      LookupIff(entries, key, e.value);
    }
  }

  lemma CritIsLaw(entries: seq<Entry>, understood: set<Value>)
    requires DistinctKeys(entries)
    ensures CritOk(entries, understood) <==> CritLaw(entries, understood)
  {
    hide Lookup, DistinctKeys, HasKey;
    forall crit ensures Lookup(entries, Label(HDR_CRIT)) == Some(crit) <==> Entry(UInt(2), crit) in entries {
      LookupIff(entries, UInt(2), crit);
    }
    forall name ensures HasKey(entries, name) <==> exists e | e in entries :: e.key == name {
      HasKeyIff(entries, name);
    }
    if Lookup(entries, Label(HDR_CRIT)).Some? {
      assert Entry(UInt(2), Lookup(entries, Label(HDR_CRIT)).value) in entries;
    }
  }

  lemma HeaderIsPrinted(header: Value, entries: seq<Entry>)
    ensures ProtectedMap(header) == Some(entries) <==> header.ByteString? && HeaderPrints(header.bytes, entries)
    ensures ProtectedMap(header) == Some(entries) ==> DistinctKeys(entries)
  {
    hide Decode, InDomain, Printable, Print, DistinctKeys;
    if ProtectedMap(header) == Some(entries) {
      if header.bytes != [] {
        DecodedPrints(header.bytes, false);
        KeysDistinct(entries, 0);
      } else {
        assert DistinctKeys([]) by { NoKeys(); }
      }
    }
    if header.ByteString? && header.bytes != [] && HeaderPrints(header.bytes, entries) {
      DecodePrinted(Map(entries), false);
    }
  }

  lemma NoKeys()
    ensures DistinctKeys([])
  {}

  /** The signature element verifies over this payload under the header's algorithm. */
  ghost predicate SignedOver(check: SignatureCheck, headerOctets: Bytes, entries: seq<Entry>, signature: Value,
      payload: Bytes)
  {
    signature.ByteString?
    && exists alg: int :: HasInt(entries, UInt(1), alg)
         && CheckedAs(check, alg, SigStructure(headerOctets, payload), signature.bytes)
  }

  predicate CheckedAs(check: SignatureCheck, alg: int, tbs: Bytes, signature: Bytes) { check(alg, tbs, signature) }

  lemma HoldsIsSigned(check: SignatureCheck, env: Envelope, entries: seq<Entry>, payload: Bytes)
    requires env.protectedHeader.ByteString? && DistinctKeys(entries)
    ensures SignatureHolds(check, env, entries, payload)
       <==> SignedOver(check, env.protectedHeader.bytes, entries, env.signature, payload)
  {
    hide Lookup, DistinctKeys, SigStructure;
    forall alg: int ensures AlgOf(entries) == Some(alg) <==> HasInt(entries, UInt(1), alg) {
      LookupIff(entries, UInt(1), if alg >= 0 then UInt(alg) else NInt(-1 - alg));
    }
    if SignatureHolds(check, env, entries, payload) {
      var alg := AlgOf(entries).value;
      assert HasInt(entries, UInt(1), alg);
      assert CheckedAs(check, alg, SigStructure(env.protectedHeader.bytes, payload), env.signature.bytes);
    }
  }

  function Sign1Value(header: Value, unprotected: Value, payload: Value, signature: Value): Value {
    Sign1(Array([header, unprotected, payload, signature]))
  }

  /** What verification of a message with these four elements demands. */
  ghost predicate Verifiable(check: SignatureCheck, header: Value, unprotected: Value, payload: Value, signature: Value,
      detached: Option<Bytes>, understood: set<Value>, entries: seq<Entry>, signed: Bytes)
  {
    && header.ByteString? && HeaderPrints(header.bytes, entries)
    && (unprotected.Map? || unprotected == Simple(22))
    && (if payload == Simple(22) then detached == Some(signed) else payload == ByteString(signed))
    && CritLaw(entries, understood)
    && SignedOver(check, header.bytes, entries, signature, signed)
  }

  lemma EnvelopeOf(msg: Bytes, header: Value, unprotected: Value, payload: Value, signature: Value)
    requires IsPrintingOf(msg, Sign1Value(header, unprotected, payload, signature), true)
    ensures ReadEnvelope(msg)
         == if |msg| <= 10 * 1024 * 1024 then Some(Envelope(header, unprotected, payload, signature)) else None
  {
    hide InDomain, Printable, Print, Decode;
    DecodePrinted(Sign1Value(header, unprotected, payload, signature), true);
  }

  /** A message of at most 10 MiB verifies if and only if its elements are verifiable; one
      that is longer, or is no four-element message of the rule, never does. */
  lemma VerifiesExactly(check: SignatureCheck, msg: Bytes, detached: Option<Bytes>, understood: set<Value>)
    ensures Sign1Verifies(check, msg, detached, understood) <==>
      |msg| <= 10 * 1024 * 1024
      && exists header, unprotected, payload, signature, entries, signed ::
           && IsPrintingOf(msg, Sign1Value(header, unprotected, payload, signature), true)
           && Verifiable(check, header, unprotected, payload, signature, detached, understood, entries, signed)
  {
    hide InDomain, Printable, Print, Decode, CritOk, CritLaw, SignatureHolds, SignedOver, ProtectedMap, HeaderPrints,
      DistinctKeys, ReadEnvelope, IsPrintingOf;
    if Sign1Verifies(check, msg, detached, understood) {
      var env := ReadEnvelope(msg).value;
      var entries, signed := ProtectedMap(env.protectedHeader).value, PayloadOf(env, detached).value;
      ReadPrints(msg, env);
      HeaderIsPrinted(env.protectedHeader, entries);
      CritIsLaw(entries, understood);
      HoldsIsSigned(check, env, entries, signed);
      assert Verifiable(check, env.protectedHeader, env.unprotected, env.payload, env.signature, detached, understood,
                        entries, signed);
    }
    forall header, unprotected, payload, signature, entries, signed
      | IsPrintingOf(msg, Sign1Value(header, unprotected, payload, signature), true) && |msg| <= 10 * 1024 * 1024
        && Verifiable(check, header, unprotected, payload, signature, detached, understood, entries, signed)
      ensures Sign1Verifies(check, msg, detached, understood)
    {
      EnvelopeOf(msg, header, unprotected, payload, signature);
      HeaderIsPrinted(header, entries);
      CritIsLaw(entries, understood);
      HoldsIsSigned(check, Envelope(header, unprotected, payload, signature), entries, signed);
    }
  }

  lemma ReadPrints(msg: Bytes, env: Envelope)
    requires ReadEnvelope(msg) == Some(env)
    ensures |msg| <= 10 * 1024 * 1024
    ensures IsPrintingOf(msg, Sign1Value(env.protectedHeader, env.unprotected, env.payload, env.signature), true)
  {
    hide InDomain, Printable, Print, Decode;
    EnvelopeValue(msg, env);
    DecodedPrints(msg, true);
  }

  // ------------------------------------------------------------ in plain octets

  lemma PartsPrinted(p: Bytes)
    ensures Print(ByteString(p)) == Head(2, |p|) + p && Print(ByteString([])) == [0x40]
    ensures Print(Text(SIGNATURE1)) == [0x6A] + SIGNATURE1
  {
    hide Head;
    CborDomain.HeadInOctets(2, 0);
    CborDomain.HeadInOctets(3, 10);
    assert [0x40] + [] == [0x40];
  }

  lemma FourItems(a: Value, b: Value, c: Value, d: Value)
    requires Printable(a) && Printable(b) && Printable(c) && Printable(d)
    ensures PrintItems([a, b, c, d]) == Print(a) + (Print(b) + (Print(c) + Print(d)))
  {
    hide Print, Printable, PrintItems;
    CborDomain.PrintTwo(c, d);
    PrintItemsCons(b, [c, d]);
    PrintItemsCons(a, [b, c, d]);
    assert [b] + [c, d] == [b, c, d] && [a] + [b, c, d] == [a, b, c, d];
  }

  lemma JoinFive(k: Bytes, a: Bytes, b: Bytes, c: Bytes, d: Bytes)
    ensures k + (a + (b + (c + d))) == k + a + b + c + d
  {
    Associative(k, a, b + (c + d));
    Associative(k + a, b, c + d);
    Associative(k + a + b, c, d);
  }

  lemma FourPrinted(a: Value, b: Value, c: Value, d: Value)
    requires Printable(a) && Printable(b) && Printable(c) && Printable(d)
    ensures Printable(Array([a, b, c, d]))
    ensures Print(Array([a, b, c, d])) == [0x84] + Print(a) + Print(b) + Print(c) + Print(d)
  {
    FourItems(a, b, c, d);
    JoinFive([0x84], Print(a), Print(b), Print(c), Print(d));
    CborDomain.HeadInOctets(4, 4);
    hide Head, PrintItems;
    ArrayPrinted([a, b, c, d]);
  }

  lemma ArrayPrinted(items: seq<Value>)
    requires forall x | x in items :: Printable(x)
    ensures Printable(Array(items)) && Print(Array(items)) == Head(4, |items|) + PrintItems(items)
  {
    hide Head, PrintItems;
  }

  lemma JoinSix(front: Bytes, h: Bytes, p: Bytes, m: Bytes, h': Bytes, q: Bytes)
    ensures front + (h + p) + m + (h' + q) == front + h + p + m + h' + q
  {
    Associative(front, h, p);
    Associative(front + h + p + m, h', q);
  }

  lemma SigStructureFrom(front: Bytes, p: Bytes, payload: Bytes)
    requires front == [0x84] + ([0x6A] + SIGNATURE1)
    ensures SigStructure(p, payload) == front + Head(2, |p|) + p + [0x40] + Head(2, |payload|) + payload
  {
    hide Head, Print, SIGNATURE1;
    PartsPrinted(p);
    PartsPrinted(payload);
    FourPrinted(Text(SIGNATURE1), ByteString(p), ByteString([]), ByteString(payload));
    JoinSix(front, Head(2, |p|), p, [0x40], Head(2, |payload|), payload);
  }

  /** The signed octets: an array of four, the text Signature1, the protected header, an
      empty byte string and the payload. */
  lemma SigStructureInOctets(p: Bytes, payload: Bytes)
    ensures SigStructure(p, payload)
         == [0x84, 0x6A, 0x53, 0x69, 0x67, 0x6E, 0x61, 0x74, 0x75, 0x72, 0x65, 0x31]
            + Head(2, |p|) + p + [0x40] + Head(2, |payload|) + payload
    ensures |payload| == 32 ==> Head(2, |payload|) == [0x58, 0x20]
  {
    hide Head, SigStructure;
    CborDomain.HeadInOctets(2, 32);
    SigStructureFrom([0x84, 0x6A, 0x53, 0x69, 0x67, 0x6E, 0x61, 0x74, 0x75, 0x72, 0x65, 0x31], p, payload);
  }
}
