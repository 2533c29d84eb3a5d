/** COSE_Sign1 messages: reading the four elements, critical headers, the structure
    that is signed, and the verification order over an abstract signature check. */
module CoseSign1 {
  import opened Octets
  import opened Cbor
  import opened CborRoundTrip

  const MAX_MESSAGE_BYTES: nat := 10 * 1024 * 1024

  /** Whether a signature over octets verifies, given the algorithm code point, under
      one fixed key: unsupported algorithms and mismatched keys are false. */
  type SignatureCheck = (int, Bytes, Bytes) -> bool

  /** An integer header label. */
  function Label(n: int): Value { if n >= 0 then UInt(n) else NInt(-1 - n) }

  function IntOf(v: Value): int
    requires v.UInt? || v.NInt?
  {
    if v.UInt? then v.n else -1 - v.n
  }

  predicate IsInt(v: Value) { v.UInt? || v.NInt? }

  const HDR_ALG := 1
  const HDR_CRIT := 2
  const NULL: Value := Simple(22)

  function Lookup(entries: seq<Entry>, key: Value): Option<Value> {
    if entries == [] then None
    else if entries[0].key == key then Some(entries[0].value)
    else Lookup(entries[1..], key)
  }

  lemma {:induction false} LookupAt(entries: seq<Entry>, i: nat)
    requires i < |entries| && DistinctKeys(entries)
    ensures Lookup(entries, entries[i].key) == Some(entries[i].value)
    decreases |entries|
  {
    if i > 0 {
      assert entries[0].key != entries[i].key;
      LookupAt(entries[1..], i - 1);
    }
  }

  lemma {:induction false} FoundAt(entries: seq<Entry>, key: Value) returns (i: nat)
    requires Lookup(entries, key).Some?
    ensures i < |entries| && entries[i].key == key && Lookup(entries, key) == Some(entries[i].value)
    decreases |entries|
  {
    if entries[0].key == key {
      i := 0;
    } else {
      i := FoundAt(entries[1..], key);
      i := i + 1;
    }
  }

  lemma KeysDistinct(entries: seq<Entry>, depth: nat)
    requires InDomain(Map(entries), depth, false)
    ensures DistinctKeys(entries)
  {}

  // ------------------------------------------------------------ envelopes

  datatype Envelope = Envelope(protectedHeader: Value, unprotected: Value, payload: Value, signature: Value)

  /** The value that one octet string of the rule prints. */
  function Decode(octets: Bytes, outerTag: bool): Option<Value> {
    if Accepted(octets, outerTag) then Some(ReadItem(octets, 0, 0, outerTag).value.value) else None
  }

  lemma DecodePrinted(v: Value, outerTag: bool)
    requires InDomain(v, 0, outerTag)
    ensures Printable(v) && Decode(Print(v), outerTag) == Some(v)
  {
    ReadBack(v, outerTag);
  }

  lemma DecodedPrints(octets: Bytes, outerTag: bool)
    requires Decode(octets, outerTag).Some?
    ensures var v := Decode(octets, outerTag).value; InDomain(v, 0, outerTag) && Printable(v) && Print(v) == octets
  {
    hide ReadItem, InDomain, Printable, Print, Stands;
    ItemSound(octets, 0, 0, outerTag);
    var v := Decode(octets, outerTag).value;
    PrintingStands(octets, v, outerTag);
    assert IsPrintingOf(octets, v, outerTag);
  }

  function ReadEnvelope(msg: Bytes): Option<Envelope> {
    var v := Decode(msg, true);
    if |msg| <= MAX_MESSAGE_BYTES && v.Some? && v.value.Sign1? && v.value.content.Array?
      && |v.value.content.items| == 4 then
      var items := v.value.content.items;
      Some(Envelope(items[0], items[1], items[2], items[3]))
    else None
  }

  lemma EnvelopeValue(receipt: Bytes, env: Envelope)
    requires ReadEnvelope(receipt) == Some(env)
    ensures Decode(receipt, true)
         == Some(Sign1(Array([env.protectedHeader, env.unprotected, env.payload, env.signature])))
  {
    hide Decode;
    var items := Decode(receipt, true).value.content.items;
    assert items == [items[0], items[1], items[2], items[3]];
  }

  /** The protected header: a byte string that is empty or holds a map. */
  function ProtectedMap(header: Value): Option<seq<Entry>> {
    if !header.ByteString? then None
    else if header.bytes == [] then Some([])
    else
      var v := Decode(header.bytes, false);
      if v.Some? && v.value.Map? then Some(v.value.entries) else None
  }

  // ----------------------------------------------------- critical headers

  predicate HasKey(entries: seq<Entry>, key: Value) { Lookup(entries, key).Some? }

  /** Section 3.1 of RFC 9052: crit, when present, is a nonempty array of labels that
      are integers or text, present in the protected header, and understood. */
  predicate CritOk(protectedMap: seq<Entry>, understood: set<Value>) {
    var crit := Lookup(protectedMap, Label(HDR_CRIT));
    crit.Some? ==>
      && crit.value.Array? && crit.value.items != []
      && forall name | name in crit.value.items ::
           (IsInt(name) || name.Text?) && HasKey(protectedMap, name) && name in understood
  }

  method CheckCriticalHeaders(protectedMap: seq<Entry>, understood: set<Value>) returns (ok: bool)
    ensures ok <==> CritOk(protectedMap, understood)
  {
    var crit := Lookup(protectedMap, Label(HDR_CRIT));
    if crit.None? { return true; }
    if !crit.value.Array? || |crit.value.items| == 0 { return false; }
    var labels := crit.value.items;
    for i := 0 to |labels|
      invariant forall name | name in labels[..i] ::
        (IsInt(name) || name.Text?) && HasKey(protectedMap, name) && name in understood
    {
      var name := labels[i];
      assert name in labels;
      if !IsInt(name) && !name.Text? { return false; }
      if !HasKey(protectedMap, name) { return false; }
      if name !in understood { return false; }
      assert labels[..i + 1] == labels[..i] + [name];
    }
    assert labels[..|labels|] == labels;
    return true;
  }

  // ------------------------------------------------------------ signatures

  const SIGNATURE1: Bytes := [0x53, 0x69, 0x67, 0x6E, 0x61, 0x74, 0x75, 0x72, 0x65, 0x31]

  function SigStructureValue(protectedOctets: Bytes, payload: Bytes): Value {
    Array([Text(SIGNATURE1), ByteString(protectedOctets), ByteString([]), ByteString(payload)])
  }

  /** Section 4.4 of RFC 9052, with no external data. */
  function SigStructure(protectedOctets: Bytes, payload: Bytes): Bytes {
    Print(SigStructureValue(protectedOctets, payload))
  }

  lemma PrintItemsCons(x: Value, rest: seq<Value>)
    requires Printable(x) && forall y | y in rest :: Printable(y)
    ensures PrintItems([x] + rest) == Print(x) + PrintItems(rest)
  {
    hide Print, Printable;
    assert ([x] + rest)[1..] == rest;
  }

  lemma SigStructureLength(protectedOctets: Bytes, payload: Bytes)
    ensures var n := |protectedOctets| + |payload|;
      n <= |SigStructure(protectedOctets, payload)| <= n + 64
  {
    var a, b, c, d := Text(SIGNATURE1), ByteString(protectedOctets), ByteString([]), ByteString(payload);
    hide Head;
    PrintItemsCons(d, []);
    PrintItemsCons(c, [d]);
    PrintItemsCons(b, [c, d]);
    PrintItemsCons(a, [b, c, d]);
    assert [d] + [] == [d] && [c] + [d] == [c, d] && [b] + [c, d] == [b, c, d] && [a] + [b, c, d] == [a, b, c, d];
    assert PrintItems([]) == [];
  }

  lemma SigStructureInDomain(protectedOctets: Bytes, payload: Bytes)
    requires |protectedOctets| < TWO64 && |payload| < TWO64
    ensures InDomain(SigStructureValue(protectedOctets, payload), 0, false)
  {
    hide ValidUtf8;
    Utf8Ascii(SIGNATURE1);
    assert InDomain(Text(SIGNATURE1), 1, false);
    hide SIGNATURE1;
    var items := SigStructureValue(protectedOctets, payload).items;
    forall x | x in items ensures InDomain(x, 1, false) {
      assert x == items[0] || x == items[1] || x == items[2] || x == items[3];
    }
  }

  lemma {:induction false} Utf8Ascii(b: Bytes)
    requires forall i | 0 <= i < |b| :: b[i] < 0x80
    ensures ValidUtf8(b)
    decreases |b|
  {
    if b != [] { Utf8Ascii(b[1..]); }
  }

  /** The signed structure determines both what was protected and what was signed. */
  lemma SigStructureInjective(p: Bytes, payload: Bytes, p': Bytes, payload': Bytes)
    requires SigStructure(p, payload) == SigStructure(p', payload')
    requires |p| + |payload| + 64 < TWO64
    ensures p == p' && payload == payload'
  {
    SigStructureLength(p, payload);
    SigStructureLength(p', payload');
    SigStructureInDomain(p, payload);
    SigStructureInDomain(p', payload');
    hide Print, InDomain, Head;
    PrefixFree(SigStructureValue(p, payload), SigStructureValue(p', payload'), false);
  }

  /** The algorithm code point, when it is an integer. */
  function AlgOf(protectedMap: seq<Entry>): Option<int> {
    var alg := Lookup(protectedMap, Label(HDR_ALG));
    if alg.Some? && IsInt(alg.value) then Some(IntOf(alg.value)) else None
  }

  /** The signature element verifies over this payload. */
  predicate SignatureHolds(check: SignatureCheck, env: Envelope, protectedMap: seq<Entry>, payload: Bytes)
    requires env.protectedHeader.ByteString?
  {
    && env.signature.ByteString? && AlgOf(protectedMap).Some?
    && check(AlgOf(protectedMap).value, SigStructure(env.protectedHeader.bytes, payload), env.signature.bytes)
  }

  datatype SignedMessage = SignedMessage(protectedMap: seq<Entry>, unprotected: seq<Entry>, payload: Bytes)

  /** A detached payload is the caller's; an attached one is the message's own. */
  function PayloadOf(env: Envelope, detached: Option<Bytes>): Option<Bytes> {
    if env.payload == NULL then detached
    else if env.payload.ByteString? then Some(env.payload.bytes) else None
  }

  /** A null unprotected header counts as an empty one. */
  function UnprotectedOf(env: Envelope): Option<seq<Entry>> {
    if env.unprotected.Map? then Some(env.unprotected.entries)
    else if env.unprotected == NULL then Some([]) else None
  }

  predicate Sign1Verifies(check: SignatureCheck, msg: Bytes, detached: Option<Bytes>, understood: set<Value>) {
    var env := ReadEnvelope(msg);
    && env.Some?
    && ProtectedMap(env.value.protectedHeader).Some?
    && UnprotectedOf(env.value).Some? && PayloadOf(env.value, detached).Some?
    && CritOk(ProtectedMap(env.value.protectedHeader).value, understood)
    && SignatureHolds(check, env.value, ProtectedMap(env.value.protectedHeader).value,
                      PayloadOf(env.value, detached).value)
  }

  method VerifySign1(check: SignatureCheck, msg: Bytes, detached: Option<Bytes>, understood: set<Value>)
    returns (r: Option<SignedMessage>)
    ensures r.Some? <==> Sign1Verifies(check, msg, detached, understood)
    ensures r.Some? ==> var env := ReadEnvelope(msg).value;
      r.value == SignedMessage(ProtectedMap(env.protectedHeader).value, UnprotectedOf(env).value,
                               PayloadOf(env, detached).value)
  {
    hide ReadItem, Accepted, CritOk, SigStructure, Lookup, Decode;
    var env := ReadEnvelope(msg);
    if env.None? { return None; }
    var Envelope(header, unprotected, payloadSlot, signature) := env.value;
    if !header.ByteString? { return None; }
    var protectedMap := [];
    if header.bytes != [] {
      var v := Decode(header.bytes, false);
      if v.None? || !v.value.Map? { return None; }
      protectedMap := v.value.entries;
    }
    var unprotectedMap := [];
    if unprotected.Map? {
      unprotectedMap := unprotected.entries;
    } else if unprotected != NULL {
      return None;
    }
    var payload;
    if payloadSlot == NULL {
      if detached.None? { return None; }
      payload := detached.value;
    } else {
      if !payloadSlot.ByteString? { return None; }
      payload := payloadSlot.bytes;
    }
    if !signature.ByteString? { return None; }
    var alg := Lookup(protectedMap, Label(HDR_ALG));
    if alg.None? || !IsInt(alg.value) { return None; }
    var critOk := CheckCriticalHeaders(protectedMap, understood);
    if !critOk { return None; }
    if !check(IntOf(alg.value), SigStructure(header.bytes, payload), signature.bytes) { return None; }
    return Some(SignedMessage(protectedMap, unprotectedMap, payload));
  }
}
