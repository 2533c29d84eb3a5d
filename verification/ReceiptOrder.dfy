/** The order of the proofs array, as octets: two receipts that print the same message
    but for a permutation of that array are read alike and decided alike. */
module ReceiptOrder {
  import opened Octets
  import opened Cbor
  import opened CborSizes
  import opened CoseSign1
  import opened Receipt

  /** A message with its proofs array cut out. */
  datatype Frame = Frame(header: Value, before: seq<Entry>, vdpBefore: seq<Entry>, vdpAfter: seq<Entry>,
    after: seq<Entry>, payload: Value, signature: Value)

  function Vdp(f: Frame, items: seq<Value>): Value {
    Map(f.vdpBefore + [Entry(Label(VDP_INCLUSION_PROOFS), Array(items))] + f.vdpAfter)
  }

  function Unprotected(f: Frame, items: seq<Value>): Value {
    Map(f.before + [Entry(Label(HDR_VDP), Vdp(f, items))] + f.after)
  }

  /** The message with these items in the array. */
  function Message(f: Frame, items: seq<Value>): Value {
    Sign1(Array([f.header, Unprotected(f, items), f.payload, f.signature]))
  }

  // --------------------------------------------------- the domain is kept

  lemma PermutedArray(items: seq<Value>, items': seq<Value>, depth: nat)
    requires InDomain(Array(items), depth, false) && multiset(items) == multiset(items')
    ensures InDomain(Array(items'), depth, false)
  {
    SameItems(items, items');
  }

  lemma EntryInDomain(a: seq<Entry>, e: Entry, b: seq<Entry>, depth: nat)
    requires InDomain(Map(a + [e] + b), depth, false)
    ensures InDomain(e.value, depth + 1, false)
  {
    assert (a + [e] + b)[|a|] == e;
  }

  lemma ReplaceInDomain(a: seq<Entry>, e: Entry, b: seq<Entry>, v: Value, depth: nat)
    requires InDomain(Map(a + [e] + b), depth, false) && InDomain(v, depth + 1, false)
    ensures InDomain(Map(a + [Entry(e.key, v)] + b), depth, false)
  {
    var old', new' := a + [e] + b, a + [Entry(e.key, v)] + b;
    assert old'[|a|] == e;
    forall i | 0 <= i < |new'|
      ensures new'[i].key == old'[i].key && KeyKind(new'[i].key)
      ensures InDomain(new'[i].key, depth + 1, false) && InDomain(new'[i].value, depth + 1, false)
    {
      assert old'[i] in old';
    }
  }

  lemma ElementsInDomain(items: seq<Value>, depth: nat)
    ensures InDomain(Array(items), depth, false) <==>
      depth <= MAX_DEPTH && |items| < TWO64 && forall i | 0 <= i < |items| :: InDomain(items[i], depth + 1, false)
  {
    assert InDomain(Array(items), depth, false) <==>
      depth <= MAX_DEPTH && |items| < TWO64 && forall x | x in items :: InDomain(x, depth + 1, false);
    hide InDomain;
    if InDomain(Array(items), depth, false) {
      forall i | 0 <= i < |items| ensures InDomain(items[i], depth + 1, false) { assert items[i] in items; }
    }
  }

  lemma MessageInDomain(f: Frame, items: seq<Value>)
    ensures InDomain(Message(f, items), 0, true) <==>
      && InDomain(f.header, 2, false) && InDomain(Unprotected(f, items), 2, false)
      && InDomain(f.payload, 2, false) && InDomain(f.signature, 2, false)
  {
    hide Unprotected;
    var parts := [f.header, Unprotected(f, items), f.payload, f.signature];
    ElementsInDomain(parts, 1);
    assert InDomain(Message(f, items), 0, true) <==> InDomain(Array(parts), 1, false);
    hide InDomain;
    assert parts[0] == f.header && parts[1] == Unprotected(f, items) && parts[2] == f.payload
      && parts[3] == f.signature;
  }

  /** A permuted array is admitted where the array was. */
  lemma PermutedMessage(f: Frame, items: seq<Value>, items': seq<Value>)
    requires InDomain(Message(f, items), 0, true) && multiset(items) == multiset(items')
    ensures InDomain(Message(f, items'), 0, true)
    ensures InDomain(Array(items), 4, false) && InDomain(Array(items'), 4, false)
  {
    hide InDomain, Message;
    MessageInDomain(f, items);
    MessageInDomain(f, items');
    var outer, inner := Entry(Label(HDR_VDP), Vdp(f, items)), Entry(Label(VDP_INCLUSION_PROOFS), Array(items));
    EntryInDomain(f.before, outer, f.after, 2);
    EntryInDomain(f.vdpBefore, inner, f.vdpAfter, 3);
    PermutedArray(items, items', 4);
    ReplaceInDomain(f.vdpBefore, inner, f.vdpAfter, Array(items'), 3);
    ReplaceInDomain(f.before, outer, f.after, Vdp(f, items'), 2);
  }

  // --------------------------------------------------- the length is kept

  lemma ArrayLength(items: seq<Value>, items': seq<Value>)
    requires multiset(items) == multiset(items') && Printable(Array(items))
    ensures Printable(Array(items')) && |Print(Array(items))| == |Print(Array(items'))|
  {
    SameItems(items, items');
    PermutedItemsLength(items, items');
  }

  /** Replacing a value by one that prints as long. */
  lemma ReplaceLength(a: seq<Entry>, e: Entry, b: seq<Entry>, v: Value)
    requires Printable(Map(a + [e] + b)) && Printable(Map(a + [Entry(e.key, v)] + b))
    requires Printable(e.key) && Printable(e.value) && Printable(v) && |Print(e.value)| == |Print(v)|
    ensures |Print(Map(a + [e] + b))| == |Print(Map(a + [Entry(e.key, v)] + b))|
  {
    EntriesLength(a, e, b);
    EntriesLength(a, Entry(e.key, v), b);
  }

  lemma MessageLength(f: Frame, items: seq<Value>)
    requires Printable(Message(f, items))
    ensures Printable(Unprotected(f, items)) && forall y | y in [f.header] + [f.payload, f.signature] :: Printable(y)
    ensures |Print(Message(f, items))|
         == |Head(6, 18)| + |Head(4, 4)| + |Print(Unprotected(f, items))|
            + |PrintItems([f.header] + [f.payload, f.signature])|
  {
    hide Unprotected, Head;
    var parts := [f.header, Unprotected(f, items), f.payload, f.signature];
    assert Printable(Array(parts)) && |parts| == 4;
    assert Print(Message(f, items)) == Head(6, 18) + Print(Array(parts));
    assert Print(Array(parts)) == Head(4, 4) + PrintItems(parts);
    assert parts == [f.header] + [Unprotected(f, items)] + [f.payload, f.signature];
    assert parts[1] in parts;
    hide Print, Printable, PrintItems;
    ItemsLength([f.header], Unprotected(f, items), [f.payload, f.signature]);
  }

  lemma MapParts(a: seq<Entry>, e: Entry, b: seq<Entry>)
    requires Printable(Map(a + [e] + b))
    ensures Printable(e.key) && Printable(e.value)
  {
    assert (a + [e] + b)[|a|] == e;
  }

  /** A permuted array prints a message of the same length. */
  lemma PermutedMessageLength(f: Frame, items: seq<Value>, items': seq<Value>)
    requires multiset(items) == multiset(items')
    requires Printable(Message(f, items)) && Printable(Message(f, items'))
    ensures |Print(Message(f, items))| == |Print(Message(f, items'))|
  {
    hide Printable, Print, Message, Head;
    MessageLength(f, items);
    MessageLength(f, items');
    var outer, inner := Entry(Label(HDR_VDP), Vdp(f, items)), Entry(Label(VDP_INCLUSION_PROOFS), Array(items));
    MapParts(f.before, outer, f.after);
    MapParts(f.before, Entry(Label(HDR_VDP), Vdp(f, items')), f.after);
    MapParts(f.vdpBefore, inner, f.vdpAfter);
    ArrayLength(items, items');
    ReplaceLength(f.vdpBefore, inner, f.vdpAfter, Array(items'));
    ReplaceLength(f.before, outer, f.after, Vdp(f, items'));
  }

  // ------------------------------------------------------- the reading

  lemma FrameProofItems(f: Frame, items: seq<Value>)
    requires InDomain(Message(f, items), 0, true)
    ensures ProofItems(Unprotected(f, items)) == Some(items)
  {
    hide InDomain, Message, Lookup;
    MessageInDomain(f, items);
    EntryInDomain(f.before, Entry(Label(HDR_VDP), Vdp(f, items)), f.after, 2);
    var outer := f.before + [Entry(Label(HDR_VDP), Vdp(f, items))] + f.after;
    var inner := f.vdpBefore + [Entry(Label(VDP_INCLUSION_PROOFS), Array(items))] + f.vdpAfter;
    KeysDistinct(outer, 2);
    KeysDistinct(inner, 3);
    LookupAt(outer, |f.before|);
    LookupAt(inner, |f.vdpBefore|);
  }

  /** The octets of a message of a frame, and their reading. */
  lemma FrameReads(f: Frame, items: seq<Value>)
    requires InDomain(Message(f, items), 0, true)
    ensures Printable(Message(f, items))
    ensures ReadEnvelope(Print(Message(f, items)))
         == if |Print(Message(f, items))| <= MAX_MESSAGE_BYTES
            then Some(Envelope(f.header, Unprotected(f, items), f.payload, f.signature)) else None
  {
    hide InDomain, Print, Printable, Decode, Unprotected;
    DecodePrinted(Message(f, items), true);
  }

  function BlobsOf(items: seq<Value>): (proofs: seq<Bytes>)
    requires forall x | x in items :: x.ByteString?
    ensures |proofs| == |items| && forall i | 0 <= i < |items| :: items[i] == ByteString(proofs[i])
    ensures NodeStrings(proofs) == items
  {
    assert forall i | 0 <= i < |items| :: items[i] in items && items[i].ByteString?;
    seq(|items|, i requires 0 <= i < |items| => items[i].bytes)
  }

  /** s with its proofs in another order. */
  function Reordered(s: Shape, f: Frame, proofs: seq<Bytes>): Shape {
    Shape(Envelope(f.header, Unprotected(f, NodeStrings(proofs)), f.payload, f.signature), s.protectedMap, proofs)
  }

  /** A shape survives the permutation. */
  lemma PermutedShape(f: Frame, items: seq<Value>, items': seq<Value>, s: Shape) returns (s': Shape)
    requires InDomain(Message(f, items), 0, true) && InDomain(Message(f, items'), 0, true)
    requires multiset(items) == multiset(items') && Printable(Message(f, items)) && Printable(Message(f, items'))
    requires HasShape(Print(Message(f, items)), s)
    ensures HasShape(Print(Message(f, items')), s')
    ensures s'.env.protectedHeader == s.env.protectedHeader && s'.env.signature == s.env.signature
    ensures s'.protectedMap == s.protectedMap && forall b :: b in s.proofs <==> b in s'.proofs
  {
    hide InDomain, Print, Printable, Decode, Message, Unprotected, ReadEnvelope, ProtectedMap, CritOk, HasKey,
      ProofItems;
    FrameReads(f, items);
    FrameReads(f, items');
    PermutedMessageLength(f, items, items');
    FrameProofItems(f, items);
    FrameProofItems(f, items');
    SameItems(items, items');
    assert items == NodeStrings(s.proofs);
    forall x | x in items' ensures x.ByteString? { assert x in items; }
    var proofs := BlobsOf(items');
    s' := Reordered(s, f, proofs);
    forall b ensures b in s.proofs <==> b in proofs { SameBlobs(s.proofs, proofs, b); }
  }

  lemma SameBlobs(p: seq<Bytes>, q: seq<Bytes>, b: Bytes)
    requires forall x :: x in NodeStrings(p) <==> x in NodeStrings(q)
    ensures b in p <==> b in q
  {
    BlobIn(p, b);
    BlobIn(q, b);
  }

  lemma BlobIn(p: seq<Bytes>, b: Bytes)
    ensures b in p <==> ByteString(b) in NodeStrings(p)
  {
    if b in p {
      var i :| 0 <= i < |p| && p[i] == b;
      assert NodeStrings(p)[i] == ByteString(b);
    }
  }

  // --------------------------------------------------------- the theorem

  /** The order of the unauthenticated proofs array decides neither whether a receipt
      is read nor, for the RFC 9162 structure, ok, failed_at or the claims. */
  lemma OrderIrrelevant(h: Hash, check: SignatureCheck, ccf: CcfRoot, f: Frame, items: seq<Value>,
      items': seq<Value>, leaf: Bytes)
    requires InDomain(Message(f, items), 0, true) && multiset(items) == multiset(items')
    ensures Printable(Message(f, items)) && Printable(Message(f, items')) && InDomain(Message(f, items'), 0, true)
    ensures var (r, r') := (Print(Message(f, items)), Print(Message(f, items')));
      && (ShapeOf(r).Some? <==> ShapeOf(r').Some?)
      && (IsCcf(r) <==> IsCcf(r'))
      && (!IsCcf(r) ==> SameVerdict(Decide(h, check, ccf, r, leaf), Decide(h, check, ccf, r', leaf)))
  {
    hide InDomain, Print, Printable, Message, HasShape, DecideTree, DecideCcf;
    PermutedMessage(f, items, items');
    DomainPrintable(Message(f, items), 0, true);
    DomainPrintable(Message(f, items'), 0, true);
    var r, r' := Print(Message(f, items)), Print(Message(f, items'));
    if ShapeOf(r).Some? {
      var s := ShapeOf(r).value;
      var s' := PermutedShape(f, items, items', s);
      ShapeIs(r', s');
      ShapeFacts(r, s);
      ShapeFacts(r', s');
      SameProofsDecide(h, check, s, s', leaf);
    } else if ShapeOf(r').Some? {
      var s := PermutedShape(f, items', items, ShapeOf(r').value);
      assert false;
    }
  }

  /** The CCF structure reads the first proof only, so there the order does matter. */
  ghost predicate IsCcf(receipt: Bytes) {
    ShapeOf(receipt).Some? && VdsOf(ShapeOf(receipt).value.protectedMap) == Some(VDS_CCF_LEDGER_SHA256)
  }

  predicate SameVerdict(d: Outcome, d': Outcome) {
    d.ok == d'.ok && d.failedAt == d'.failedAt && d.claims == d'.claims
  }

  /** Every receipt with a shape is the message of a frame. */
  lemma ShapeHasFrame(receipt: Bytes, s: Shape) returns (f: Frame)
    requires HasShape(receipt, s)
    ensures InDomain(Message(f, NodeStrings(s.proofs)), 0, true) && Printable(Message(f, NodeStrings(s.proofs)))
    ensures receipt == Print(Message(f, NodeStrings(s.proofs)))
  {
    hide Print, Printable, Decode, InDomain, ProtectedMap, CritOk, HasKey, Lookup;
    var items := NodeStrings(s.proofs);
    var unprotected := s.env.unprotected.entries;
    var i := FoundAt(unprotected, Label(HDR_VDP));
    var vdp := unprotected[i].value.entries;
    var j := FoundAt(vdp, Label(VDP_INCLUSION_PROOFS));
    f := Frame(s.env.protectedHeader, unprotected[..i], vdp[..j], vdp[j + 1..], unprotected[i + 1..], s.env.payload,
      s.env.signature);
    SplitAround(unprotected, i);
    SplitAround(vdp, j);
    assert Vdp(f, items) == Map(vdp);
    assert Unprotected(f, items) == s.env.unprotected;
    EnvelopeValue(receipt, s.env);
    DecodedPrints(receipt, true);
  }
}
