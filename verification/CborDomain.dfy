/** What the receipt encoding rule admits, clause by clause, over every item inside an
    item, and heads and small items written out in octets. */
module CborDomain {
  import opened Octets
  import opened Cbor
  import opened CborRoundTrip
  import Utf8

  // ---------------------------------------------------------------- the parts

  /** The items directly inside an item; in a map, keys and values alternate. */
  function Children(v: Value): (children: seq<Value>)
    ensures forall c | c in children :: c < v
  {
    match v
    case Array(items) => items
    case Map(entries) =>
      seq(2 * |entries|, i requires 0 <= i < 2 * |entries| =>
        if i % 2 == 0 then entries[i / 2].key else entries[i / 2].value)
    case Sign1(content) => [content]
    case _ => []
  }

  /** The item reached by a path of child numbers. */
  function PartAt(v: Value, path: seq<nat>): Option<Value>
    decreases |path|
  {
    if path == [] then Some(v)
    else if path[0] >= |Children(v)| then None
    else PartAt(Children(v)[path[0]], path[1..])
  }

  /** The clauses of the rule for one item at its level, without looking inside. */
  ghost predicate ItemRule(v: Value, level: nat, outerTag: bool) {
    && level <= 16
    && (v.UInt? ==> v.n <= 0xFFFF_FFFF_FFFF_FFFF)
    && (v.NInt? ==> v.n <= 0x7FFF_FFFF_FFFF_FFFF)
    && (v.ByteString? || v.Text? ==> |v.bytes| <= 0xFFFF_FFFF_FFFF_FFFF)
    && (v.Text? ==> exists text :: Utf8.IsEncodingOf(v.bytes, text))
    && (v.Array? ==> |v.items| <= 0xFFFF_FFFF_FFFF_FFFF)
    && (v.Map? ==>
        && |v.entries| <= 0xFFFF_FFFF_FFFF_FFFF
        && (forall i, j | 0 <= i < j < |v.entries| :: v.entries[i].key != v.entries[j].key)
        && (forall e | e in v.entries :: e.key.UInt? || e.key.NInt? || e.key.Text?))
    && (v.Sign1? ==> outerTag && level == 0)
    && (v.Simple? ==> v.code == 20 || v.code == 21 || v.code == 22)
  }

  ghost predicate PartsObey(v: Value, level: nat, outerTag: bool) {
    forall path | PartAt(v, path).Some? :: ItemRule(PartAt(v, path).value, level + |path|, outerTag)
  }

  /** Below the top the outer tag makes no difference. */
  lemma TagOnTopOnly(v: Value, level: nat)
    requires level > 0
    ensures InDomain(v, level, true) <==> InDomain(v, level, false)
  {}

  lemma PartsOfChildren(v: Value, level: nat, outerTag: bool)
    ensures PartsObey(v, level, outerTag) <==>
      && ItemRule(v, level, outerTag)
      && forall i | 0 <= i < |Children(v)| :: PartsObey(Children(v)[i], level + 1, outerTag)
  {
    hide ItemRule, Children;
    if PartsObey(v, level, outerTag) {
      assert PartAt(v, []) == Some(v);
      forall i | 0 <= i < |Children(v)| ensures PartsObey(Children(v)[i], level + 1, outerTag) {
        forall path | PartAt(Children(v)[i], path).Some?
          ensures ItemRule(PartAt(Children(v)[i], path).value, level + 1 + |path|, outerTag)
        {
          assert ([i] + path)[1..] == path;
          assert PartAt(v, [i] + path) == PartAt(Children(v)[i], path);
        }
      }
    }
    if ItemRule(v, level, outerTag)
      && forall i | 0 <= i < |Children(v)| :: PartsObey(Children(v)[i], level + 1, outerTag)
    {
      forall path | PartAt(v, path).Some?
        ensures ItemRule(PartAt(v, path).value, level + |path|, outerTag)
      {
        if path != [] {
          assert PartsObey(Children(v)[path[0]], level + 1, outerTag);
          assert PartAt(v, path) == PartAt(Children(v)[path[0]], path[1..]);
        }
      }
    }
  }

  /** One level of the domain. */
  lemma DomainOfChildren(v: Value, level: nat, outerTag: bool)
    ensures InDomain(v, level, outerTag) <==>
      && ItemRule(v, level, outerTag)
      && forall i | 0 <= i < |Children(v)| :: InDomain(Children(v)[i], level + 1, false)
  {
    match v
    case Array(items) => ArrayOfChildren(items, level);
    case Map(entries) => MapOfChildren(entries, level);
    case Text(b) =>
      hide ValidUtf8;
      Utf8.ValidIffEncoded(b);
    case Sign1(content) => assert Children(v)[0] == content;
    case _ =>
  }

  lemma ArrayOfChildren(items: seq<Value>, level: nat)
    ensures (forall x | x in items :: InDomain(x, level + 1, false)) <==>
      forall i | 0 <= i < |Children(Array(items))| :: InDomain(Children(Array(items))[i], level + 1, false)
  {
    hide InDomain;
    var children := Children(Array(items));
    if forall i | 0 <= i < |children| :: InDomain(children[i], level + 1, false) {
      forall x | x in items ensures InDomain(x, level + 1, false) {
        var k :| 0 <= k < |items| && items[k] == x;
        assert children[k] == x;
      }
    }
    if forall x | x in items :: InDomain(x, level + 1, false) {
      forall i | 0 <= i < |children| ensures InDomain(children[i], level + 1, false) {
        assert children[i] in items;
      }
    }
  }

  lemma MapOfChildren(entries: seq<Entry>, level: nat)
    ensures (forall e | e in entries :: InDomain(e.key, level + 1, false) && InDomain(e.value, level + 1, false)) <==>
      forall i | 0 <= i < |Children(Map(entries))| :: InDomain(Children(Map(entries))[i], level + 1, false)
  {
    hide InDomain;
    var children := Children(Map(entries));
    if forall i | 0 <= i < |children| :: InDomain(children[i], level + 1, false) {
      forall e | e in entries ensures InDomain(e.key, level + 1, false) && InDomain(e.value, level + 1, false) {
        var k :| 0 <= k < |entries| && entries[k] == e;
        assert children[2 * k] == e.key && children[2 * k + 1] == e.value;
      }
    }
    if forall e | e in entries :: InDomain(e.key, level + 1, false) && InDomain(e.value, level + 1, false) {
      forall i | 0 <= i < |children| ensures InDomain(children[i], level + 1, false) {
        assert entries[i / 2] in entries;
      }
    }
  }

  /** An item is admitted if and only if every item in it obeys every clause: at most 16
      levels, integers from -2^63 to 2^64 - 1, distinct integer or text keys, text that
      encodes characters, no simple value but false, true and null, and tag 18 on top. */
  lemma {:induction false} DomainIsItemRule(v: Value, level: nat, outerTag: bool)
    ensures InDomain(v, level, outerTag) <==> PartsObey(v, level, outerTag)
    decreases v
  {
    hide InDomain, ItemRule, PartsObey, Children;
    PartsOfChildren(v, level, outerTag);
    DomainOfChildren(v, level, outerTag);
    forall i | 0 <= i < |Children(v)|
      ensures InDomain(Children(v)[i], level + 1, false) <==> PartsObey(Children(v)[i], level + 1, outerTag)
    {
      assert Children(v)[i] in Children(v);
      DomainIsItemRule(Children(v)[i], level + 1, outerTag);
      TagOnTopOnly(Children(v)[i], level + 1);
    }
  }

  // ------------------------------------------------------------ in plain octets

  /** The shortest head of every argument. */
  lemma HeadInOctets(major: nat, n: nat)
    requires major < 8 && n <= 0xFFFF_FFFF_FFFF_FFFF
    ensures n <= 23 ==> Head(major, n) == [32 * major + n]
    ensures 24 <= n <= 0xFF ==> Head(major, n) == [32 * major + 24, n]
    ensures 0x100 <= n <= 0xFFFF ==> Head(major, n) == [32 * major + 25, n / 0x100, n % 0x100]
    ensures 0x1_0000 <= n <= 0xFFFF_FFFF ==>
      |Head(major, n)| == 5 && Head(major, n)[0] == 32 * major + 26 && FromBigEndian(Head(major, n)[1..]) == n
    ensures 0x1_0000_0000 <= n ==>
      |Head(major, n)| == 9 && Head(major, n)[0] == 32 * major + 27 && FromBigEndian(Head(major, n)[1..]) == n
  {
    hide BigEndian, FromBigEndian, Pow256;
    assert Head(major, n)[1..] == BigEndian(n, ArgWidth(n));
    SmallBigEndian(n);
    if n >= 24 {
      WidthFits(n);
      BigEndianRoundTrip(n, ArgWidth(n));
    }
  }

  lemma OneOctet(n: nat)
    requires n <= 0xFF
    ensures BigEndian(n, 1) == [n]
  {
    hide BigEndian;
    assert |BigEndian(0, 0)| == 0;
    BigEndianStep(n, 0);
  }

  lemma SmallBigEndian(n: nat)
    ensures BigEndian(n, 0) == []
    ensures n <= 0xFF ==> BigEndian(n, 1) == [n]
    ensures n <= 0xFFFF ==> BigEndian(n, 2) == [n / 0x100, n % 0x100]
  {
    hide BigEndian;
    assert |BigEndian(n, 0)| == 0;
    if n <= 0xFF { OneOctet(n); }
    if n <= 0xFFFF {
      OneOctet(n / 0x100);
      BigEndianStep(n, 1);
    }
  }

  /** Every kind of item with a short head, by its initial octet. */
  lemma InitialOctets(n: nat, b: Bytes, items: seq<Value>, entries: seq<Entry>, content: Value)
    requires n <= 23 && |b| <= 23 && |items| <= 23 && |entries| <= 23
    requires Printable(Array(items)) && Printable(Map(entries)) && Printable(content)
    ensures Print(UInt(n)) == [n] && Print(NInt(n)) == [0x20 + n]
    ensures Print(ByteString(b)) == [0x40 + |b|] + b && Print(Text(b)) == [0x60 + |b|] + b
    ensures Print(Array(items)) == [0x80 + |items|] + PrintItems(items)
    ensures Print(Map(entries)) == [0xA0 + |entries|] + PrintEntries(entries)
    ensures Print(Sign1(content)) == [0xD2] + Print(content)
    ensures Print(Simple(20)) == [0xF4] && Print(Simple(21)) == [0xF5] && Print(Simple(22)) == [0xF6]
  {
    HeadInOctets(0, n);
    HeadInOctets(1, n);
    HeadInOctets(2, |b|);
    HeadInOctets(3, |b|);
    HeadInOctets(4, |items|);
    HeadInOctets(5, |entries|);
    HeadInOctets(6, 18);
    hide Head, PrintItems, PrintEntries;
  }

  lemma PrintTwo(x: Value, y: Value)
    requires Printable(x) && Printable(y)
    ensures PrintItems([x]) == Print(x) && PrintItems([x, y]) == Print(x) + Print(y)
  {
    hide Print, Printable;
    assert [x, y][1..] == [y] && [x][1..] == [] && [y][1..] == [];
    assert PrintItems([]) == [];
    assert PrintItems([y]) == Print(y) + PrintItems([]);
  }

  lemma PrintEntryPair(d: Entry, e: Entry)
    requires Printable(d.key) && Printable(d.value) && Printable(e.key) && Printable(e.value)
    ensures PrintEntries([d, e]) == Print(d.key) + Print(d.value) + (Print(e.key) + Print(e.value))
  {
    hide Print, Printable;
    assert [d, e][1..] == [e] && [e][1..] == [];
    assert PrintEntries([]) == [];
    assert PrintEntries([e]) == PrintEntry(e) + PrintEntries([]);
  }
}
