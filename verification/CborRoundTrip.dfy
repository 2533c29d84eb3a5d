/** Reading accepts exactly what printing produces. */
module CborRoundTrip {
  import opened Octets
  import opened Cbor

  /** b stands at position pos of o. */
  predicate At(o: Bytes, pos: nat, b: Bytes) {
    pos + |b| <= |o| && o[pos..pos + |b|] == b
  }

  lemma AtConcat(o: Bytes, pos: nat, a: Bytes, b: Bytes)
    ensures At(o, pos, a + b) <==> At(o, pos, a) && At(o, pos + |a|, b)
  {
    var (n, m) := (pos + |a|, pos + |a| + |b|);
    if m <= |o| {
      assert o[pos..m] == o[pos..n] + o[n..m];
      if At(o, pos, a + b) { SplitAt(o[pos..n], o[n..m], a, b); }
    }
  }

  lemma Pow256Values()
    ensures Pow256(1) == 0x100 && Pow256(2) == 0x1_0000 && Pow256(4) == 0x1_0000_0000 && Pow256(8) == TWO64
  {
    assert Pow256(3) == 0x100_0000;
    assert Pow256(6) == 0x1_0000_0000_0000;
  }

  lemma HeadSound(o: Bytes, pos: nat)
    requires ReadHead(o, pos).Some? && ReadHead(o, pos).value.major != 7
    ensures var r := ReadHead(o, pos).value;
      r.argument < TWO64 && r.next == pos + |Head(r.major, r.argument)| && At(o, pos, Head(r.major, r.argument))
  {
    hide BigEndian, FromBigEndian, Pow256, ReadHead, ArgWidth, ArgInfo;
    var r := ReadHead(o, pos).value;
    var tail := o[pos + 1..r.next];
    ReadHeadParts(o, pos);
    FromBigEndianRoundTrip(tail);
    assert o[pos..r.next] == [o[pos]] + tail;
    if r.info < 24 { NoOctets(r.argument); }
  }

  lemma NoOctets(n: nat)
    ensures BigEndian(n, 0) == []
  {}

  /** The octets after the initial one are as many as the argument needs. */
  lemma ReadHeadParts(o: Bytes, pos: nat)
    requires ReadHead(o, pos).Some? && ReadHead(o, pos).value.major != 7
    ensures var r := ReadHead(o, pos).value;
      && |o[pos + 1..r.next]| == ArgWidth(r.argument) && ArgInfo(r.argument) == r.info && r.argument < TWO64
      && (r.info < 24 ==> ArgWidth(r.argument) == 0)
      && (r.info >= 24 ==> r.argument == FromBigEndian(o[pos + 1..r.next]))
  {
    var r := ReadHead(o, pos).value;
    hide FromBigEndian, Pow256, BigEndian;
    Pow256Values();
    FromBigEndianRoundTrip(o[pos + 1..r.next]);
  }

  lemma HeadComplete(o: Bytes, pos: nat, major: nat, n: nat)
    requires major < 7 && n < TWO64 && At(o, pos, Head(major, n))
    ensures ReadHead(o, pos) == Some(HeadAt(major, ArgInfo(n), n, pos + |Head(major, n)|))
  {
    hide BigEndian, FromBigEndian, Pow256;
    var head, width := Head(major, n), ArgWidth(n);
    assert o[pos] == head[0] == 32 * major + ArgInfo(n);
    if n >= 24 {
      WidthFits(n);
      BigEndianRoundTrip(n, width);
      assert head[1..] == BigEndian(n, width);
      assert o[pos + 1..pos + 1 + width] == o[pos..pos + 1 + width][1..];
    }
  }

  lemma WidthFits(n: nat)
    requires 24 <= n < TWO64
    ensures n < Pow256(ArgWidth(n))
  {
    Pow256Values();
    hide Pow256;
  }

  // ------------------------------------------- a printing at a position

  /** The printing of v, a value admitted at this depth, stands at pos and ends at `end`. */
  ghost predicate Stands(o: Bytes, pos: nat, v: Value, end: nat, depth: nat, outerTag: bool) {
    InDomain(v, depth, outerTag) && Printable(v) && end == pos + |Print(v)| && At(o, pos, Print(v))
  }

  ghost predicate ItemsStand(o: Bytes, pos: nat, items: seq<Value>, end: nat, depth: nat) {
    && (forall x | x in items :: InDomain(x, depth, false) && Printable(x))
    && end == pos + |PrintItems(items)| && At(o, pos, PrintItems(items))
  }

  /** The keys are distinct and their octets are not in `keys`. */
  ghost predicate EntriesStand(o: Bytes, pos: nat, entries: seq<Entry>, end: nat, depth: nat, keys: set<Bytes>) {
    && (forall e | e in entries :: AdmittedEntry(e, depth) && Print(e.key) !in keys)
    && DistinctKeys(entries)
    && end == pos + |PrintEntries(entries)| && At(o, pos, PrintEntries(entries))
  }

  ghost predicate AdmittedEntry(e: Entry, depth: nat) {
    && KeyKind(e.key) && InDomain(e.key, depth, false) && InDomain(e.value, depth, false)
    && Printable(e.key) && Printable(e.value)
  }

  function HeadOf(v: Value): Bytes
    requires !v.Simple?
  {
    match v
    case UInt(n) => Head(0, n)
    case NInt(n) => Head(1, n)
    case ByteString(b) => Head(2, |b|)
    case Text(b) => Head(3, |b|)
    case Array(items) => Head(4, |items|)
    case Map(entries) => Head(5, |entries|)
    case Sign1(content) => Head(6, 18)
  }

  lemma IntStands(o: Bytes, pos: nat, v: Value, end: nat, depth: nat, outerTag: bool)
    requires v.UInt? || v.NInt?
    ensures Stands(o, pos, v, end, depth, outerTag) <==>
      && depth <= MAX_DEPTH && v.n < (if v.UInt? then TWO64 else TWO63)
      && At(o, pos, HeadOf(v)) && end == pos + |HeadOf(v)|
  {
    hide Head, At;
  }

  lemma StringStands(o: Bytes, pos: nat, v: Value, end: nat, depth: nat, outerTag: bool)
    requires v.ByteString? || v.Text?
    ensures Stands(o, pos, v, end, depth, outerTag) <==>
      && depth <= MAX_DEPTH && |v.bytes| < TWO64 && (v.Text? ==> ValidUtf8(v.bytes))
      && At(o, pos, HeadOf(v)) && At(o, pos + |HeadOf(v)|, v.bytes) && end == pos + |HeadOf(v)| + |v.bytes|
  {
    hide Head, At, ValidUtf8;
    AtConcat(o, pos, HeadOf(v), v.bytes);
  }

  lemma ArrayStands(o: Bytes, pos: nat, items: seq<Value>, end: nat, depth: nat, outerTag: bool)
    ensures Stands(o, pos, Array(items), end, depth, outerTag) <==>
      && depth <= MAX_DEPTH && |items| < TWO64
      && At(o, pos, Head(4, |items|)) && ItemsStand(o, pos + |Head(4, |items|)|, items, end, depth + 1)
  {
    hide Head, At, PrintItems;
    if forall x | x in items :: Printable(x) { AtConcat(o, pos, Head(4, |items|), PrintItems(items)); }
  }

  lemma MapStands(o: Bytes, pos: nat, entries: seq<Entry>, end: nat, depth: nat, outerTag: bool)
    ensures Stands(o, pos, Map(entries), end, depth, outerTag) <==>
      && depth <= MAX_DEPTH && |entries| < TWO64
      && At(o, pos, Head(5, |entries|)) && EntriesStand(o, pos + |Head(5, |entries|)|, entries, end, depth + 1, {})
  {
    hide Head, At, PrintEntries, DistinctKeys;
    if forall e | e in entries :: Printable(e.key) && Printable(e.value) {
      AtConcat(o, pos, Head(5, |entries|), PrintEntries(entries));
    }
  }

  lemma TagStands(o: Bytes, pos: nat, content: Value, end: nat, depth: nat, outerTag: bool)
    ensures Stands(o, pos, Sign1(content), end, depth, outerTag) <==>
      && outerTag && depth == 0
      && At(o, pos, Head(6, 18)) && Stands(o, pos + |Head(6, 18)|, content, end, depth + 1, false)
  {
    hide Head, At;
    if Printable(content) { AtConcat(o, pos, Head(6, 18), Print(content)); }
  }

  lemma SimpleStands(o: Bytes, pos: nat, code: nat, end: nat, depth: nat, outerTag: bool)
    ensures Stands(o, pos, Simple(code), end, depth, outerTag) <==>
      depth <= MAX_DEPTH && 20 <= code <= 22 && end == pos + 1 <= |o| && o[pos] == 0xE0 + code
  {
    if pos + 1 <= |o| { assert o[pos..pos + 1] == [o[pos]]; }
  }

  lemma ItemsCons(o: Bytes, pos: nat, x: Value, mid: nat, rest: seq<Value>, end: nat, depth: nat)
    requires Printable(x) ==> mid == pos + |Print(x)|
    ensures ItemsStand(o, pos, [x] + rest, end, depth) <==>
      Stands(o, pos, x, mid, depth, false) && ItemsStand(o, mid, rest, end, depth)
  {
    var items := [x] + rest;
    assert items[0] == x && items[1..] == rest;
    assert forall y :: y in items <==> y == x || y in rest;
    hide At, InDomain, Printable;
    if forall y | y in items :: Printable(y) {
      assert PrintItems(items) == Print(x) + PrintItems(rest);
      AtConcat(o, pos, Print(x), PrintItems(rest));
    }
  }

  /** Different keys have different octets. */
  lemma KeyInjective(k: Value, k': Value, depth: nat)
    requires KeyKind(k) && KeyKind(k') && InDomain(k, depth, false) && InDomain(k', depth, false)
    requires Printable(k) && Printable(k') && Print(k) == Print(k')
    ensures k == k'
  {
    var o := Print(k);
    KeyHead(k, depth);
    KeyHead(k', depth);
  }

  lemma KeyHead(k: Value, depth: nat)
    requires KeyKind(k) && InDomain(k, depth, false) && Printable(k)
    ensures var r := ReadHead(Print(k), 0);
      && r.Some?
      && r.value.major == (if k.UInt? then 0 else if k.NInt? then 1 else 3)
      && (if k.Text? then k.bytes == Print(k)[r.value.next..] else k.n == r.value.argument)
  {
    var o := Print(k);
    var head := HeadOf(k);
    hide Head, ReadHead;
    assert o[0..|head|] == head;
    HeadComplete(o, 0, if k.UInt? then 0 else if k.NInt? then 1 else 3, if k.Text? then |k.bytes| else k.n);
  }

  lemma EntriesCons(o: Bytes, pos: nat, e: Entry, mid: nat, mid': nat, rest: seq<Entry>, end: nat, depth: nat,
      keys: set<Bytes>)
    requires Printable(e.key) ==> mid == pos + |Print(e.key)|
    requires Printable(e.value) ==> mid' == mid + |Print(e.value)|
    ensures EntriesStand(o, pos, [e] + rest, end, depth, keys) <==>
      && KeyKind(e.key) && Stands(o, pos, e.key, mid, depth, false) && Print(e.key) !in keys
      && Stands(o, mid, e.value, mid', depth, false)
      && EntriesStand(o, mid', rest, end, depth, keys + {Print(e.key)})
  {
    hide At, InDomain, Printable, Print, PrintEntries, KeyKind;
    assert forall x :: x in [e] + rest <==> x == e || x in rest;
    if AdmittedEntry(e, depth) && Print(e.key) !in keys && forall x | x in rest :: AdmittedEntry(x, depth) {
      EntriesConsText(o, pos, e, rest, depth);
      EntriesConsKeys(e, rest, depth, keys);
    }
  }

  /** EntriesCons for the octets... */
  lemma EntriesConsText(o: Bytes, pos: nat, e: Entry, rest: seq<Entry>, depth: nat)
    requires AdmittedEntry(e, depth) && forall x | x in rest :: Printable(x.key) && Printable(x.value)
    ensures ([e] + rest)[0] == e && ([e] + rest)[1..] == rest
    ensures PrintEntries([e] + rest) == Print(e.key) + Print(e.value) + PrintEntries(rest)
    ensures At(o, pos, PrintEntries([e] + rest)) <==>
      && At(o, pos, Print(e.key)) && At(o, pos + |Print(e.key)|, Print(e.value))
      && At(o, pos + |Print(e.key)| + |Print(e.value)|, PrintEntries(rest))
  {
    hide At, InDomain, Printable, Print;
    assert ([e] + rest)[1..] == rest;
    AtConcat(o, pos, Print(e.key) + Print(e.value), PrintEntries(rest));
    AtConcat(o, pos, Print(e.key), Print(e.value));
  }

  ghost predicate NewKeys(entries: seq<Entry>, depth: nat, keys: set<Bytes>) {
    DistinctKeys(entries) && forall e | e in entries :: AdmittedEntry(e, depth) && Print(e.key) !in keys
  }

  /** ...and for the keys. */
  lemma EntriesConsKeys(e: Entry, rest: seq<Entry>, depth: nat, keys: set<Bytes>)
    requires AdmittedEntry(e, depth) && Print(e.key) !in keys
    ensures NewKeys([e] + rest, depth, keys) <==> NewKeys(rest, depth, keys + {Print(e.key)})
  {
    hide InDomain, Printable, Print, KeyKind;
    var all := [e] + rest;
    if NewKeys(all, depth, keys) {
      forall i | 0 <= i < |rest| ensures AdmittedEntry(rest[i], depth) && Print(rest[i].key) !in keys + {Print(e.key)} {
        assert all[i + 1] == rest[i] && all[0] == e;
        if Print(rest[i].key) == Print(e.key) { KeyInjective(rest[i].key, e.key, depth); }
      }
      forall i, j | 0 <= i < j < |rest| ensures rest[i].key != rest[j].key {
        assert all[i + 1] == rest[i] && all[j + 1] == rest[j];
      }
    }
    if NewKeys(rest, depth, keys + {Print(e.key)}) {
      forall i, j | 0 <= i < j < |all| ensures all[i].key != all[j].key {
        assert all[j] == rest[j - 1];
        if i == 0 { assert Print(all[j].key) != Print(e.key); } else { assert all[i] == rest[i - 1]; }
      }
    }
  }

  // --------------------------------------------------- reading is standing

  /** What is read is what stands at the position: soundness... */
  lemma {:induction false} ItemSound(o: Bytes, pos: nat, depth: nat, outerTag: bool)
    requires depth <= MAX_DEPTH + 1 && ReadItem(o, pos, depth, outerTag).Some?
    ensures var r := ReadItem(o, pos, depth, outerTag).value; Stands(o, pos, r.value, r.end, depth, outerTag)
    decreases MAX_DEPTH + 1 - depth, 0
  {
    hide ReadHead, Head, At, ValidUtf8, Stands, InDomain, Printable, Print, ItemsStand, EntriesStand, ReadItems,
      ReadEntries;
    var r := ReadItem(o, pos, depth, outerTag).value;
    var head := ReadHead(o, pos).value;
    if head.major < 4 || head.major == 7 {
      LeafSound(o, pos, depth, outerTag);
    } else {
      HeadSound(o, pos);
      if head.major == 4 {
        ItemsSound(o, head.next, head.argument, depth + 1);
        ArrayStands(o, pos, r.value.items, r.end, depth, outerTag);
      } else if head.major == 5 {
        EntriesSound(o, head.next, head.argument, depth + 1, {});
        MapStands(o, pos, r.value.entries, r.end, depth, outerTag);
      } else {
        ItemSound(o, head.next, depth + 1, false);
        TagStands(o, pos, r.value.content, r.end, depth, outerTag);
      }
    }
  }

  lemma LeafSound(o: Bytes, pos: nat, depth: nat, outerTag: bool)
    requires depth <= MAX_DEPTH + 1 && ReadItem(o, pos, depth, outerTag).Some?
    requires var major := ReadHead(o, pos).value.major; major < 4 || major == 7
    ensures var r := ReadItem(o, pos, depth, outerTag).value; Stands(o, pos, r.value, r.end, depth, outerTag)
  {
    hide ReadHead, Head, At, ValidUtf8, Stands, InDomain, Printable, Print, ReadItems, ReadEntries;
    var r := ReadItem(o, pos, depth, outerTag).value;
    var head := ReadHead(o, pos).value;
    if head.major == 7 {
      SimpleRead(o, pos);
      SimpleStands(o, pos, head.info, r.end, depth, outerTag);
    } else {
      HeadSound(o, pos);
      if head.major <= 1 {
        IntStands(o, pos, r.value, r.end, depth, outerTag);
      } else {
        StringStands(o, pos, r.value, r.end, depth, outerTag);
        AtSlice(o, head.next, head.argument);
      }
    }
  }

  lemma AtSlice(o: Bytes, pos: nat, n: nat)
    requires pos + n <= |o|
    ensures At(o, pos, o[pos..pos + n])
  {}

  lemma SimpleRead(o: Bytes, pos: nat)
    requires ReadHead(o, pos).Some? && ReadHead(o, pos).value.major == 7
    ensures o[pos] == 0xE0 + ReadHead(o, pos).value.info
    ensures ReadHead(o, pos).value.info < 24 ==> ReadHead(o, pos).value.next == pos + 1
  {}

  lemma {:induction false} ItemsSound(o: Bytes, pos: nat, n: nat, depth: nat)
    requires depth <= MAX_DEPTH + 1 && pos <= |o| && ReadItems(o, pos, n, depth).Some?
    ensures var r := ReadItems(o, pos, n, depth).value; |r.value| == n && ItemsStand(o, pos, r.value, r.end, depth)
    decreases MAX_DEPTH + 1 - depth, n + 1
  {
    hide ReadItem, Stands, InDomain, Printable, Print, ItemsStand;
    if n == 0 {
      NothingStands(o, pos, depth, {});
    } else {
      var first := ReadItem(o, pos, depth, false).value;
      var rest := ReadItems(o, first.end, n - 1, depth).value;
      ItemSound(o, pos, depth, false);
      ItemsSound(o, first.end, n - 1, depth);
      StandsEnd(o, pos, first.value, first.end, depth, false);
      ItemsCons(o, pos, first.value, first.end, rest.value, rest.end, depth);
    }
  }

  lemma NothingStands(o: Bytes, pos: nat, depth: nat, keys: set<Bytes>)
    requires pos <= |o|
    ensures ItemsStand(o, pos, [], pos, depth) && EntriesStand(o, pos, [], pos, depth, keys)
  {}

  lemma StandsEnd(o: Bytes, pos: nat, v: Value, end: nat, depth: nat, outerTag: bool)
    requires Stands(o, pos, v, end, depth, outerTag)
    ensures Printable(v) && end == pos + |Print(v)| <= |o| && o[pos..end] == Print(v) && pos < end
  {}

  lemma {:induction false} EntriesSound(o: Bytes, pos: nat, n: nat, depth: nat, keys: set<Bytes>)
    requires depth <= MAX_DEPTH + 1 && pos <= |o| && ReadEntries(o, pos, n, depth, keys).Some?
    ensures var r := ReadEntries(o, pos, n, depth, keys).value;
      |r.value| == n && EntriesStand(o, pos, r.value, r.end, depth, keys)
    decreases MAX_DEPTH + 1 - depth, n + 1
  {
    hide ReadItem, Stands, InDomain, Printable, Print, EntriesStand, KeyKind;
    if n == 0 {
      NothingStands(o, pos, depth, keys);
    } else {
      var key := ReadItem(o, pos, depth, false).value;
      var value := ReadItem(o, key.end, depth, false).value;
      var rest := ReadEntries(o, value.end, n - 1, depth, keys + {o[pos..key.end]}).value;
      ItemSound(o, pos, depth, false);
      ItemSound(o, key.end, depth, false);
      StandsEnd(o, pos, key.value, key.end, depth, false);
      StandsEnd(o, key.end, value.value, value.end, depth, false);
      EntriesSound(o, value.end, n - 1, depth, keys + {o[pos..key.end]});
      KindRead(o, pos, depth);
      EntriesCons(o, pos, Entry(key.value, value.value), key.end, value.end, rest.value, rest.end, depth, keys);
    }
  }

  /** The major type alone says which kind of value is read. */
  lemma KindRead(o: Bytes, pos: nat, depth: nat)
    requires depth <= MAX_DEPTH + 1 && ReadItem(o, pos, depth, false).Some?
    ensures KeyKind(ReadItem(o, pos, depth, false).value.value) <==> o[pos] / 32 in {0, 1, 3}
  {
    hide ReadHead, ReadItems, ReadEntries, ValidUtf8;
  }

  /** ...and completeness. */
  lemma {:induction false} ItemComplete(o: Bytes, pos: nat, v: Value, end: nat, depth: nat, outerTag: bool)
    requires depth <= MAX_DEPTH + 1 && Stands(o, pos, v, end, depth, outerTag)
    ensures ReadItem(o, pos, depth, outerTag) == Some(Parsed(v, end))
    decreases v, 0
  {
    hide ReadHead, Head, At, ValidUtf8, Stands, InDomain, Printable, Print, ItemsStand, EntriesStand, ReadItems,
      ReadEntries;
    match v
    case Array(items) =>
      ArrayStands(o, pos, items, end, depth, outerTag);
      HeadComplete(o, pos, 4, |items|);
      ItemsComplete(o, pos + |Head(4, |items|)|, items, end, depth + 1);
    case Map(entries) =>
      MapStands(o, pos, entries, end, depth, outerTag);
      HeadComplete(o, pos, 5, |entries|);
      EntriesComplete(o, pos + |Head(5, |entries|)|, entries, end, depth + 1, {});
    case Sign1(content) =>
      TagStands(o, pos, content, end, depth, outerTag);
      HeadComplete(o, pos, 6, 18);
      ItemComplete(o, pos + |Head(6, 18)|, content, end, depth + 1, false);
    case _ => LeafComplete(o, pos, v, end, depth, outerTag);
  }

  lemma LeafComplete(o: Bytes, pos: nat, v: Value, end: nat, depth: nat, outerTag: bool)
    requires depth <= MAX_DEPTH + 1 && Stands(o, pos, v, end, depth, outerTag)
    requires v.UInt? || v.NInt? || v.ByteString? || v.Text? || v.Simple?
    ensures ReadItem(o, pos, depth, outerTag) == Some(Parsed(v, end))
  {
    hide ReadHead, Head, At, ValidUtf8, Stands, InDomain, Printable, Print, ReadItems, ReadEntries;
    if v.UInt? || v.NInt? {
      IntStands(o, pos, v, end, depth, outerTag);
      HeadComplete(o, pos, if v.UInt? then 0 else 1, v.n);
    } else if v.ByteString? || v.Text? {
      StringStands(o, pos, v, end, depth, outerTag);
      HeadComplete(o, pos, if v.Text? then 3 else 2, |v.bytes|);
      AtIsSlice(o, pos + |HeadOf(v)|, v.bytes);
    } else {
      SimpleStands(o, pos, v.code, end, depth, outerTag);
      SimpleWritten(o, pos, v.code);
    }
  }

  lemma AtIsSlice(o: Bytes, pos: nat, b: Bytes)
    requires At(o, pos, b)
    ensures pos + |b| <= |o| && o[pos..pos + |b|] == b
  {}

  lemma SimpleWritten(o: Bytes, pos: nat, code: nat)
    requires pos < |o| && o[pos] == 0xE0 + code && code < 24
    ensures ReadHead(o, pos) == Some(HeadAt(7, code, code, pos + 1))
  {}

  lemma {:induction false} ItemsComplete(o: Bytes, pos: nat, items: seq<Value>, end: nat, depth: nat)
    requires depth <= MAX_DEPTH + 1 && ItemsStand(o, pos, items, end, depth)
    ensures ReadItems(o, pos, |items|, depth) == Some(Parsed(items, end))
    decreases items, 1
  {
    if items == [] {
    } else {
      var x, rest := items[0], items[1..];
      assert items == [x] + rest;
      assert Printable(x);
      var mid := pos + |Print(x)|;
      hide ReadItem, Stands, InDomain, Printable, Print, ItemsStand;
      ItemsCons(o, pos, x, mid, rest, end, depth);
      ItemComplete(o, pos, x, mid, depth, false);
      ItemsComplete(o, mid, rest, end, depth);
    }
  }

  lemma {:induction false} EntriesComplete(o: Bytes, pos: nat, entries: seq<Entry>, end: nat, depth: nat,
      keys: set<Bytes>)
    requires depth <= MAX_DEPTH + 1 && EntriesStand(o, pos, entries, end, depth, keys)
    ensures ReadEntries(o, pos, |entries|, depth, keys) == Some(Parsed(entries, end))
    decreases entries, 1
  {
    if entries == [] {
    } else {
      var e, rest := entries[0], entries[1..];
      assert entries == [e] + rest;
      assert AdmittedEntry(e, depth);
      var mid := pos + |Print(e.key)|;
      var mid' := mid + |Print(e.value)|;
      hide ReadItem, Stands, InDomain, Printable, Print, EntriesStand, KeyKind, DistinctKeys;
      EntriesCons(o, pos, e, mid, mid', rest, end, depth, keys);
      EntryComplete(o, pos, e, mid, mid', depth);
      EntriesComplete(o, mid', rest, end, depth, keys + {Print(e.key)});
    }
  }

  lemma {:induction false} EntryComplete(o: Bytes, pos: nat, e: Entry, mid: nat, mid': nat, depth: nat)
    requires depth <= MAX_DEPTH + 1 && KeyKind(e.key)
    requires Stands(o, pos, e.key, mid, depth, false) && Stands(o, mid, e.value, mid', depth, false)
    ensures ReadItem(o, pos, depth, false) == Some(Parsed(e.key, mid))
    ensures ReadItem(o, mid, depth, false) == Some(Parsed(e.value, mid'))
    ensures Printable(e.key) && pos < |o| && mid <= |o| && o[pos] / 32 in {0, 1, 3} && o[pos..mid] == Print(e.key)
    decreases e, 0
  {
    hide ReadItem, Stands, InDomain, Printable, Print;
    ItemComplete(o, pos, e.key, mid, depth, false);
    ItemComplete(o, mid, e.value, mid', depth, false);
    StandsEnd(o, pos, e.key, mid, depth, false);
    KindRead(o, pos, depth);
  }

  // ---------------------------------------------------------- the theorems

  /** An octet string is one item of the rule. */
  predicate Accepted(o: Bytes, outerTag: bool) {
    ReadItem(o, 0, 0, outerTag).Some? && ReadItem(o, 0, 0, outerTag).value.end == |o|
  }

  ghost predicate IsPrintingOf(o: Bytes, v: Value, outerTag: bool) {
    InDomain(v, 0, outerTag) && Printable(v) && Print(v) == o
  }

  lemma PrintingStands(o: Bytes, v: Value, outerTag: bool)
    ensures IsPrintingOf(o, v, outerTag) <==> Stands(o, 0, v, |o|, 0, outerTag)
  {
    assert o[0..|o|] == o;
  }

  /** The rule accepts exactly the printings of the values in its domain. */
  lemma AcceptedIffPrinted(o: Bytes, outerTag: bool)
    ensures Accepted(o, outerTag) <==> exists v :: IsPrintingOf(o, v, outerTag)
  {
    hide ReadItem, Stands, IsPrintingOf;
    if Accepted(o, outerTag) {
      var v := ReadItem(o, 0, 0, outerTag).value.value;
      ItemSound(o, 0, 0, outerTag);
      PrintingStands(o, v, outerTag);
    }
    forall v | IsPrintingOf(o, v, outerTag) ensures Accepted(o, outerTag) {
      PrintingStands(o, v, outerTag);
      ItemComplete(o, 0, v, |o|, 0, outerTag);
    }
  }

  /** Decoding: printing and reading back gives the value. */
  lemma ReadBack(v: Value, outerTag: bool)
    requires InDomain(v, 0, outerTag)
    ensures Printable(v) && ReadItem(Print(v), 0, 0, outerTag) == Some(Parsed(v, |Print(v)|))
  {
    DomainPrintable(v, 0, outerTag);
    hide ReadItem, Stands, InDomain, Printable;
    PrintingStands(Print(v), v, outerTag) by { assert InDomain(v, 0, outerTag); }
    assert IsPrintingOf(Print(v), v, outerTag);
    ItemComplete(Print(v), 0, v, |Print(v)|, 0, outerTag);
  }

  /** No accepted string is a proper prefix of another, and the value is unique. */
  lemma PrefixFree(v: Value, w: Value, outerTag: bool)
    requires InDomain(v, 0, outerTag) && InDomain(w, 0, outerTag) && Printable(v) && Printable(w)
    requires Print(v) <= Print(w)
    ensures v == w
  {
    var o := Print(w);
    assert Stands(o, 0, v, |Print(v)|, 0, outerTag);
    PrintingStands(o, w, outerTag);
    hide ReadItem, Stands, InDomain, Printable, Print;
    ItemComplete(o, 0, v, |Print(v)|, 0, outerTag);
    ItemComplete(o, 0, w, |o|, 0, outerTag);
  }
}
