/** Lengths of printings: parts against wholes, permutations, and how a bound on a
    printing bounds everything in it. */
module CborSizes {
  import opened Octets
  import opened Cbor

  // ------------------------------------------------------ parts and wholes

  lemma {:induction false} PartLength(items: seq<Value>, i: nat)
    requires i < |items| && forall x | x in items :: Printable(x)
    ensures |Print(items[i])| <= |PrintItems(items)|
    decreases |items|
  {
    hide Printable, Print;
    if i > 0 {
      assert forall x | x in items[1..] :: x in items;
      PartLength(items[1..], i - 1);
    }
  }

  lemma {:induction false} ItemCount(items: seq<Value>)
    requires forall x | x in items :: Printable(x)
    ensures |items| <= |PrintItems(items)|
    decreases |items|
  {
    hide Printable, Print;
    if items != [] {
      assert forall x | x in items[1..] :: x in items;
      ItemCount(items[1..]);
    }
  }

  lemma {:induction false} EntryLength(entries: seq<Entry>, i: nat)
    requires forall e | e in entries :: Printable(e.key) && Printable(e.value)
    ensures |entries| <= |PrintEntries(entries)|
    ensures i < |entries| ==> |Print(entries[i].key)| + |Print(entries[i].value)| <= |PrintEntries(entries)|
    decreases |entries|
  {
    hide Printable, Print;
    if entries != [] {
      assert forall e | e in entries[1..] :: e in entries;
      EntryLength(entries[1..], if i > 0 then i - 1 else 0);
    }
  }

  // ---------------------------------------------------------- permutations

  lemma SameItems<T>(a: seq<T>, b: seq<T>)
    requires multiset(a) == multiset(b)
    ensures |a| == |b| && forall x :: x in a <==> x in b
  {
    assert |a| == |multiset(a)| == |multiset(b)| == |b|;
    forall x ensures x in a <==> x in b {
      assert x in multiset(a) <==> x in multiset(b);
    }
  }

  lemma {:induction false} EntriesLength(before: seq<Entry>, e: Entry, after: seq<Entry>)
    requires forall x | x in before + [e] + after :: Printable(x.key) && Printable(x.value)
    ensures forall x | x in before + after :: Printable(x.key) && Printable(x.value)
    ensures |PrintEntries(before + [e] + after)| == |PrintEntry(e)| + |PrintEntries(before + after)|
    decreases before
  {
    hide Printable, Print, PrintEntry;
    var all := before + [e] + after;
    assert forall x | x in before + after :: x in all;
    if before == [] {
      assert all[0] == e && all[1..] == after && before + after == after;
    } else {
      assert all[0] == before[0] && all[1..] == before[1..] + [e] + after;
      assert (before + after)[0] == before[0] && (before + after)[1..] == before[1..] + after;
      assert forall x | x in all[1..] :: x in all;
      EntriesLength(before[1..], e, after);
    }
  }

  lemma {:induction false} PermutedLength(a: seq<Entry>, b: seq<Entry>)
    requires multiset(a) == multiset(b)
    requires forall x | x in a :: Printable(x.key) && Printable(x.value)
    ensures forall x | x in b :: Printable(x.key) && Printable(x.value)
    ensures |a| == |b| && |PrintEntries(a)| == |PrintEntries(b)|
    decreases |a|
  {
    hide Printable, Print;
    assert |a| == |multiset(a)| == |multiset(b)| == |b|;
    forall x | x in b ensures x in a { assert x in multiset(b); }
    if a != [] {
      var k := RemoveFirst(a, b);
      assert forall x | x in a[1..] :: x in a;
      SplitAround(b, k);
      assert a == [] + [a[0]] + a[1..] && [] + a[1..] == a[1..];
      EntriesLength([], a[0], a[1..]);
      EntriesLength(b[..k], b[k], b[k + 1..]);
      PermutedLength(a[1..], b[..k] + b[k + 1..]);
    }
  }

  lemma RemoveFirst<T>(a: seq<T>, b: seq<T>) returns (k: nat)
    requires a != [] && multiset(a) == multiset(b)
    ensures k < |b| && b[k] == a[0]
    ensures multiset(a[1..]) == multiset(b[..k] + b[k + 1..])
  {
    assert a[0] in multiset(b);
    k :| 0 <= k < |b| && b[k] == a[0];
    var rest := b[..k] + b[k + 1..];
    assert b == b[..k] + [a[0]] + b[k + 1..];
    assert multiset(b) == multiset(rest) + multiset{a[0]};
    assert a == [a[0]] + a[1..];
    assert multiset(a) == multiset(a[1..]) + multiset{a[0]};
    assert multiset(rest) == multiset(b) - multiset{a[0]};
    assert multiset(a[1..]) == multiset(a) - multiset{a[0]};
  }

  lemma {:induction false} ItemsLength(before: seq<Value>, x: Value, after: seq<Value>)
    requires forall y | y in before + [x] + after :: Printable(y)
    ensures forall y | y in before + after :: Printable(y)
    ensures |PrintItems(before + [x] + after)| == |Print(x)| + |PrintItems(before + after)|
    decreases before
  {
    hide Printable, Print;
    var all := before + [x] + after;
    assert forall y | y in before + after :: y in all;
    assert x in all;
    if before == [] {
      assert all[0] == x && all[1..] == after && before + after == after;
    } else {
      assert all[0] == before[0] && all[1..] == before[1..] + [x] + after;
      assert (before + after)[0] == before[0] && (before + after)[1..] == before[1..] + after;
      assert forall y | y in all[1..] :: y in all;
      ItemsLength(before[1..], x, after);
    }
  }

  lemma {:induction false} PermutedItemsLength(a: seq<Value>, b: seq<Value>)
    requires multiset(a) == multiset(b) && forall x | x in a :: Printable(x)
    ensures forall x | x in b :: Printable(x)
    ensures |PrintItems(a)| == |PrintItems(b)|
    decreases |a|
  {
    hide Printable, Print;
    SameItems(a, b);
    if a != [] {
      var k := RemoveFirst(a, b);
      assert forall x | x in a[1..] :: x in a;
      SplitAround(b, k);
      assert a == [] + [a[0]] + a[1..] && [] + a[1..] == a[1..];
      ItemsLength([], a[0], a[1..]);
      ItemsLength(b[..k], b[k], b[k + 1..]);
      PermutedItemsLength(a[1..], b[..k] + b[k + 1..]);
    }
  }

  // -------------------------------------------------- short, so in domain

  /** InDomain without the bounds on lengths, which a bound on the printing implies. */
  predicate WellShaped(v: Value, depth: nat, outerTag: bool)
    decreases v
  {
    && depth <= MAX_DEPTH
    && match v
       case UInt(n) => n < TWO64
       case NInt(n) => n < TWO63
       case ByteString(b) => true
       case Text(b) => ValidUtf8(b)
       case Array(items) => forall x | x in items :: WellShaped(x, depth + 1, false)
       case Map(entries) =>
         && DistinctKeys(entries)
         && forall e | e in entries ::
              KeyKind(e.key) && WellShaped(e.key, depth + 1, false) && WellShaped(e.value, depth + 1, false)
       case Sign1(content) => outerTag && depth == 0 && WellShaped(content, depth + 1, false)
       case Simple(code) => 20 <= code <= 22
  }

  lemma {:induction false} WellShapedPrintable(v: Value, depth: nat, outerTag: bool)
    requires WellShaped(v, depth, outerTag)
    ensures Printable(v)
    decreases v
  {
    match v
    case Array(items) =>
      forall x | x in items ensures Printable(x) { WellShapedPrintable(x, depth + 1, false); }
    case Map(entries) =>
      forall e | e in entries ensures Printable(e.key) && Printable(e.value) {
        WellShapedPrintable(e.key, depth + 1, false);
        WellShapedPrintable(e.value, depth + 1, false);
      }
    case Sign1(content) => WellShapedPrintable(content, depth + 1, false);
    case _ =>
  }

  /** A well-shaped value with a short printing is in the domain. */
  lemma {:induction false} ShortInDomain(v: Value, depth: nat, outerTag: bool)
    requires WellShaped(v, depth, outerTag) && Printable(v) && |Print(v)| < TWO64
    ensures InDomain(v, depth, outerTag)
    decreases v
  {
    hide Head, ValidUtf8, PrintItems, PrintEntries, DistinctKeys;
    match v
    case Array(items) =>
      ItemCount(items);
      forall x | x in items ensures InDomain(x, depth + 1, false) {
        var i :| 0 <= i < |items| && items[i] == x;
        PartLength(items, i);
        ShortInDomain(x, depth + 1, false);
      }
    case Map(entries) =>
      EntryLength(entries, 0);
      forall e | e in entries ensures InDomain(e.key, depth + 1, false) && InDomain(e.value, depth + 1, false) {
        var i :| 0 <= i < |entries| && entries[i] == e;
        EntryLength(entries, i);
        ShortInDomain(e.key, depth + 1, false);
        ShortInDomain(e.value, depth + 1, false);
      }
    case Sign1(content) => ShortInDomain(content, depth + 1, false);
    case _ =>
  }
}
