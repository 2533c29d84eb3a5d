/** The receipt encoding rule as it runs: a walk over the octets with counted loops
    and a set of seen keys. It decides what module Cbor reads, and never enters more
    items than there are octets left, plus one, whatever counts the input declares. */
module EncodingRule {
  import opened Octets
  import opened Cbor
  import opened CborRoundTrip
  import opened CborSizes

  const SIGN1_TAG: nat := 18

  method ReadHeadAt(octets: Bytes, start: nat) returns (r: Option<HeadAt>)
    ensures r == ReadHead(octets, start)
  {
    var pos := start;
    if pos >= |octets| { return None; }
    var initial := octets[pos];
    var major, info := initial / 32, initial % 32;
    pos := pos + 1;
    if info < 24 { return Some(HeadAt(major, info, info, pos)); }
    if info == 31 { return None; }
    if info !in {24, 25, 26, 27} { return None; }
    var width, smallest := 1, 24;
    if info == 25 { width, smallest := 2, 0x100; }
    if info == 26 { width, smallest := 4, 0x1_0000; }
    if info == 27 { width, smallest := 8, 0x1_0000_0000; }
    if pos + width > |octets| { return None; }
    var argument := FromBigEndian(octets[pos..pos + width]);
    if major != 7 && argument < smallest { return None; }
    return Some(HeadAt(major, info, argument, pos + width));
  }

  function EndOf<T>(r: Option<Parsed<T>>): Option<nat> {
    if r.Some? then Some(r.value.end) else None
  }

  method Item(octets: Bytes, start: nat, depth: nat, outerTag: bool) returns (r: Option<nat>, ghost calls: nat)
    requires start <= |octets| && depth <= MAX_DEPTH + 1
    ensures r == EndOf(ReadItem(octets, start, depth, outerTag))
    ensures r.Some? ==> calls <= r.value - start
    ensures calls <= |octets| - start + 1
    decreases MAX_DEPTH + 1 - depth, 0
  {
    hide ReadHead, ValidUtf8, ReadItems, ReadEntries, FromBigEndian;
    calls := 1;
    if depth > MAX_DEPTH { return None, calls; }
    var head := ReadHeadAt(octets, start);
    if head.None? { return None, calls; }
    var major, argument, pos := head.value.major, head.value.argument, head.value.next;
    if major == 0 { return Some(pos), calls; }
    if major == 1 {
      if argument >= TWO63 { return None, calls; }
      return Some(pos), calls;
    }
    if major == 2 || major == 3 {
      if argument > |octets| - pos { return None, calls; }
      var end := pos + argument;
      if major == 3 && !ValidUtf8(octets[pos..end]) { return None, calls; }
      return Some(end), calls;
    }
    if major == 4 {
      ghost var more;
      r, more := ArrayItems(octets, pos, argument, depth + 1);
      return r, calls + more;
    }
    if major == 5 {
      ghost var more;
      r, more := MapEntries(octets, pos, argument, depth + 1);
      return r, calls + more;
    }
    if major == 6 {
      if !(outerTag && depth == 0 && argument == SIGN1_TAG) { return None, calls; }
      ghost var more;
      r, more := Item(octets, pos, depth + 1, false);
      return r, calls + more;
    }
    var info := octets[start] % 32;
    SimpleArgument(octets, start);
    if info in {25, 26, 27} { return None, calls; }
    if argument !in {20, 21, 22} || info == 24 { return None, calls; }
    return Some(pos), calls;
  }

  lemma SimpleArgument(octets: Bytes, pos: nat)
    requires ReadHead(octets, pos).Some?
    ensures var r := ReadHead(octets, pos).value; r.info < 24 ==> r.argument == r.info
    ensures ReadHead(octets, pos).value.info < 28
  {
    hide FromBigEndian;
  }

  /** The loop over the items of an array. */
  method ArrayItems(octets: Bytes, start: nat, count: nat, depth: nat) returns (r: Option<nat>, ghost calls: nat)
    requires start <= |octets| && depth <= MAX_DEPTH + 1
    ensures r == EndOf(ReadItems(octets, start, count, depth))
    ensures r.Some? ==> calls <= r.value - start
    ensures calls <= |octets| - start + 1
    decreases MAX_DEPTH + 1 - depth, 1
  {
    hide ReadItem;
    calls := 0;
    var pos := start;
    for i := 0 to count
      invariant start <= pos <= |octets|
      invariant EndOf(ReadItems(octets, start, count, depth)) == EndOf(ReadItems(octets, pos, count - i, depth))
      invariant calls <= pos - start
    {
      var end, more := Item(octets, pos, depth, false);
      calls := calls + more;
      if end.None? { return None, calls; }
      pos := end.value;
    }
    return Some(pos), calls;
  }

  /** The loop over the entries of a map. */
  method MapEntries(octets: Bytes, start: nat, count: nat, depth: nat) returns (r: Option<nat>, ghost calls: nat)
    requires start <= |octets| && depth <= MAX_DEPTH + 1
    ensures r == EndOf(ReadEntries(octets, start, count, depth, {}))
    ensures r.Some? ==> calls <= r.value - start
    ensures calls <= |octets| - start + 1
    decreases MAX_DEPTH + 1 - depth, 1
  {
    hide ReadItem;
    calls := 0;
    var pos := start;
    var keys: set<Bytes> := {};
    for i := 0 to count
      invariant start <= pos <= |octets|
      invariant EndOf(ReadEntries(octets, start, count, depth, {}))
        == EndOf(ReadEntries(octets, pos, count - i, depth, keys))
      invariant calls <= pos - start
    {
      if pos >= |octets| { return None, calls; }
      if octets[pos] / 32 !in {0, 1, 3} { return None, calls; }
      var keyStart := pos;
      var keyEnd, more := Item(octets, pos, depth, false);
      calls := calls + more;
      if keyEnd.None? { return None, calls; }
      pos := keyEnd.value;
      var key := octets[keyStart..pos];
      if key in keys { return None, calls; }
      keys := keys + {key};
      var end, more' := Item(octets, pos, depth, false);
      calls := calls + more';
      if end.None? { return None, calls; }
      pos := end.value;
    }
    return Some(pos), calls;
  }

  /** One item of the rule and nothing after it. */
  method Check(octets: Bytes, outerTag: bool) returns (ok: bool)
    ensures ok <==> Accepted(octets, outerTag)
  {
    hide ReadItem;
    var end, _ := Item(octets, 0, 0, outerTag);
    return end == Some(|octets|);
  }

  // ------------------------------------------------------------- map order

  /** Map order is not checked: permuting the entries of an admitted map keeps it
      admitted and its printing as long. */
  lemma MapOrderFree(a: seq<Entry>, b: seq<Entry>, depth: nat, outerTag: bool)
    requires multiset(a) == multiset(b) && InDomain(Map(a), depth, outerTag)
    ensures InDomain(Map(b), depth, outerTag)
    ensures Printable(Map(a)) && Printable(Map(b)) && |Print(Map(a))| == |Print(Map(b))|
  {
    DomainPrintable(Map(a), depth, outerTag);
    assert |a| == |multiset(a)| == |multiset(b)| == |b|;
    forall x | x in b ensures x in a { assert x in multiset(b); }
    DistinctPermuted(a, b);
    DomainPrintable(Map(b), depth, outerTag);
    PermutedLength(a, b);
  }

  lemma DistinctPermuted(a: seq<Entry>, b: seq<Entry>)
    requires multiset(a) == multiset(b) && DistinctKeys(a)
    ensures DistinctKeys(b)
  {
    forall i, j | 0 <= i < j < |b| ensures b[i].key != b[j].key {
      assert b[i] in multiset(b) && b[j] in multiset(b);
      var k :| 0 <= k < |a| && a[k] == b[i];
      var l :| 0 <= l < |a| && a[l] == b[j];
      if k == l {
        TwiceIn(b, i, j);
        OnceIn(a, k);
      }
    }
  }

  lemma TwiceIn(b: seq<Entry>, i: nat, j: nat)
    requires i < j < |b| && b[i] == b[j]
    ensures multiset(b)[b[i]] >= 2
  {
    assert b == b[..j] + [b[j]] + b[j + 1..];
    assert b[i] in b[..j];
    assert multiset(b) == multiset(b[..j]) + multiset([b[j]]) + multiset(b[j + 1..]);
    assert multiset(b[..j])[b[i]] >= 1;
  }

  lemma OnceIn(a: seq<Entry>, k: nat)
    requires k < |a| && DistinctKeys(a)
    ensures multiset(a)[a[k]] == 1
  {
    assert a == a[..k] + [a[k]] + a[k + 1..];
    assert multiset(a) == multiset(a[..k]) + multiset([a[k]]) + multiset(a[k + 1..]);
    assert a[k] !in a[..k] && a[k] !in a[k + 1..];
    assert a[k] !in multiset(a[..k]) && a[k] !in multiset(a[k + 1..]);
  }
}
