/** The Go verifier's octet walk, in int and uint64. The shift-or of the source is a
    multiplication and an addition here: both operands are checked to fit, so no bit
    is shifted out and none overlaps. */
module GoEncoding {
  import opened Octets
  import opened Cbor
  import opened FixedWidth
  import CborRoundTrip
  import Reference = EncodingRule

  const MAX_ENCODING_DEPTH: int64 := 16

  datatype Head = Head(major: int64, info: int64, argument: uint64, next: int64)

  function Widened(r: Option<Head>): Option<HeadAt>
    requires r.Some? ==> r.value.major >= 0 && r.value.info >= 0 && r.value.next >= 0
  {
    if r.None? then None
    else Some(HeadAt(r.value.major as nat, r.value.info as nat, r.value.argument as nat, r.value.next as nat))
  }

  method EncodingHead(octets: Slice<Byte>, start: int64) returns (r: Option<Head>)
    requires 0 <= start
    ensures r.Some? ==> 0 <= r.value.major < 8 && 0 <= r.value.info < 32 && start < r.value.next
    ensures Widened(r) == ReadHead(octets, start as nat)
  {
    var pos := start;
    if pos >= |octets| as int64 { return None; }
    var major, info := (octets[pos] / 32) as int64, (octets[pos] % 32) as int64;
    pos := pos + 1;
    var width: int64, smallest: uint64;
    if info < 24 {
      return Some(Head(major, info, info as uint64, pos));
    } else if info == 24 {
      width, smallest := 1, 24;
    } else if info == 25 {
      width, smallest := 2, 0x100;
    } else if info == 26 {
      width, smallest := 4, 0x1_0000;
    } else if info == 27 {
      width, smallest := 8, 0x1_0000_0000;
    } else if info == 31 {
      return None;
    } else {
      return None;
    }
    if width > |octets| as int64 - pos { return None; }
    var argument: uint64 := 0;
    var bytes := octets[pos..pos + width];
    for i := 0 to |bytes|
      invariant argument as nat == FromBigEndian(bytes[..i])
    {
      NextOctet(bytes, i);
      argument := argument * 0x100 + bytes[i] as uint64;
    }
    assert bytes[..|bytes|] == bytes;
    if major != 7 && argument < smallest { return None; }
    return Some(Head(major, info, argument, pos + width));
  }

  function Position(r: Option<int64>): Option<int> {
    if r.None? then None else Some(r.value as int)
  }

  method EncodingItem(octets: Slice<Byte>, start: int64, depth: int64, outerTag: bool) returns (r: Option<int64>)
    requires 0 <= start as int <= |octets| && 0 <= depth <= MAX_ENCODING_DEPTH + 1
    ensures Position(r) == Reference.EndOf(ReadItem(octets, start as nat, depth as nat, outerTag))
    decreases MAX_DEPTH + 1 - depth as nat, 0
  {
    hide ReadHead, ValidUtf8, ReadItems, ReadEntries, FromBigEndian;
    if depth > MAX_ENCODING_DEPTH { return None; }
    var head := EncodingHead(octets, start);
    if head.None? { return None; }
    var Head(major, info, argument, pos) := head.value;
    if major == 0 {
      return Some(pos);
    } else if major == 1 {
      if argument >= 0x8000_0000_0000_0000 { return None; }
      return Some(pos);
    } else if major == 2 || major == 3 {
      if argument > (|octets| as int64 - pos) as uint64 { return None; }
      var end := pos + argument as int64;
      if major == 3 && !ValidUtf8(octets[pos..end]) { return None; }
      return Some(end);
    } else if major == 4 {
      r := ArrayItems(octets, pos, argument, depth + 1);
    } else if major == 5 {
      r := MapEntries(octets, pos, argument, depth + 1);
    } else if major == 6 {
      if !(outerTag && depth == 0 && argument == 18) { return None; }
      r := EncodingItem(octets, pos, depth + 1, false);
    } else {
      if 25 <= info <= 27 { return None; }
      if 20 <= info <= 22 { return Some(pos); }
      return None;
    }
  }

  method ArrayItems(octets: Slice<Byte>, start: int64, argument: uint64, depth: int64) returns (r: Option<int64>)
    requires 0 <= start as int <= |octets| && 0 <= depth <= MAX_ENCODING_DEPTH + 1
    ensures Position(r) == Reference.EndOf(ReadItems(octets, start as nat, argument as nat, depth as nat))
    decreases MAX_DEPTH + 1 - depth as nat, 1
  {
    hide ReadItem;
    var pos := start;
    var i: uint64 := 0;
    while i < argument
      invariant i <= argument && start <= pos && pos as int <= |octets|
      invariant Reference.EndOf(ReadItems(octets, start as nat, argument as nat, depth as nat))
             == Reference.EndOf(ReadItems(octets, pos as nat, (argument - i) as nat, depth as nat))
      decreases argument as int - i as int
    {
      var next := EncodingItem(octets, pos, depth, false);
      if next.None? { return None; }
      pos := next.value;
      i := i + 1;
    }
    return Some(pos);
  }

  method MapEntries(octets: Slice<Byte>, start: int64, argument: uint64, depth: int64) returns (r: Option<int64>)
    requires 0 <= start as int <= |octets| && 0 <= depth <= MAX_ENCODING_DEPTH + 1
    ensures Position(r) == Reference.EndOf(ReadEntries(octets, start as nat, argument as nat, depth as nat, {}))
    decreases MAX_DEPTH + 1 - depth as nat, 1
  {
    hide ReadItem;
    var pos := start;
    var keys: set<Bytes> := {};
    var i: uint64 := 0;
    while i < argument
      invariant i <= argument && start <= pos && pos as int <= |octets|
      invariant Reference.EndOf(ReadEntries(octets, start as nat, argument as nat, depth as nat, {}))
             == Reference.EndOf(ReadEntries(octets, pos as nat, (argument - i) as nat, depth as nat, keys))
      decreases argument as int - i as int
    {
      if pos >= |octets| as int64 { return None; }
      var keyMajor := octets[pos] / 32;
      if keyMajor != 0 && keyMajor != 1 && keyMajor != 3 { return None; }
      var keyStart := pos;
      var next := EncodingItem(octets, pos, depth, false);
      if next.None? { return None; }
      pos := next.value;
      var key := octets[keyStart..pos];
      if key in keys { return None; }
      keys := keys + {key};
      next := EncodingItem(octets, pos, depth, false);
      if next.None? { return None; }
      pos := next.value;
      i := i + 1;
    }
    return Some(pos);
  }

  method CheckEncoding(octets: Slice<Byte>, outerTag: bool) returns (ok: bool)
    ensures ok <==> CborRoundTrip.Accepted(octets, outerTag)
  {
    hide ReadItem;
    var end := EncodingItem(octets, 0, 0, outerTag);
    return end.Some? && end.value == |octets| as int64;
  }
}
