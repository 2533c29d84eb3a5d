/** The Rust crate's octet walk, in u64 and a 64-bit usize. The shift-or of the source
    is a multiplication and an addition here, both checked to fit. */
module RustEncoding {
  import opened Octets
  import opened Cbor
  import opened FixedWidth
  import CborRoundTrip
  import Reference = EncodingRule

  const MAX_DEPTH_USIZE: uint64 := 16

  const COSE_SIGN1_TAG: uint64 := 18

  datatype Head = Head(major: uint64, info: uint64, argument: uint64, next: uint64)

  function Widened(r: Option<Head>): Option<HeadAt> {
    if r.None? then None
    else Some(HeadAt(r.value.major as nat, r.value.info as nat, r.value.argument as nat, r.value.next as nat))
  }

  /** A checked range of a slice. */
  function Get(octets: Slice<Byte>, from: uint64, to: uint64): (r: Option<Bytes>)
    ensures r.Some? <==> from <= to && to as int <= |octets|
  {
    if from <= to && to as int <= |octets| then Some(octets[from..to]) else None
  }

  method ReadHeadAt(octets: Slice<Byte>, start: uint64) returns (r: Option<Head>)
    ensures Widened(r) == ReadHead(octets, start as nat)
  {
    if start as int >= |octets| { return None; }
    var initial := octets[start];
    var major, info := (initial / 32) as uint64, (initial % 32) as uint64;
    var pos := start + 1;
    var width, smallest;
    match info {
      case 24 => width, smallest := 1, 24;
      case 25 => width, smallest := 2, 0x100;
      case 26 => width, smallest := 4, 0x1_0000;
      case 27 => width, smallest := 8, 0x1_0000_0000;
      case _ => return if info < 24 then Some(Head(major, info, info, pos)) else None;
    }
    var bytes := Get(octets, pos, pos + width);
    if bytes.None? { return None; }
    var argument: uint64 := 0;
    for i := 0 to |bytes.value|
      invariant argument as nat == FromBigEndian(bytes.value[..i])
    {
      NextOctet(bytes.value, i);
      argument := argument * 0x100 + bytes.value[i] as uint64;
    }
    assert bytes.value[..|bytes.value|] == bytes.value;
    if major != 7 && argument < smallest { return None; }
    return Some(Head(major, info, argument, pos + width));
  }

  function Position(r: Option<uint64>): Option<nat> {
    if r.None? then None else Some(r.value as nat)
  }

  method Item(octets: Slice<Byte>, start: uint64, depth: uint64, outerTag: bool) returns (r: Option<uint64>)
    requires start as int <= |octets| && depth <= MAX_DEPTH_USIZE + 1
    ensures Position(r) == Reference.EndOf(ReadItem(octets, start as nat, depth as nat, outerTag))
    decreases MAX_DEPTH + 1 - depth as nat, 0
  {
    hide ReadHead, ValidUtf8, ReadItems, ReadEntries, FromBigEndian;
    if depth > MAX_DEPTH_USIZE { return None; }
    var head := ReadHeadAt(octets, start);
    if head.None? { return None; }
    var Head(major, info, argument, pos) := head.value;
    if major == 2 || major == 3 {
      if argument > |octets| as uint64 - pos { return None; }
      var end := pos + argument;
      if major == 3 && !ValidUtf8(octets[pos..end]) { return None; }
      return Some(end);
    }
    match major {
      case 0 => return Some(pos);
      case 1 => return if argument >= 0x8000_0000_0000_0000 then None else Some(pos);
      case 4 => r := ArrayItems(octets, pos, argument, depth + 1);
      case 5 => r := MapEntries(octets, pos, argument, depth + 1);
      case 6 =>
        if !(outerTag && depth == 0 && argument == COSE_SIGN1_TAG) { return None; }
        r := Item(octets, pos, depth + 1, false);
      case _ => return if 20 <= info <= 22 then Some(pos) else None;
    }
  }

  method ArrayItems(octets: Slice<Byte>, start: uint64, argument: uint64, depth: uint64) returns (r: Option<uint64>)
    requires start as int <= |octets| && depth <= MAX_DEPTH_USIZE + 1
    ensures Position(r) == Reference.EndOf(ReadItems(octets, start as nat, argument as nat, depth as nat))
    decreases MAX_DEPTH + 1 - depth as nat, 1
  {
    hide ReadItem;
    var pos := start;
    for i: uint64 := 0 to argument
      invariant start <= pos && pos as int <= |octets|
      invariant Reference.EndOf(ReadItems(octets, start as nat, argument as nat, depth as nat))
             == Reference.EndOf(ReadItems(octets, pos as nat, (argument - i) as nat, depth as nat))
    {
      var next := Item(octets, pos, depth, false);
      if next.None? { return None; }
      pos := next.value;
    }
    return Some(pos);
  }

  method MapEntries(octets: Slice<Byte>, start: uint64, argument: uint64, depth: uint64) returns (r: Option<uint64>)
    requires start as int <= |octets| && depth <= MAX_DEPTH_USIZE + 1
    ensures Position(r) == Reference.EndOf(ReadEntries(octets, start as nat, argument as nat, depth as nat, {}))
    decreases MAX_DEPTH + 1 - depth as nat, 1
  {
    hide ReadItem;
    var pos := start;
    var keys: set<Bytes> := {};
    for i: uint64 := 0 to argument
      invariant start <= pos && pos as int <= |octets|
      invariant Reference.EndOf(ReadEntries(octets, start as nat, argument as nat, depth as nat, {}))
             == Reference.EndOf(ReadEntries(octets, pos as nat, (argument - i) as nat, depth as nat, keys))
    {
      if pos as int >= |octets| { return None; }
      if octets[pos] / 32 !in {0, 1, 3} { return None; }
      var keyStart := pos;
      var next := Item(octets, pos, depth, false);
      if next.None? { return None; }
      pos := next.value;
      if octets[keyStart..pos] in keys { return None; }
      keys := keys + {octets[keyStart..pos]};
      next := Item(octets, pos, depth, false);
      if next.None? { return None; }
      pos := next.value;
    }
    return Some(pos);
  }

  method Check(octets: Slice<Byte>, outerTag: bool) returns (ok: bool)
    ensures ok <==> CborRoundTrip.Accepted(octets, outerTag)
  {
    hide ReadItem;
    var end := Item(octets, 0, 0, outerTag);
    if end.None? { return false; }
    return end.value as int == |octets|;
  }
}
