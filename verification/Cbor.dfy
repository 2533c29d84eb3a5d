/** The values the receipt encoding rule admits, their shortest-form printing, and
    the reading of one item at a position of an octet string. */
module Cbor {
  import opened Octets

  datatype Entry = Entry(key: Value, value: Value)

  datatype Value =
    | UInt(n: nat)            // major type 0
    | NInt(n: nat)            // major type 1, the integer -1 - n
    | ByteString(bytes: Bytes)
    | Text(bytes: Bytes)
    | Array(items: seq<Value>)
    | Map(entries: seq<Entry>)
    | Sign1(content: Value)   // tag 18
    | Simple(code: nat)       // false, true and null are 20, 21 and 22

  const MAX_DEPTH: nat := 16
  const TWO63: nat := 0x8000_0000_0000_0000
  const TWO64: nat := 0x1_0000_0000_0000_0000

  // ---------------------------------------------------------------- UTF-8

  /** Section 4 of RFC 3629. */
  predicate ValidUtf8(b: Bytes) {
    b == [] || (
      var n := Utf8Length(b);
      n > 0 && n <= |b| && ValidUtf8(b[n..]))
  }

  predicate IsTail(b: Byte) { 0x80 <= b <= 0xBF }

  /** Length of the well-formed sequence at the front, or 0. */
  function Utf8Length(b: Bytes): (n: nat)
    requires b != []
    ensures n <= |b|
  {
    if b[0] < 0x80 then 1
    else if |b| >= 2 && 0xC2 <= b[0] <= 0xDF && IsTail(b[1]) then 2
    else if |b| >= 3 && 0xE0 <= b[0] <= 0xEF && IsTail(b[1]) && IsTail(b[2])
      && (b[0] == 0xE0 ==> b[1] >= 0xA0) && (b[0] == 0xED ==> b[1] <= 0x9F) then 3
    else if |b| >= 4 && 0xF0 <= b[0] <= 0xF4 && IsTail(b[1]) && IsTail(b[2]) && IsTail(b[3])
      && (b[0] == 0xF0 ==> b[1] >= 0x90) && (b[0] == 0xF4 ==> b[1] <= 0x8F) then 4
    else 0
  }

  // ------------------------------------------------------------- printing

  /** Octets after the initial one, and the additional information that says so. */
  function ArgWidth(n: nat): nat {
    if n < 24 then 0 else if n < 0x100 then 1 else if n < 0x1_0000 then 2 else if n < 0x1_0000_0000 then 4 else 8
  }

  function ArgInfo(n: nat): (i: nat)
    ensures i < 28
  {
    if n < 24 then n else if n < 0x100 then 24 else if n < 0x1_0000 then 25 else if n < 0x1_0000_0000 then 26 else 27
  }

  function Head(major: nat, n: nat): (b: Bytes)
    requires major < 8
    ensures |b| == 1 + ArgWidth(n)
  {
    [32 * major + ArgInfo(n)] + BigEndian(n, ArgWidth(n))
  }

  function Print(v: Value): (b: Bytes)
    requires Printable(v)
    ensures |b| > 0
    decreases v
  {
    match v
    case UInt(n) => Head(0, n)
    case NInt(n) => Head(1, n)
    case ByteString(b) => Head(2, |b|) + b
    case Text(b) => Head(3, |b|) + b
    case Array(items) => Head(4, |items|) + PrintItems(items)
    case Map(entries) => Head(5, |entries|) + PrintEntries(entries)
    case Sign1(content) => Head(6, 18) + Print(content)
    case Simple(code) => [0xE0 + code]
  }

  function PrintItems(items: seq<Value>): Bytes
    requires forall v | v in items :: Printable(v)
    decreases items
  {
    if items == [] then [] else Print(items[0]) + PrintItems(items[1..])
  }

  function PrintEntries(entries: seq<Entry>): Bytes
    requires forall e | e in entries :: Printable(e.key) && Printable(e.value)
    decreases entries
  {
    if entries == [] then [] else PrintEntry(entries[0]) + PrintEntries(entries[1..])
  }

  function PrintEntry(e: Entry): Bytes
    requires Printable(e.key) && Printable(e.value)
    decreases e
  {
    Print(e.key) + Print(e.value)
  }

  /** Simple values fit their initial octet. */
  predicate Printable(v: Value)
    decreases v
  {
    match v
    case Array(items) => forall x | x in items :: Printable(x)
    case Map(entries) => forall e | e in entries :: Printable(e.key) && Printable(e.value)
    case Sign1(content) => Printable(content)
    case Simple(code) => code < 24
    case _ => true
  }

  // ----------------------------------------------------------- the domain

  predicate KeyKind(v: Value) { v.UInt? || v.NInt? || v.Text? }

  predicate DistinctKeys(entries: seq<Entry>) {
    forall i, j | 0 <= i < j < |entries| :: entries[i].key != entries[j].key
  }

  /** What the rule admits at nesting `depth`; `outerTag` admits tag 18 on top. */
  predicate InDomain(v: Value, depth: nat, outerTag: bool)
    decreases v
  {
    && depth <= MAX_DEPTH
    && match v
       case UInt(n) => n < TWO64
       case NInt(n) => n < TWO63
       case ByteString(b) => |b| < TWO64
       case Text(b) => |b| < TWO64 && ValidUtf8(b)
       case Array(items) => |items| < TWO64 && forall x | x in items :: InDomain(x, depth + 1, false)
       case Map(entries) =>
         && |entries| < TWO64 && DistinctKeys(entries)
         && forall e | e in entries ::
              KeyKind(e.key) && InDomain(e.key, depth + 1, false) && InDomain(e.value, depth + 1, false)
       case Sign1(content) => outerTag && depth == 0 && InDomain(content, depth + 1, false)
       case Simple(code) => 20 <= code <= 22
  }

  lemma DomainPrintable(v: Value, depth: nat, outerTag: bool)
    requires InDomain(v, depth, outerTag)
    ensures Printable(v)
    decreases v
  {
    match v
    case Array(items) =>
      forall x | x in items ensures Printable(x) { DomainPrintable(x, depth + 1, false); }
    case Map(entries) =>
      forall e | e in entries ensures Printable(e.key) && Printable(e.value) {
        DomainPrintable(e.key, depth + 1, false);
        DomainPrintable(e.value, depth + 1, false);
      }
    case Sign1(content) => DomainPrintable(content, depth + 1, false);
    case _ =>
  }

  // -------------------------------------------------------------- reading

  datatype HeadAt = HeadAt(major: nat, info: nat, argument: nat, next: nat)

  /** One head at pos: nothing when truncated, indefinite, reserved or not shortest. */
  function ReadHead(o: Bytes, pos: nat): (r: Option<HeadAt>)
    ensures r.Some? ==>
      && pos < r.value.next <= |o| && r.value.major < 8
      && r.value.major == o[pos] / 32 && r.value.info == o[pos] % 32
  {
    if pos >= |o| then None
    else
      var (major, info) := (o[pos] / 32, o[pos] % 32);
      if info < 24 then Some(HeadAt(major, info, info, pos + 1))
      else if info > 27 then None
      else
        var width := if info == 24 then 1 else if info == 25 then 2 else if info == 26 then 4 else 8;
        var smallest := if info == 24 then 24 else if info == 25 then 0x100 else if info == 26 then 0x1_0000
          else 0x1_0000_0000;
        if pos + 1 + width > |o| then None
        else
          var argument := FromBigEndian(o[pos + 1..pos + 1 + width]);
          if major != 7 && argument < smallest then None
          else Some(HeadAt(major, info, argument, pos + 1 + width))
  }

  datatype Parsed<T> = Parsed(value: T, end: nat)

  /** The item at pos, and the position after it. */
  function ReadItem(o: Bytes, pos: nat, depth: nat, outerTag: bool): (r: Option<Parsed<Value>>)
    requires depth <= MAX_DEPTH + 1
    ensures r.Some? ==> pos < r.value.end <= |o|
    decreases MAX_DEPTH + 1 - depth, 0
  {
    if depth > MAX_DEPTH || ReadHead(o, pos).None? then None
    else
      var HeadAt(major, info, argument, next) := ReadHead(o, pos).value;
      if major == 0 then Some(Parsed(UInt(argument), next))
      else if major == 1 then (if argument >= TWO63 then None else Some(Parsed(NInt(argument), next)))
      else if major == 2 || major == 3 then
        if argument > |o| - next then None
        else
          var b := o[next..next + argument];
          if major == 2 then Some(Parsed(ByteString(b), next + argument))
          else if ValidUtf8(b) then Some(Parsed(Text(b), next + argument)) else None
      else if major == 4 then
        var r := ReadItems(o, next, argument, depth + 1);
        if r.None? then None else Some(Parsed(Array(r.value.value), r.value.end))
      else if major == 5 then
        var r := ReadEntries(o, next, argument, depth + 1, {});
        if r.None? then None else Some(Parsed(Map(r.value.value), r.value.end))
      else if major == 6 then
        if !(outerTag && depth == 0 && argument == 18) then None
        else
          var r := ReadItem(o, next, depth + 1, false);
          if r.None? then None else Some(Parsed(Sign1(r.value.value), r.value.end))
      else if 20 <= info <= 22 then Some(Parsed(Simple(info), next)) else None
  }

  /** n items one after the other. */
  function ReadItems(o: Bytes, pos: nat, n: nat, depth: nat): (r: Option<Parsed<seq<Value>>>)
    requires depth <= MAX_DEPTH + 1
    ensures r.Some? ==> pos <= r.value.end && (pos <= |o| ==> r.value.end <= |o|)
    decreases MAX_DEPTH + 1 - depth, n + 1
  {
    if n == 0 then Some(Parsed([], pos))
    else
      var first := ReadItem(o, pos, depth, false);
      if first.None? then None
      else
        var rest := ReadItems(o, first.value.end, n - 1, depth);
        if rest.None? then None else Some(Parsed([first.value.value] + rest.value.value, rest.value.end))
  }

  /** n entries whose keys' octets are new. */
  function ReadEntries(o: Bytes, pos: nat, n: nat, depth: nat, keys: set<Bytes>): (r: Option<Parsed<seq<Entry>>>)
    requires depth <= MAX_DEPTH + 1
    ensures r.Some? ==> pos <= r.value.end && (pos <= |o| ==> r.value.end <= |o|)
    decreases MAX_DEPTH + 1 - depth, n + 1
  {
    if n == 0 then Some(Parsed([], pos))
    else if pos >= |o| || o[pos] / 32 !in {0, 1, 3} then None
    else
      var key := ReadItem(o, pos, depth, false);
      if key.None? || o[pos..key.value.end] in keys then None
      else
        var value := ReadItem(o, key.value.end, depth, false);
        if value.None? then None
        else
          var rest := ReadEntries(o, value.value.end, n - 1, depth, keys + {o[pos..key.value.end]});
          if rest.None? then None
          else Some(Parsed([Entry(key.value.value, value.value.value)] + rest.value.value, rest.value.end))
  }
}
