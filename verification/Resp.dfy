/**
 The RESP wire format: values, their encoding, and what a buffer means.

 `Parse` is the meaning of a buffer as a function. An aggregate is a header
 (`ReadHead`) followed by its elements (`ParseElements`). The recursive-descent
 parser that walks a buffer with mutable offsets is in RespParser and is proved to
 compute this function.
 */
module Resp {
  import opened Bytes
  import opened Decimal

  const CR: byte := 13
  const LF: byte := 10
  const CRLF: bytes := [CR, LF]

  const SIMPLE: byte := 43
  const ERROR: byte := 45
  const INTEGER: byte := 58
  const BULK: byte := 36
  const ARRAY: byte := 42
  const PUSH: byte := 62
  const MAP: byte := 37

  const MAX_ARRAY_DEPTH: nat := 16
  const MAX_ARRAY_ELEMENTS: nat := 1_000_000
  const MAX_PAIRS: nat := 500_000
  const MAX_BULK_STRING_BYTES: nat := 67_108_864
  const MAX_TOTAL_MESSAGE_BYTES: nat := 67_108_864
  const MIN_ELEMENT_BYTES: nat := 3

  datatype Value =
    | SimpleString(text: bytes)
    | Error(text: bytes)
    | Integer(n: i64)
    | NullBulk
    | BulkString(data: bytes)
    | NullArray
    | Array(items: seq<Value>)
    | Push(items: seq<Value>)
    | Map(pairs: seq<Pair>)

  datatype Pair = Pair(key: Value, val: Value)

  datatype ParseError =
    | Incomplete(needed: nat)
    | InvalidType(tag: byte)
    | InvalidHeader(what: string)
    | TooLarge(what: string, declared: nat, max: nat)
    | DepthExceeded
    | MessageTooLarge

  // A parsed value with the number of bytes it took.
  datatype Result<+T> = Ok(value: T, len: nat) | Err(error: ParseError)

  predicate IsIncomplete<T>(r: Result<T>) {
    r.Err? && r.error.Incomplete?
  }

  // ── Encoding ────────────────────────────────────────────────────────────────

  function Serialize(v: Value): (s: bytes)
    ensures |s| >= MIN_ELEMENT_BYTES
    decreases v
  {
    match v
    case SimpleString(text) => [SIMPLE] + text + CRLF
    case Error(text) => [ERROR] + text + CRLF
    case Integer(n) => [INTEGER] + Format(n) + CRLF
    case NullBulk => [BULK, MINUS, ZERO + 1] + CRLF
    case BulkString(data) => [BULK] + Digits(|data|) + CRLF + (data + CRLF)
    case NullArray => [ARRAY, MINUS, ZERO + 1] + CRLF
    case Array(items) => [ARRAY] + Digits(|items|) + CRLF + SerializeAll(items)
    case Push(items) => [PUSH] + Digits(|items|) + CRLF + SerializeAll(items)
    case Map(pairs) => [MAP] + Digits(|pairs|) + CRLF + SerializePairs(pairs)
  }

  function SerializeAll(vs: seq<Value>): bytes
    decreases vs
  {
    if vs == [] then [] else Serialize(vs[0]) + SerializeAll(vs[1..])
  }

  function SerializePairs(pairs: seq<Pair>): bytes
    decreases pairs
  {
    if pairs == [] then []
    else SerializePair(pairs[0]) + SerializePairs(pairs[1..])
  }

  function SerializePair(pair: Pair): bytes
    decreases pair
  {
    Serialize(pair.key) + Serialize(pair.val)
  }

  // ── Headers ─────────────────────────────────────────────────────────────────

  predicate CrlfAt(b: bytes, i: nat) {
    i + 1 < |b| && b[i] == CR && b[i + 1] == LF
  }

  function FindCrlf(b: bytes, from: nat): (at: Option<nat>)
    ensures at.Some? ==> from <= at.value && CrlfAt(b, at.value)
    ensures at.Some? ==> forall i :: from <= i < at.value ==> !CrlfAt(b, i)
    ensures at.None? ==> forall i :: from <= i ==> !CrlfAt(b, i)
    decreases |b| - from
  {
    if from + 1 >= |b| then None
    else if CrlfAt(b, from) then Some(from)
    else FindCrlf(b, from + 1)
  }

  // The text between the type byte and the first CRLF, and where the rest begins.
  datatype Line = NoLine | Line(text: bytes, end: nat)

  function ReadLine(b: bytes): Line
    requires b != [] && b[0] != CR
  {
    match FindCrlf(b, 0)
    case None => NoLine
    case Some(i) => Line(b[1..i], i + 2)
  }

  // What a buffer starts with: a complete value without elements, an aggregate of
  // `count` elements that begin at `offset`, or a reason to stop. The total size is
  // checked after every `group` elements: each one, or each pair of a map.
  datatype Head =
    | Leaf(value: Value, len: nat)
    | Open(tag: byte, count: nat, group: nat, offset: nat)
    | Stop(error: ParseError)

  predicate OpensAggregate(tag: byte) {
    tag == ARRAY || tag == PUSH || tag == MAP
  }

  predicate KnownTag(tag: byte) {
    tag == SIMPLE || tag == ERROR || tag == INTEGER || tag == BULK || OpensAggregate(tag)
  }

  function ReadHead(b: bytes, depth: nat): Head {
    if b == [] then Stop(Incomplete(1))
    else if !KnownTag(b[0]) then Stop(InvalidType(b[0]))
    else if OpensAggregate(b[0]) && depth >= MAX_ARRAY_DEPTH then Stop(DepthExceeded)
    else
      match ReadLine(b)
      case NoLine => Stop(Incomplete(|b| + 1))
      case Line(text, end) => HeadOfLine(b, text, end)
  }

  function HeadOfLine(b: bytes, text: bytes, end: nat): Head
    requires b != []
  {
    if b[0] == SIMPLE then Leaf(SimpleString(text), end)
    else if b[0] == ERROR then Leaf(Error(text), end)
    else if b[0] == INTEGER then ReadInteger(ParseI64(text), end)
    else if b[0] == BULK then ReadBulk(b, ParseI64(text), end)
    else if b[0] == ARRAY then ReadArray(ParseI64(text), end)
    else if b[0] == PUSH then ReadPush(ParseU64(text), end)
    else ReadMap(ParseU64(text), end)
  }

  function ReadInteger(n: Option<i64>, end: nat): Head {
    if n.None? then Stop(InvalidHeader("Invalid integer format")) else Leaf(Integer(n.value), end)
  }

  function ReadArray(count: Option<i64>, end: nat): Head {
    if count.None? then Stop(InvalidHeader("Invalid array length"))
    else if count.value == -1 then Leaf(NullArray, end)
    else if count.value < 0 then Stop(InvalidHeader("Invalid array length"))
    else if count.value > MAX_ARRAY_ELEMENTS then Stop(TooLarge("array", count.value, MAX_ARRAY_ELEMENTS))
    else Open(ARRAY, count.value, 1, end)
  }

  function ReadPush(count: Option<nat>, end: nat): Head {
    if count.None? then Stop(InvalidHeader("Invalid push frame length"))
    else if count.value > MAX_ARRAY_ELEMENTS then Stop(TooLarge("push frame", count.value, MAX_ARRAY_ELEMENTS))
    else Open(PUSH, count.value, 1, end)
  }

  // Each pair is two values, so the element budget is halved.
  function ReadMap(count: Option<nat>, end: nat): Head {
    if count.None? then Stop(InvalidHeader("Invalid map length"))
    else if count.value > MAX_PAIRS then Stop(TooLarge("map", count.value, MAX_PAIRS))
    else Open(MAP, 2 * count.value, 2, end)
  }

  function ReadBulk(b: bytes, declared: Option<i64>, head: nat): Head {
    if declared.None? then Stop(InvalidHeader("Invalid bulk string length"))
    else if declared.value == -1 then Leaf(NullBulk, head)
    else if declared.value < 0 then Stop(InvalidHeader("Invalid bulk string length"))
    else if declared.value > MAX_BULK_STRING_BYTES then
      Stop(TooLarge("bulk string", declared.value, MAX_BULK_STRING_BYTES))
    else
      var end := head + declared.value + 2;
      if |b| < end then Stop(Incomplete(end))
      else if b[end - 2..end] != CRLF then
        Stop(InvalidHeader("bulk string payload is not terminated by CRLF"))
      else Leaf(BulkString(b[head..end - 2]), end)
  }

  // ── The meaning of a buffer ─────────────────────────────────────────────────

  function Paired(vs: seq<Value>): seq<Pair>
    requires |vs| % 2 == 0
  {
    if vs == [] then [] else [Pair(vs[0], vs[1])] + Paired(vs[2..])
  }

  function Flattened(pairs: seq<Pair>): seq<Value> {
    if pairs == [] then [] else [pairs[0].key, pairs[0].val] + Flattened(pairs[1..])
  }

  function Assembled(tag: byte, vs: seq<Value>): Value
    requires tag == MAP ==> |vs| % 2 == 0
  {
    if tag == MAP then Map(Paired(vs)) else if tag == PUSH then Push(vs) else Array(vs)
  }

  // A child's bound, seen from the enclosing aggregate: what it has consumed plus
  // the least its untouched elements can take.
  function Widen(e: ParseError, consumed: nat, outstanding: nat): ParseError {
    if e.Incomplete? then Incomplete(consumed + e.needed + MIN_ELEMENT_BYTES * outstanding) else e
  }

  function Parse(b: bytes, depth: nat): (r: Result<Value>)
    requires depth <= MAX_ARRAY_DEPTH
    ensures r.Ok? ==> MIN_ELEMENT_BYTES <= r.len <= |b|
    decreases MAX_ARRAY_DEPTH - depth, 1, 0
  {
    HeadInside(b, depth);
    match ReadHead(b, depth)
    case Leaf(v, len) => Ok(v, len)
    case Stop(e) => Err(e)
    case Open(tag, count, group, offset) => (
      match ParseElements(b, offset, depth + 1, count, group)
      case Err(e) => Err(e)
      case Ok(vs, end) => Ok(Assembled(tag, vs), end)
    )
  }

  function ParseElements(b: bytes, offset: nat, depth: nat, count: nat, group: nat): (r: Result<seq<Value>>)
    requires offset <= |b| && depth <= MAX_ARRAY_DEPTH && group > 0
    ensures r.Ok? ==> |r.value| == count && offset + MIN_ELEMENT_BYTES * count <= r.len <= |b|
    decreases MAX_ARRAY_DEPTH - depth, 2, count
  {
    if count == 0 then Ok([], offset)
    else
      match Parse(b[offset..], depth)
      case Err(e) => Err(Widen(e, offset, count - 1))
      case Ok(v, len) =>
        if (count - 1) % group == 0 && offset + len > MAX_TOTAL_MESSAGE_BYTES then Err(MessageTooLarge)
        else (
          match ParseElements(b, offset + len, depth, count - 1, group)
          case Err(e) => Err(e)
          case Ok(vs, end) => Ok([v] + vs, end)
        )
  }

  lemma HeadInside(b: bytes, depth: nat)
    ensures var h := ReadHead(b, depth);
      && (h.Leaf? ==> MIN_ELEMENT_BYTES <= h.len <= |b|)
      && (h.Open? ==> MIN_ELEMENT_BYTES < h.offset <= |b| && depth < MAX_ARRAY_DEPTH && h.group > 0 && (h.tag == MAP ==> h.count % 2 == 0))
  {
    hide ParseI64, ParseU64, HeadOfLine;
    if b != [] && KnownTag(b[0]) {
      var line := ReadLine(b);
      if line.Line? {
        assert 3 <= line.end <= |b| && (line.text != [] ==> line.end > 3);
        HeadOfLineInside(b, line.text, line.end);
      }
    }
  }

  lemma HeadOfLineInside(b: bytes, text: bytes, end: nat)
    requires b != [] && KnownTag(b[0]) && MIN_ELEMENT_BYTES <= end <= |b| && (text != [] ==> end > MIN_ELEMENT_BYTES)
    ensures var h := HeadOfLine(b, text, end);
      && (h.Leaf? ==> MIN_ELEMENT_BYTES <= h.len <= |b|)
      && (h.Open? ==> OpensAggregate(b[0]) && MIN_ELEMENT_BYTES < h.offset <= |b| && h.group > 0)
      && (h.Open? && h.tag == MAP ==> h.count % 2 == 0)
  {
    EmptyIsNoNumber();
    hide ParseI64, ParseU64;
  }

  lemma EmptyIsNoNumber()
    ensures ParseI64([]) == None && ParseU64([]) == None
  {
  }
}
