/**
 The recursive-descent parser and the serializer, as the engine runs them.

 One walk serves parsing and measuring: with `build` off it validates and counts
 but constructs nothing. Every method is proved to compute `Resp.Parse`, so the two
 modes cannot disagree.
 */
module RespParser {
  import opened Bytes
  import opened Decimal
  import opened Resp

  function Measured(r: Result<Value>, build: bool): Result<Option<Value>> {
    match r
    case Ok(v, len) => Ok(if build then Some(v) else None, len)
    case Err(e) => Err(e)
  }

  function Prepended(vs: seq<Value>, r: Result<seq<Value>>): Result<seq<Value>> {
    if r.Ok? then Ok(vs + r.value, r.len) else r
  }

  method ReadUntilCrlf(buffer: bytes) returns (line: Line)
    requires buffer != [] && buffer[0] != CR
    ensures line == ReadLine(buffer)
  {
    for i := 0 to |buffer| - 1
      invariant forall j :: 0 <= j < i ==> !CrlfAt(buffer, j)
    {
      if buffer[i] == CR && buffer[i + 1] == LF {
        assert CrlfAt(buffer, i);
        return Line(buffer[1..i], i + 2);
      }
    }
    return NoLine;
  }

  method ParseText(buffer: bytes, build: bool) returns (r: Result<Option<Value>>)
    requires buffer != [] && (buffer[0] == SIMPLE || buffer[0] == ERROR)
    ensures r == Measured(Parse(buffer, 0), build)
    ensures forall depth :: 0 <= depth <= MAX_ARRAY_DEPTH ==> r == Measured(Parse(buffer, depth), build)
  {
    var line := ReadUntilCrlf(buffer);
    match line
    case NoLine => r := Err(Incomplete(|buffer| + 1));
    case Line(text, end) =>
      var v := if buffer[0] == SIMPLE then SimpleString(text) else Error(text);
      r := Ok(if build then Some(v) else None, end);
  }

  method ParseInteger(buffer: bytes, build: bool) returns (r: Result<Option<Value>>)
    requires buffer != [] && buffer[0] == INTEGER
    ensures forall depth :: 0 <= depth <= MAX_ARRAY_DEPTH ==> r == Measured(Parse(buffer, depth), build)
  {
    var line := ReadUntilCrlf(buffer);
    if line.NoLine? {
      return Err(Incomplete(|buffer| + 1));
    }
    var n := ParseI64(line.text);
    if n.None? {
      return Err(InvalidHeader("Invalid integer format"));
    }
    r := Ok(if build then Some(Integer(n.value)) else None, line.end);
  }

  method ParseBulkString(buffer: bytes, build: bool) returns (r: Result<Option<Value>>)
    requires buffer != [] && buffer[0] == BULK
    ensures forall depth :: 0 <= depth <= MAX_ARRAY_DEPTH ==> r == Measured(Parse(buffer, depth), build)
  {
    var line := ReadUntilCrlf(buffer);
    if line.NoLine? {
      return Err(Incomplete(|buffer| + 1));
    }
    var length, head := ParseI64(line.text), line.end;
    if length.None? {
      return Err(InvalidHeader("Invalid bulk string length"));
    }
    if length.value == -1 {
      return Ok(if build then Some(NullBulk) else None, head);
    }
    if length.value < 0 {
      return Err(InvalidHeader("Invalid bulk string length"));
    }
    if length.value > MAX_BULK_STRING_BYTES {
      return Err(TooLarge("bulk string", length.value, MAX_BULK_STRING_BYTES));
    }
    var end := head + length.value + 2;
    if |buffer| < end {
      return Err(Incomplete(end));
    }
    if buffer[head + length.value..end] != CRLF {
      return Err(InvalidHeader("bulk string payload is not terminated by CRLF"));
    }
    r := Ok(if build then Some(BulkString(buffer[head..head + length.value])) else None, end);
  }

  // Taking one more element off the front of what is still to parse.
  lemma TakeElement(b: bytes, offset: nat, depth: nat, count: nat, group: nat, vs: seq<Value>)
    requires offset <= |b| && depth <= MAX_ARRAY_DEPTH && group > 0 && count > 0
    ensures var first := Parse(b[offset..], depth);
      var r := Prepended(vs, ParseElements(b, offset, depth, count, group));
      if first.Err? then r == Err(Widen(first.error, offset, count - 1))
      else if (count - 1) % group == 0 && offset + first.len > MAX_TOTAL_MESSAGE_BYTES then r == Err(MessageTooLarge)
      else r == Prepended(vs + [first.value], ParseElements(b, offset + first.len, depth, count - 1, group))
  {
    hide Parse;
    var first := Parse(b[offset..], depth);
    if first.Ok? {
      var others := ParseElements(b, offset + first.len, depth, count - 1, group);
      if others.Ok? {
        assert vs + ([first.value] + others.value) == vs + [first.value] + others.value;
      }
    }
  }

  // The element loop of arrays and pushes.
  method ParseSequence(buffer: bytes, start: nat, depth: nat, count: nat, build: bool)
    returns (r: Result<seq<Value>>, ghost vs: seq<Value>)
    requires start <= |buffer| && depth <= MAX_ARRAY_DEPTH
    ensures var whole := ParseElements(buffer, start, depth, count, 1);
      if whole.Ok? then vs == whole.value && r == Ok(if build then vs else [], whole.len)
      else r == whole
    decreases MAX_ARRAY_DEPTH - depth, 2
  {
    hide Parse, ParseElements;
    var arr: seq<Value> := [];
    var offset: nat := start;
    vs := [];
    Prepending(ParseElements(buffer, start, depth, count, 1));
    for i := 0 to count
      invariant offset <= |buffer|
      invariant arr == if build then vs else []
      invariant ParseElements(buffer, start, depth, count, 1)
        == Prepended(vs, ParseElements(buffer, offset, depth, count - i, 1))
    {
      TakeElement(buffer, offset, depth, count - i, 1, vs);
      var element := ParseInner(buffer[offset..], depth, build);
      if element.Err? {
        return Err(Widen(element.error, offset, count - i - 1)), vs;
      }
      vs := vs + [Parse(buffer[offset..], depth).value];
      if element.value.Some? {
        arr := arr + [element.value.value];
      }
      offset := offset + element.len;
      if offset > MAX_TOTAL_MESSAGE_BYTES {
        return Err(MessageTooLarge), vs;
      }
    }
    NoElements(buffer, offset, depth, 1, vs);
    r := Ok(arr, offset);
  }

  lemma Prepending(r: Result<seq<Value>>)
    ensures r == Prepended([], r)
  {
    if r.Ok? { assert [] + r.value == r.value; }
  }

  lemma NoElements(b: bytes, offset: nat, depth: nat, group: nat, vs: seq<Value>)
    requires offset <= |b| && depth <= MAX_ARRAY_DEPTH && group > 0
    ensures Prepended(vs, ParseElements(b, offset, depth, 0, group)) == Ok(vs, offset)
  {
    assert vs + [] == vs;
  }

  // From the header of an aggregate to its meaning.
  lemma AfterHead(b: bytes, depth: nat, tag: byte, count: nat, group: nat, offset: nat)
    requires depth < MAX_ARRAY_DEPTH && group > 0 && offset <= |b| && (tag == MAP ==> count % 2 == 0)
    requires ReadHead(b, depth) == Open(tag, count, group, offset)
    ensures var whole := ParseElements(b, offset, depth + 1, count, group);
      Parse(b, depth) == if whole.Ok? then Ok(Assembled(tag, whole.value), whole.len) else Err(whole.error)
  {
    hide ReadHead, ParseElements;
  }

  method ParseArray(buffer: bytes, depth: nat, build: bool) returns (r: Result<Option<Value>>)
    requires depth <= MAX_ARRAY_DEPTH && buffer != [] && buffer[0] == ARRAY
    ensures r == Measured(Parse(buffer, depth), build)
    decreases MAX_ARRAY_DEPTH - depth, 0
  {
    HeadInside(buffer, depth);
    hide ReadLine, ParseI64, ParseU64;
    if depth >= MAX_ARRAY_DEPTH {
      return Err(DepthExceeded);
    }
    var line := ReadUntilCrlf(buffer);
    if line.NoLine? {
      return Err(Incomplete(|buffer| + 1));
    }
    var count := ParseI64(line.text);
    if count.None? {
      return Err(InvalidHeader("Invalid array length"));
    }
    if count.value == -1 {
      return Ok(if build then Some(NullArray) else None, line.end);
    }
    if count.value < 0 {
      return Err(InvalidHeader("Invalid array length"));
    }
    if count.value > MAX_ARRAY_ELEMENTS {
      return Err(TooLarge("array", count.value, MAX_ARRAY_ELEMENTS));
    }
    AfterHead(buffer, depth, ARRAY, count.value, 1, line.end);
    hide ReadHead, Parse, ParseElements;
    var elements, vs := ParseSequence(buffer, line.end, depth + 1, count.value, build);
    if elements.Err? {
      return Err(elements.error);
    }
    r := Ok(if build then Some(Array(elements.value)) else None, elements.len);
  }

  method ParsePush(buffer: bytes, depth: nat, build: bool) returns (r: Result<Option<Value>>)
    requires depth <= MAX_ARRAY_DEPTH && buffer != [] && buffer[0] == PUSH
    ensures r == Measured(Parse(buffer, depth), build)
    decreases MAX_ARRAY_DEPTH - depth, 0
  {
    HeadInside(buffer, depth);
    hide ReadLine, ParseI64, ParseU64;
    if depth >= MAX_ARRAY_DEPTH {
      return Err(DepthExceeded);
    }
    var line := ReadUntilCrlf(buffer);
    if line.NoLine? {
      return Err(Incomplete(|buffer| + 1));
    }
    var count := ParseU64(line.text);
    if count.None? {
      return Err(InvalidHeader("Invalid push frame length"));
    }
    if count.value > MAX_ARRAY_ELEMENTS {
      return Err(TooLarge("push frame", count.value, MAX_ARRAY_ELEMENTS));
    }
    AfterHead(buffer, depth, PUSH, count.value, 1, line.end);
    hide ReadHead, Parse, ParseElements;
    var elements, vs := ParseSequence(buffer, line.end, depth + 1, count.value, build);
    if elements.Err? {
      return Err(elements.error);
    }
    r := Ok(if build then Some(Push(elements.value)) else None, elements.len);
  }

  // The pair loop of maps. The size is checked once per pair, and a key still owes
  // its value when it is cut short.
  method ParsePairs(buffer: bytes, start: nat, depth: nat, count: nat, build: bool)
    returns (r: Result<seq<Pair>>)
    requires start <= |buffer| && depth <= MAX_ARRAY_DEPTH
    ensures var whole := ParseElements(buffer, start, depth, 2 * count, 2);
      if whole.Ok? then r == Ok(if build then Paired(whole.value) else [], whole.len)
      else r == Err(whole.error)
    decreases MAX_ARRAY_DEPTH - depth, 2
  {
    hide Parse, ParseElements;
    var pairs: seq<Pair> := [];
    var offset: nat := start;
    ghost var vs: seq<Value> := [];
    Prepending(ParseElements(buffer, start, depth, 2 * count, 2));
    for i := 0 to count
      invariant offset <= |buffer| && |vs| == 2 * i
      invariant pairs == if build then Paired(vs) else []
      invariant ParseElements(buffer, start, depth, 2 * count, 2)
        == Prepended(vs, ParseElements(buffer, offset, depth, 2 * (count - i), 2))
    {
      var after := (count - i - 1) * 2;
      TakeElement(buffer, offset, depth, after + 2, 2, vs);
      var k := ParseInner(buffer[offset..], depth, build);
      if k.Err? {
        return Err(Widen(k.error, offset, after + 1));
      }
      ghost var key := Parse(buffer[offset..], depth).value;
      offset := offset + k.len;
      TakeElement(buffer, offset, depth, after + 1, 2, vs + [key]);
      var v := ParseInner(buffer[offset..], depth, build);
      if v.Err? {
        return Err(Widen(v.error, offset, after));
      }
      ghost var val := Parse(buffer[offset..], depth).value;
      offset := offset + v.len;
      if k.value.Some? && v.value.Some? {
        pairs := pairs + [Pair(k.value.value, v.value.value)];
      }
      if offset > MAX_TOTAL_MESSAGE_BYTES {
        return Err(MessageTooLarge);
      }
      PairedAppend(vs, key, val);
      vs := vs + [key] + [val];
    }
    NoElements(buffer, offset, depth, 2, vs);
    r := Ok(pairs, offset);
  }

  lemma {:induction false} PairedAppend(vs: seq<Value>, k: Value, v: Value)
    requires |vs| % 2 == 0
    ensures Paired(vs + [k] + [v]) == Paired(vs) + [Pair(k, v)]
    decreases |vs|
  {
    var longer := vs + [k] + [v];
    if vs == [] {
      assert longer[2..] == [];
    } else {
      assert longer[2..] == vs[2..] + [k] + [v];
      PairedAppend(vs[2..], k, v);
    }
  }

  method ParseMap(buffer: bytes, depth: nat, build: bool) returns (r: Result<Option<Value>>)
    requires depth <= MAX_ARRAY_DEPTH && buffer != [] && buffer[0] == MAP
    ensures r == Measured(Parse(buffer, depth), build)
    decreases MAX_ARRAY_DEPTH - depth, 0
  {
    HeadInside(buffer, depth);
    hide ReadLine, ParseI64, ParseU64;
    if depth >= MAX_ARRAY_DEPTH {
      return Err(DepthExceeded);
    }
    var line := ReadUntilCrlf(buffer);
    if line.NoLine? {
      return Err(Incomplete(|buffer| + 1));
    }
    var count := ParseU64(line.text);
    if count.None? {
      return Err(InvalidHeader("Invalid map length"));
    }
    if count.value > MAX_PAIRS {
      return Err(TooLarge("map", count.value, MAX_PAIRS));
    }
    AfterHead(buffer, depth, MAP, 2 * count.value, 2, line.end);
    hide ReadHead, Parse, ParseElements;
    var pairs := ParsePairs(buffer, line.end, depth + 1, count.value, build);
    if pairs.Err? {
      return Err(pairs.error);
    }
    r := Ok(if build then Some(Map(pairs.value)) else None, pairs.len);
  }

  method ParseInner(buffer: bytes, depth: nat, build: bool) returns (r: Result<Option<Value>>)
    requires depth <= MAX_ARRAY_DEPTH
    ensures r == Measured(Parse(buffer, depth), build)
    decreases MAX_ARRAY_DEPTH - depth, 1
  {
    if buffer == [] {
      return Err(Incomplete(1));
    }
    var tag := buffer[0];
    if tag == SIMPLE || tag == ERROR {
      r := ParseText(buffer, build);
    } else if tag == INTEGER {
      r := ParseInteger(buffer, build);
    } else if tag == BULK {
      r := ParseBulkString(buffer, build);
    } else if tag == ARRAY {
      r := ParseArray(buffer, depth, build);
    } else if tag == PUSH {
      r := ParsePush(buffer, depth, build);
    } else if tag == MAP {
      r := ParseMap(buffer, depth, build);
    } else {
      r := Err(InvalidType(tag));
    }
  }

  method ParseFrame(buffer: bytes) returns (r: Result<Value>)
    ensures r == Parse(buffer, 0)
  {
    var inner := ParseInner(buffer, 0, true);
    hide Parse;
    match inner
    case Err(e) => r := Err(e);
    case Ok(v, n) =>
      if v.Some? {
        r := Ok(v.value, n);
      } else {
        assert false;
        r := Err(InvalidHeader("internal: frame not built"));
      }
  }

  // The same walk without building: the length of the frame, or the same error.
  method FrameLen(buffer: bytes) returns (r: Result<()>)
    ensures var whole := Parse(buffer, 0);
      r == if whole.Ok? then Ok((), whole.len) else Err(whole.error)
  {
    var inner := ParseInner(buffer, 0, false);
    hide Parse;
    r := if inner.Ok? then Ok((), inner.len) else Err(inner.error);
  }

  class ByteBuffer {
    var data: bytes

    constructor ()
      ensures data == []
    {
      data := [];
    }
  }

  method SerializeInto(v: Value, out: ByteBuffer)
    modifies out
    ensures out.data == old(out.data) + Serialize(v)
    decreases v
  {
    hide Digits, Format, SerializeAll, SerializePairs;
    match v {
      case SimpleString(text) =>
        out.data := out.data + ([SIMPLE] + text + CRLF);
      case Error(text) =>
        out.data := out.data + ([ERROR] + text + CRLF);
      case Integer(n) =>
        out.data := out.data + ([INTEGER] + Format(n) + CRLF);
      case NullBulk =>
        out.data := out.data + ([BULK, MINUS, ZERO + 1] + CRLF);
      case BulkString(data) =>
        out.data := out.data + ([BULK] + Digits(|data|) + CRLF);
        out.data := out.data + (data + CRLF);
      case NullArray =>
        out.data := out.data + ([ARRAY, MINUS, ZERO + 1] + CRLF);
      case Array(items) =>
        out.data := out.data + ([ARRAY] + Digits(|items|) + CRLF);
        SerializeItems(items, out);
      case Push(items) =>
        out.data := out.data + ([PUSH] + Digits(|items|) + CRLF);
        SerializeItems(items, out);
      case Map(pairs) =>
        out.data := out.data + ([MAP] + Digits(|pairs|) + CRLF);
        SerializeEntries(pairs, out);
    }
  }

  method SerializeEntries(pairs: seq<Pair>, out: ByteBuffer)
    modifies out
    ensures out.data == old(out.data) + SerializePairs(pairs)
    decreases pairs
  {
    ghost var head := out.data;
    for i := 0 to |pairs|
      invariant out.data + SerializePairs(pairs[i..]) == head + SerializePairs(pairs)
    {
      SerializeEntry(pairs[i], out);
      assert pairs[i..][0] == pairs[i] && pairs[i..][1..] == pairs[i + 1..];
    }
    assert pairs[|pairs|..] == [];
  }

  method SerializeEntry(pair: Pair, out: ByteBuffer)
    modifies out
    ensures out.data == old(out.data) + SerializePair(pair)
    decreases pair
  {
    SerializeInto(pair.key, out);
    SerializeInto(pair.val, out);
  }

  method SerializeItems(items: seq<Value>, out: ByteBuffer)
    modifies out
    ensures out.data == old(out.data) + SerializeAll(items)
    decreases items
  {
    ghost var head := out.data;
    for i := 0 to |items|
      invariant out.data + SerializeAll(items[i..]) == head + SerializeAll(items)
    {
      hide Serialize;
      ghost var before, rest := out.data, SerializeAll(items[i + 1..]);
      SerializeInto(items[i], out);
      assert items[i..][0] == items[i] && items[i..][1..] == items[i + 1..];
      assert before + Serialize(items[i]) + rest == before + (Serialize(items[i]) + rest);
    }
    assert items[|items|..] == [];
  }
}
