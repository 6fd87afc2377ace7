/** Which values survive the wire: exactly those within the parser's limits. */
module RespRoundTrip {
  import opened Bytes
  import opened Decimal
  import opened Resp

  predicate FreeOfCrlf(text: bytes) {
    forall i :: 0 <= i < |text| ==> !CrlfAt(text, i)
  }

  predicate IsAggregate(v: Value) {
    v.Array? || v.Push? || v.Map?
  }

  function Elements(v: Value): seq<Value>
    requires IsAggregate(v)
  {
    if v.Map? then Flattened(v.pairs) else v.items
  }

  predicate CountFits(v: Value)
    requires IsAggregate(v)
  {
    if v.Map? then |v.pairs| <= MAX_PAIRS else |v.items| <= MAX_ARRAY_ELEMENTS
  }

  // Text without a CRLF, payloads and counts within their limits, aggregates no
  // deeper than 16 and, unless empty, no longer than a message.
  ghost predicate Encodable(v: Value, depth: nat)
    requires depth <= MAX_ARRAY_DEPTH
    decreases MAX_ARRAY_DEPTH - depth, 0
  {
    match v
    case SimpleString(text) => FreeOfCrlf(text)
    case Error(text) => FreeOfCrlf(text)
    case Integer(_) => true
    case NullBulk => true
    case BulkString(data) => |data| <= MAX_BULK_STRING_BYTES
    case NullArray => depth < MAX_ARRAY_DEPTH
    case _ =>
      && depth < MAX_ARRAY_DEPTH
      && CountFits(v)
      && (Elements(v) == [] || |Serialize(v)| <= MAX_TOTAL_MESSAGE_BYTES)
      && AllEncodable(Elements(v), depth + 1)
  }

  ghost predicate AllEncodable(vs: seq<Value>, depth: nat)
    requires depth <= MAX_ARRAY_DEPTH
    decreases MAX_ARRAY_DEPTH - depth, 1
  {
    forall i :: 0 <= i < |vs| ==> Encodable(vs[i], depth)
  }

  // ── Lines and headers ───────────────────────────────────────────────────────

  lemma LineRoundTrip(tag: byte, text: bytes, rest: bytes)
    requires tag != CR
    ensures var line := ReadLine([tag] + text + CRLF + rest);
      line.Line? && if FreeOfCrlf(text) then line == Line(text, |text| + 3) else |line.text| < |text|
  {
    var b := [tag] + text + CRLF + rest;
    assert CrlfAt(b, |text| + 1);
    assert b[1..|text| + 1] == text;
    var at := FindCrlf(b, 0);
    if FreeOfCrlf(text) {
      if 0 < at.value <= |text| {
        assert !CrlfAt(text, at.value - 1);
      }
    } else {
      var i :| 0 <= i < |text| && CrlfAt(text, i);
      assert b[i + 1] == text[i] && b[i + 2] == text[i + 1];
      assert CrlfAt(b, i + 1);
    }
  }

  lemma DigitsAreFreeOfCrlf(n: int)
    ensures FreeOfCrlf(Format(n)) && Format(-1) == [MINUS, ZERO + 1]
  {
    assert Format(-1)[1..] == Digits(1) == [ZERO + 1];
    forall i | 0 <= i < |Format(n)| ensures Format(n)[i] != CR {
      if n < 0 && i > 0 { assert Format(n)[i] == Digits(-n)[i - 1]; }
    }
  }

  // A header as it is written, for any text between type byte and CRLF.
  lemma HeadOfText(b: bytes, depth: nat, tag: byte, text: bytes)
    requires tag != CR && b != [] && b[0] == tag && ReadLine(b) == Line(text, |text| + 3)
    ensures tag == SIMPLE ==> ReadHead(b, depth) == Leaf(SimpleString(text), |text| + 3)
    ensures tag == ERROR ==> ReadHead(b, depth) == Leaf(Error(text), |text| + 3)
    ensures tag == INTEGER && ParseI64(text).Some? ==>
      ReadHead(b, depth) == Leaf(Integer(ParseI64(text).value), |text| + 3)
    ensures tag == BULK && ParseI64(text) == Some(-1) ==> ReadHead(b, depth) == Leaf(NullBulk, |text| + 3)
    ensures tag == ARRAY && ParseI64(text) == Some(-1) ==>
      ReadHead(b, depth) == if depth < MAX_ARRAY_DEPTH then Leaf(NullArray, |text| + 3) else Stop(DepthExceeded)
  {
  }

  lemma TextExact(tag: byte, text: bytes, depth: nat, rest: bytes)
    requires tag == SIMPLE || tag == ERROR
    ensures var v := if tag == SIMPLE then SimpleString(text) else Error(text);
      var h := ReadHead([tag] + text + CRLF + rest, depth);
      if FreeOfCrlf(text) then h == Leaf(v, |text| + 3) else h.Leaf? && h.value != v
  {
    LineRoundTrip(tag, text, rest);
  }

  lemma NumberExact(tag: byte, n: i64, depth: nat, rest: bytes)
    requires tag == INTEGER || ((tag == BULK || tag == ARRAY) && n == -1)
    ensures var len := |Format(n)| + 3;
      ReadHead([tag] + Format(n) + CRLF + rest, depth) ==
        if tag == INTEGER then Leaf(Integer(n), len)
        else if tag == BULK then Leaf(NullBulk, len)
        else if depth < MAX_ARRAY_DEPTH then Leaf(NullArray, len)
        else Stop(DepthExceeded)
  {
    DigitsAreFreeOfCrlf(n);
    LineRoundTrip(tag, Format(n), rest);
    FormatRoundTrip(n);
    hide ReadHead, ReadLine, Format, ParseI64;
    HeadOfText([tag] + Format(n) + CRLF + rest, depth, tag, Format(n));
  }

  lemma LeafExact(v: Value, depth: nat, rest: bytes)
    requires depth <= MAX_ARRAY_DEPTH && !IsAggregate(v) && !v.BulkString?
    ensures var h := ReadHead(Serialize(v) + rest, depth);
      if Encodable(v, depth) then h == Leaf(v, |Serialize(v)|) else !(h.Leaf? && h.value == v) && !h.Open?
  {
    hide ReadHead;
    match v {
      case SimpleString(text) => TextExact(SIMPLE, text, depth, rest);
      case Error(text) => TextExact(ERROR, text, depth, rest);
      case Integer(n) => NumberExact(INTEGER, n, depth, rest);
      case NullBulk => DigitsAreFreeOfCrlf(-1); NumberExact(BULK, -1, depth, rest);
        assert Serialize(v) == [BULK] + Format(-1) + CRLF;
      case NullArray => DigitsAreFreeOfCrlf(-1); NumberExact(ARRAY, -1, depth, rest);
        assert Serialize(v) == [ARRAY] + Format(-1) + CRLF;
    }
  }

  lemma BulkHead(b: bytes, depth: nat, n: nat, head: nat)
    requires b != [] && b[0] == BULK && ReadLine(b) == Line(Digits(n), head)
    requires |b| >= head + n + 2 && b[head + n..head + n + 2] == CRLF
    ensures ReadHead(b, depth) ==
      if n >= I64_END then Stop(InvalidHeader("Invalid bulk string length"))
      else if n > MAX_BULK_STRING_BYTES then Stop(TooLarge("bulk string", n, MAX_BULK_STRING_BYTES))
      else Leaf(BulkString(b[head..head + n]), head + n + 2)
  {
    DigitsRoundTrip(n);
    hide Digits, ParseI64, ReadLine;
  }

  lemma BulkExact(data: bytes, depth: nat, rest: bytes)
    requires depth <= MAX_ARRAY_DEPTH
    ensures var v := BulkString(data);
      var h := ReadHead(Serialize(v) + rest, depth);
      if |data| <= MAX_BULK_STRING_BYTES then h == Leaf(v, |Serialize(v)|) else h.Stop?
  {
    hide ReadHead;
    var n := |data|;
    var head := [BULK] + Digits(n) + CRLF;
    var b := Serialize(BulkString(data)) + rest;
    assert b == head + (data + CRLF + rest);
    DigitsAreFreeOfCrlf(n);
    LineRoundTrip(BULK, Digits(n), data + CRLF + rest);
    assert b[|head|..|head| + n] == data && b[|head| + n..|head| + n + 2] == CRLF;
    BulkHead(b, depth, n, |head|);
  }

  lemma {:induction false} FlattenedPairs(pairs: seq<Pair>)
    ensures |Flattened(pairs)| == 2 * |pairs| && Paired(Flattened(pairs)) == pairs
    ensures SerializeAll(Flattened(pairs)) == SerializePairs(pairs)
  {
    if pairs != [] {
      var vs := Flattened(pairs);
      FlattenedPairs(pairs[1..]);
      assert vs[1..][0] == pairs[0].val && vs[1..][1..] == vs[2..] == Flattened(pairs[1..]);
      assert SerializeAll(vs) == Serialize(vs[0]) + (Serialize(vs[1]) + SerializeAll(vs[2..]));
    }
  }

  function TagOf(v: Value): byte
    requires IsAggregate(v)
  {
    if v.Map? then MAP else if v.Push? then PUSH else ARRAY
  }

  function GroupOf(v: Value): nat {
    if v.Map? then 2 else 1
  }

  function CountOf(v: Value): nat
    requires IsAggregate(v)
  {
    if v.Map? then |v.pairs| else |v.items|
  }

  // The header an aggregate is written with.
  function Opening(v: Value): bytes
    requires IsAggregate(v)
  {
    [TagOf(v)] + Digits(CountOf(v)) + CRLF
  }

  lemma ElementsInOrder(v: Value)
    requires IsAggregate(v)
    ensures Serialize(v) == Opening(v) + SerializeAll(Elements(v))
    ensures v.Map? ==> |Elements(v)| == 2 * |v.pairs|
    ensures Assembled(TagOf(v), Elements(v)) == v
  {
    if v.Map? { FlattenedPairs(v.pairs); }
  }

  lemma CountRoundTrip(v: Value, end: nat)
    requires IsAggregate(v)
    ensures var text := Digits(CountOf(v));
      var h := if v.Map? then ReadMap(ParseU64(text), end)
        else if v.Push? then ReadPush(ParseU64(text), end) else ReadArray(ParseI64(text), end);
      if CountFits(v) then h == Open(TagOf(v), |Elements(v)|, GroupOf(v), end) else h.Stop?
  {
    DigitsRoundTrip(CountOf(v));
    ElementsInOrder(v);
    hide Digits, ParseI64, ParseU64, Serialize, SerializeAll, Flattened, Paired;
  }

  lemma AggregateHead(b: bytes, depth: nat, v: Value)
    requires depth < MAX_ARRAY_DEPTH && IsAggregate(v)
    requires b != [] && b[0] == TagOf(v) && ReadLine(b) == Line(Digits(CountOf(v)), |Opening(v)|)
    ensures var h := ReadHead(b, depth);
      if CountFits(v) then h == Open(TagOf(v), |Elements(v)|, GroupOf(v), |Opening(v)|) else h.Stop?
  {
    hide Digits, ParseI64, ParseU64, ReadLine, Elements, CountFits, Opening;
    hide ReadMap, ReadPush, ReadArray, ReadBulk, ReadInteger;
    CountRoundTrip(v, |Opening(v)|);
  }

  lemma AggregateExact(v: Value, depth: nat, rest: bytes)
    requires depth < MAX_ARRAY_DEPTH && IsAggregate(v)
    ensures var h := ReadHead(Opening(v) + SerializeAll(Elements(v)) + rest, depth);
      if CountFits(v) then h == Open(TagOf(v), |Elements(v)|, GroupOf(v), |Opening(v)|) else h.Stop?
  {
    hide ReadHead, ReadLine, Serialize, SerializeAll, Elements, CountFits;
    var more := SerializeAll(Elements(v)) + rest;
    var b := Opening(v) + SerializeAll(Elements(v)) + rest;
    assert b == Opening(v) + more;
    DigitsAreFreeOfCrlf(CountOf(v));
    LineRoundTrip(TagOf(v), Digits(CountOf(v)), more);
    AggregateHead(b, depth, v);
  }

  lemma {:induction false} FlattenPaired(vs: seq<Value>)
    requires |vs| % 2 == 0
    ensures Flattened(Paired(vs)) == vs
    decreases |vs|
  {
    if vs != [] {
      FlattenPaired(vs[2..]);
      assert Paired(vs)[1..] == Paired(vs[2..]);
      assert vs == [vs[0], vs[1]] + vs[2..];
    }
  }

  lemma AssembledTellsElements(v: Value, vs: seq<Value>)
    requires IsAggregate(v) && (v.Map? ==> |vs| % 2 == 0)
    ensures Assembled(TagOf(v), vs) == v <==> vs == Elements(v)
  {
    ElementsInOrder(v);
    if v.Map? { FlattenPaired(vs); }
  }

  // ── Values ──────────────────────────────────────────────────────────────────

  lemma {:induction false} Exact(v: Value, depth: nat, rest: bytes)
    requires depth <= MAX_ARRAY_DEPTH
    ensures var r := Parse(Serialize(v) + rest, depth);
      if Encodable(v, depth) then r == Ok(v, |Serialize(v)|) else !(r.Ok? && r.value == v)
    decreases MAX_ARRAY_DEPTH - depth, 1, 0
  {
    if v.BulkString? {
      BulkExact(v.data, depth, rest);
    } else if !IsAggregate(v) {
      LeafExact(v, depth, rest);
    } else if depth < MAX_ARRAY_DEPTH {
      AggregateValue(v, depth, rest);
    } else {
      assert (Serialize(v) + rest)[0] == TagOf(v);
    }
  }

  lemma ParseOpened(b: bytes, depth: nat, v: Value)
    requires depth < MAX_ARRAY_DEPTH && IsAggregate(v) && |Opening(v)| <= |b|
    requires (v.Map? ==> |Elements(v)| % 2 == 0)
    requires ReadHead(b, depth) == Open(TagOf(v), |Elements(v)|, GroupOf(v), |Opening(v)|)
    ensures var r := ParseElements(b, |Opening(v)|, depth + 1, |Elements(v)|, GroupOf(v));
      Parse(b, depth) == if r.Ok? then Ok(Assembled(TagOf(v), r.value), r.len) else Err(r.error)
  {
    hide ReadHead, ParseElements;
  }

  lemma {:induction false} AggregateValue(v: Value, depth: nat, rest: bytes)
    requires depth < MAX_ARRAY_DEPTH && IsAggregate(v)
    ensures var r := Parse(Serialize(v) + rest, depth);
      if Encodable(v, depth) then r == Ok(v, |Serialize(v)|) else !(r.Ok? && r.value == v)
    decreases MAX_ARRAY_DEPTH - depth, 0, 0
  {
    hide ReadHead, SerializeAll, Serialize, Opening, Elements, AllEncodable, ParseElements, CountFits;
    ElementsInOrder(v);
    AggregateExact(v, depth, rest);
    var b := Opening(v) + SerializeAll(Elements(v)) + rest;
    if CountFits(v) {
      ParseOpened(b, depth, v);
      ElementsExact(Opening(v), Elements(v), depth + 1, GroupOf(v), rest);
      var r := ParseElements(b, |Opening(v)|, depth + 1, |Elements(v)|, GroupOf(v));
      hide Parse;
      if r.Ok? { AssembledTellsElements(v, r.value); }
    }
  }

  lemma Regroup(pre: bytes, first: bytes, others: bytes, rest: bytes)
    ensures (pre + (first + others) + rest)[|pre|..] == first + (others + rest)
    ensures pre + (first + others) + rest == (pre + first) + others + rest
  {
  }

  lemma ShiftOne(pre: bytes, vs: seq<Value>, rest: bytes)
    requires vs != []
    ensures var b := pre + SerializeAll(vs) + rest;
      && b[|pre|..] == Serialize(vs[0]) + (SerializeAll(vs[1..]) + rest)
      && b == (pre + Serialize(vs[0])) + SerializeAll(vs[1..]) + rest
      && |SerializeAll(vs)| == |Serialize(vs[0])| + |SerializeAll(vs[1..])|
  {
    hide Serialize;
    Regroup(pre, Serialize(vs[0]), SerializeAll(vs[1..]), rest);
  }

  lemma SameList<T>(a: T, x: seq<T>, b: T, y: seq<T>)
    ensures [a] + x == [b] + y <==> a == b && x == y
  {
    if [a] + x == [b] + y {
      assert a == ([a] + x)[0] && b == ([b] + y)[0];
      assert x == ([a] + x)[1..] && y == ([b] + y)[1..];
    }
  }

  lemma AllEncodableStep(vs: seq<Value>, depth: nat)
    requires depth <= MAX_ARRAY_DEPTH && vs != []
    ensures AllEncodable(vs, depth) <==> Encodable(vs[0], depth) && AllEncodable(vs[1..], depth)
  {
    hide Encodable;
    assert vs == [vs[0]] + vs[1..];
  }

  lemma FirstElement(b: bytes, offset: nat, depth: nat, count: nat, group: nat)
    requires offset <= |b| && depth <= MAX_ARRAY_DEPTH && group > 0 && count > 0
    ensures var first := Parse(b[offset..], depth);
      var r := ParseElements(b, offset, depth, count, group);
      if first.Err? then r.Err?
      else
        var others := ParseElements(b, offset + first.len, depth, count - 1, group);
        var together := if others.Ok? then Ok([first.value] + others.value, others.len) else others;
        && (offset + first.len <= MAX_TOTAL_MESSAGE_BYTES ==> r == together)
        && (offset + first.len > MAX_TOTAL_MESSAGE_BYTES ==> r == Err(MessageTooLarge) || r == together)
        && (offset + first.len > MAX_TOTAL_MESSAGE_BYTES && count == 1 ==> r.Err?)
  {
    hide Parse;
    if count == 1 { assert (count - 1) % group == 0; }
  }

  // How the first element and the others decide together.
  lemma Together(b: bytes, offset: nat, depth: nat, group: nat, v: Value, others: seq<Value>)
    requires offset <= |b| && depth <= MAX_ARRAY_DEPTH && group > 0
    ensures var first := Parse(b[offset..], depth);
      var r := ParseElements(b, offset, depth, |others| + 1, group);
      if first.Ok? && first.value == v then
        var tail := ParseElements(b, offset + first.len, depth, |others|, group);
        && (tail.Ok? && tail.value == others && offset + first.len <= MAX_TOTAL_MESSAGE_BYTES ==>
              r == Ok([v] + others, tail.len))
        && (!(tail.Ok? && tail.value == others) ==> !(r.Ok? && r.value == [v] + others))
        && (others == [] && offset + first.len > MAX_TOTAL_MESSAGE_BYTES ==> r.Err?)
      else !(r.Ok? && r.value == [v] + others)
  {
    hide Parse, ParseElements;
    FirstElement(b, offset, depth, |others| + 1, group);
    var first := Parse(b[offset..], depth);
    if first.Ok? {
      var tail := ParseElements(b, offset + first.len, depth, |others|, group);
      if tail.Ok? { SameList(first.value, tail.value, v, others); }
    }
  }

  lemma TogetherExact(b: bytes, offset: nat, depth: nat, group: nat, v: Value, others: seq<Value>,
                      len: nat, otherLen: nat, good: bool, othersGood: bool)
    requires offset <= |b| && depth <= MAX_ARRAY_DEPTH && group > 0
    requires var first := Parse(b[offset..], depth);
      if good then first == Ok(v, len) else !(first.Ok? && first.value == v)
    requires good ==> offset + len <= |b|
    requires good && othersGood && (others == [] || offset + len + otherLen <= MAX_TOTAL_MESSAGE_BYTES) ==>
      ParseElements(b, offset + len, depth, |others|, group) == Ok(others, offset + len + otherLen)
    requires good && !(othersGood && (others == [] || offset + len + otherLen <= MAX_TOTAL_MESSAGE_BYTES)) ==>
      var tail := ParseElements(b, offset + len, depth, |others|, group);
      !(tail.Ok? && tail.value == others)
    requires others == [] ==> otherLen == 0
    ensures var r := ParseElements(b, offset, depth, |others| + 1, group);
      if good && othersGood && offset + len + otherLen <= MAX_TOTAL_MESSAGE_BYTES
      then r == Ok([v] + others, offset + len + otherLen)
      else !(r.Ok? && r.value == [v] + others)
  {
    hide Parse, ParseElements;
    Together(b, offset, depth, group, v, others);
  }

  lemma NothingToParse(pre: bytes, depth: nat, group: nat, rest: bytes)
    requires depth <= MAX_ARRAY_DEPTH && group > 0
    ensures SerializeAll([]) == [] && AllEncodable([], depth)
    ensures ParseElements(pre + [] + rest, |pre|, depth, 0, group) == Ok([], |pre|)
  {
  }

  // The elements after `pre` come back iff each is encodable and the end of the
  // last one is within a message.
  lemma {:induction false} ElementsExact(pre: bytes, vs: seq<Value>, depth: nat, group: nat, rest: bytes)
    requires depth <= MAX_ARRAY_DEPTH && group > 0
    ensures var r := ParseElements(pre + SerializeAll(vs) + rest, |pre|, depth, |vs|, group);
      var total := |pre| + |SerializeAll(vs)|;
      if AllEncodable(vs, depth) && (vs == [] || total <= MAX_TOTAL_MESSAGE_BYTES) then r == Ok(vs, total)
      else !(r.Ok? && r.value == vs)
    decreases MAX_ARRAY_DEPTH - depth, 2, |vs|, 1
  {
    if vs == [] {
      hide *;
      NothingToParse(pre, depth, group, rest);
    } else {
      var v, others := vs[0], vs[1..];
      assert vs == [v] + others;
      assert others == [] ==> SerializeAll(others) == [];
      ElementsExactStep(pre, v, others, depth, group, rest);
    }
  }

  lemma {:induction false} ElementsExactStep(
      pre: bytes, v: Value, others: seq<Value>, depth: nat, group: nat, rest: bytes)
    requires depth <= MAX_ARRAY_DEPTH && group > 0
    ensures var vs := [v] + others;
      var r := ParseElements(pre + SerializeAll(vs) + rest, |pre|, depth, |others| + 1, group);
      var total := |pre| + |SerializeAll(vs)|;
      if AllEncodable(vs, depth) && total <= MAX_TOTAL_MESSAGE_BYTES then r == Ok(vs, total)
      else !(r.Ok? && r.value == vs)
    decreases MAX_ARRAY_DEPTH - depth, 2, |others| + 1, 0
  {
    hide Parse, ParseElements, Encodable, Serialize, AllEncodable;
    var vs := [v] + others;
    assert vs[0] == v && vs[1..] == others;
    assert others == [] ==> SerializeAll(others) == [];
    hide SerializeAll;
    var tail, sv := SerializeAll(others), Serialize(v);
    ShiftOne(pre, vs, rest);
    AllEncodableStep(vs, depth);
    Exact(v, depth, tail + rest);
    ElementsExact(pre + sv, others, depth, group, rest);
    TogetherExact(pre + SerializeAll(vs) + rest, |pre|, depth, group, v, others,
                  |sv|, |tail|, Encodable(v, depth), AllEncodable(others, depth));
  }

  // Parsing gives a serialized value back, and nothing of what follows it, iff the
  // value is within the limits.
  lemma RoundTripIffEncodable(v: Value, rest: bytes)
    ensures Parse(Serialize(v) + rest, 0) == Ok(v, |Serialize(v)|) <==> Encodable(v, 0)
  {
    Exact(v, 0, rest);
  }
}
