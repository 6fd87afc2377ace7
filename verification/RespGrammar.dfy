/**
 The wire format as a grammar, and the parser's agreement with it.

 `Spells` says which bytes spell which value, in terms of bytes alone: a numeral is an
 optional sign and digits whose value is positional, a bulk string its length, CRLF, its
 bytes and CRLF, an aggregate its header and the spellings of its elements one after the
 other. The parser accepts exactly these spellings, whatever follows them.
 */
module RespGrammar {
  import opened Bytes
  import opened Decimal
  import opened Resp
  import RespRoundTrip

  // ── Numerals ────────────────────────────────────────────────────────────────

  function TenTo(n: nat): (p: nat)
    ensures p > 0
  {
    if n == 0 then 1 else 10 * TenTo(n - 1)
  }

  // Each digit times the power of ten of its place, from the left.
  function Positional(digits: bytes): int {
    if digits == [] then 0 else (digits[0] - 48) * TenTo(|digits| - 1) + Positional(digits[1..])
  }

  ghost predicate DigitsOf(digits: bytes, n: int) {
    digits != [] && (forall i :: 0 <= i < |digits| ==> 48 <= digits[i] <= 57) && Positional(digits) == n
  }

  // Digits, or a plus and digits.
  ghost predicate Unsigned(text: bytes, n: int) {
    DigitsOf(text, n) || (text != [] && text[0] == 43 && DigitsOf(text[1..], n))
  }

  // Or a minus and digits.
  ghost predicate Signed(text: bytes, n: int) {
    Unsigned(text, n) || (text != [] && text[0] == 45 && DigitsOf(text[1..], -n))
  }

  lemma {:induction false} MagnitudeFromTheLeft(s: bytes)
    requires s != [] && AllDigits(s)
    ensures Magnitude(s) == (s[0] - 48) * TenTo(|s| - 1) + Magnitude(s[1..])
    decreases |s|
  {
    var n := |s| - 1;
    if n == 0 {
      assert s[..0] == [] && s[1..] == [];
    } else {
      var front := s[..n];
      MagnitudeFromTheLeft(front);
      assert s[1..][..n - 1] == front[1..] && s[1..][n - 1] == s[n];
      TenTimes(s[0] - 48, n);
    }
  }

  lemma TenTimes(d: int, n: nat)
    requires n > 0
    ensures 10 * (d * TenTo(n - 1)) == d * TenTo(n)
  {
    assert 10 * (d * TenTo(n - 1)) == d * (10 * TenTo(n - 1));
  }

  lemma {:induction false} MagnitudeIsPositional(s: bytes)
    requires AllDigits(s)
    ensures Magnitude(s) == Positional(s)
    decreases |s|
  {
    if s != [] {
      MagnitudeFromTheLeft(s);
      MagnitudeIsPositional(s[1..]);
    }
  }

  lemma DigitsOfIff(s: bytes, n: int)
    ensures DigitsOf(s, n) <==> s != [] && AllDigits(s) && Magnitude(s) == n
  {
    if AllDigits(s) { MagnitudeIsPositional(s); }
  }

  // Leading zeros and a plus are accepted, blanks and an empty text are not.
  lemma ParseI64Iff(text: bytes, n: int)
    ensures (ParseI64(text).Some? && ParseI64(text).value == n) <==> Signed(text, n) && -I64_END <= n < I64_END
  {
    hide DigitsOf, Magnitude, AllDigits;
    DigitsOfIff(text, n);
    if text != [] {
      DigitsOfIff(text[1..], n);
      DigitsOfIff(text[1..], -n);
      if text[0] == PLUS || text[0] == MINUS { SignIsNoDigit(text); }
    }
  }

  lemma ParseU64Iff(text: bytes, n: int)
    ensures (ParseU64(text).Some? && ParseU64(text).value == n) <==> Unsigned(text, n) && n < U64_END
  {
    hide DigitsOf, Magnitude, AllDigits;
    DigitsOfIff(text, n);
    if text != [] {
      DigitsOfIff(text[1..], n);
      if text[0] == PLUS || text[0] == MINUS { SignIsNoDigit(text); }
    }
  }

  lemma SignIsNoDigit(text: bytes)
    requires text != [] && (text[0] == PLUS || text[0] == MINUS)
    ensures !AllDigits(text)
  {
    assert !IsDigit(text[0]);
  }

  // ── Spellings ───────────────────────────────────────────────────────────────

  ghost predicate NoCrlf(text: bytes) {
    forall i :: 0 <= i < |text| - 1 ==> !(text[i] == 13 && text[i + 1] == 10)
  }

  // A type byte, h more bytes and CRLF.
  ghost predicate HeaderAt(s: bytes, tag: byte, h: nat) {
    h + 3 <= |s| && s[0] == tag && s[h + 1] == 13 && s[h + 2] == 10
  }

  ghost predicate SpellsText(s: bytes, tag: byte, text: bytes) {
    s == [tag] + text + [13, 10] && NoCrlf(text)
  }

  ghost predicate SpellsNumber(s: bytes, tag: byte, n: int) {
    exists h: nat :: HeaderAt(s, tag, h) && |s| == h + 3 && Signed(s[1..h + 1], n)
  }

  ghost predicate SpellsBulk(s: bytes, data: bytes) {
    exists h: nat :: HeaderAt(s, 36, h) && Signed(s[1..h + 1], |data|) && s[h + 3..] == data + [13, 10]
  }

  // The header of an aggregate: its type byte and how many items or pairs it has. Only an
  // array's count may carry a minus sign, which a zero allows.
  ghost predicate SpellsOpening(s: bytes, v: Value, h: nat)
    requires RespRoundTrip.IsAggregate(v)
  {
    match v
    case Array(items) => HeaderAt(s, 42, h) && Signed(s[1..h + 1], |items|) && |items| <= MAX_ARRAY_ELEMENTS
    case Push(items) => HeaderAt(s, 62, h) && Unsigned(s[1..h + 1], |items|) && |items| <= MAX_ARRAY_ELEMENTS
    case Map(pairs) => HeaderAt(s, 37, h) && Unsigned(s[1..h + 1], |pairs|) && |pairs| <= MAX_PAIRS
  }

  // Each key followed by its value.
  function InTurn(pairs: seq<Pair>): seq<Value> {
    if pairs == [] then [] else [pairs[0].key, pairs[0].val] + InTurn(pairs[1..])
  }

  // The elements in the order they are written.
  function Parts(v: Value): seq<Value>
    requires RespRoundTrip.IsAggregate(v)
  {
    if v.Map? then InTurn(v.pairs) else v.items
  }

  lemma {:induction false} InTurnIsFlattened(pairs: seq<Pair>)
    ensures InTurn(pairs) == Flattened(pairs)
  {
    if pairs != [] { InTurnIsFlattened(pairs[1..]); }
  }

  // Which bytes spell a value inside `depth` aggregates, within the limits.
  ghost predicate Spells(s: bytes, v: Value, depth: nat)
    requires depth <= MAX_ARRAY_DEPTH
    decreases MAX_ARRAY_DEPTH - depth, 0, 0
  {
    match v
    case SimpleString(text) => SpellsText(s, 43, text)
    case Error(text) => SpellsText(s, 45, text)
    case Integer(n) => SpellsNumber(s, 58, n)
    case NullBulk => SpellsNumber(s, 36, -1)
    case BulkString(data) => SpellsBulk(s, data) && |data| <= MAX_BULK_STRING_BYTES
    case NullArray => SpellsNumber(s, 42, -1) && depth < MAX_ARRAY_DEPTH
    case _ =>
      && depth < MAX_ARRAY_DEPTH && Short(s, Parts(v))
      && exists h: nat :: h + 3 <= |s| && SpellsOpening(s, v, h) && SpellsAll(s[h + 3..], Parts(v), depth + 1)
  }

  // Only an aggregate with elements has its length checked.
  ghost predicate Short(s: bytes, vs: seq<Value>) {
    vs == [] || |s| <= MAX_TOTAL_MESSAGE_BYTES
  }

  // The spellings of some values, one after the other.
  ghost predicate SpellsAll(s: bytes, vs: seq<Value>, depth: nat)
    requires depth <= MAX_ARRAY_DEPTH
    decreases MAX_ARRAY_DEPTH - depth, 1, |vs|
  {
    if vs == [] then s == []
    else exists k :: 0 <= k <= |s| && Spells(s[..k], vs[0], depth) && SpellsAll(s[k..], vs[1..], depth)
  }

  // ── Lines ───────────────────────────────────────────────────────────────────

  lemma LineIff(b: bytes, h: nat)
    requires b != [] && b[0] != CR
    ensures HeaderAt(b, b[0], h) && NoCrlf(b[1..h + 1]) <==> ReadLine(b).Line? && ReadLine(b).end == h + 3
    ensures ReadLine(b).Line? ==> ReadLine(b).text == b[1..ReadLine(b).end - 2]
  {
    var at := FindCrlf(b, 0);
    if HeaderAt(b, b[0], h) && NoCrlf(b[1..h + 1]) {
      assert CrlfAt(b, h + 1);
      forall i | 0 <= i <= h ensures !CrlfAt(b, i) {
        if 0 < i < h { assert b[1..h + 1][i - 1] == b[i] && b[1..h + 1][i] == b[i + 1]; }
      }
    }
    if at == Some(h + 1) {
      var text := b[1..h + 1];
      forall i | 0 <= i < |text| - 1 ensures !(text[i] == 13 && text[i + 1] == 10) {
        assert !CrlfAt(b, i + 1);
      }
    }
  }

  lemma NumeralsHaveNoCrlf(text: bytes, n: int)
    requires Signed(text, n)
    ensures NoCrlf(text)
  {
    forall i | 0 <= i < |text| ensures text[i] != 13 {
      if i > 0 { assert text[i] == text[1..][i - 1]; }
    }
  }

  // What a header line gives, by its tag and the number it spells.
  lemma HeadOfHeader(b: bytes, depth: nat, h: nat)
    requires b != [] && HeaderAt(b, b[0], h) && NoCrlf(b[1..h + 1]) && KnownTag(b[0])
    requires OpensAggregate(b[0]) ==> depth < MAX_ARRAY_DEPTH
    ensures ReadHead(b, depth) == HeadOfLine(b, b[1..h + 1], h + 3)
  {
    LineIff(b, h);
    hide HeadOfLine, ReadLine;
  }

  lemma HeaderOfHead(b: bytes, depth: nat) returns (h: nat)
    requires !ReadHead(b, depth).Stop?
    ensures b != [] && KnownTag(b[0]) && HeaderAt(b, b[0], h) && NoCrlf(b[1..h + 1])
    ensures OpensAggregate(b[0]) ==> depth < MAX_ARRAY_DEPTH
    ensures ReadHead(b, depth) == HeadOfLine(b, b[1..h + 1], h + 3)
  {
    hide HeadOfLine;
    h := ReadLine(b).end - 3;
    LineIff(b, h);
  }

  // ── Accepted, so spelled ────────────────────────────────────────────────────

  lemma TextIsSpelled(b: bytes, h: nat)
    requires b != [] && HeaderAt(b, b[0], h) && NoCrlf(b[1..h + 1])
    ensures SpellsText(b[..h + 3], b[0], b[1..h + 1])
  {
    hide NoCrlf;
    assert b[..h + 3] == [b[0]] + b[1..h + 1] + [13, 10];
  }

  lemma NumberIsSpelled(b: bytes, h: nat)
    requires b != [] && HeaderAt(b, b[0], h) && ParseI64(b[1..h + 1]).Some?
    ensures SpellsNumber(b[..h + 3], b[0], ParseI64(b[1..h + 1]).value)
  {
    hide ParseI64, Signed;
    var s := b[..h + 3];
    assert HeaderAt(s, b[0], h) && s[1..h + 1] == b[1..h + 1];
    ParseI64Iff(b[1..h + 1], ParseI64(b[1..h + 1]).value);
  }

  lemma BulkIsSpelled(b: bytes, h: nat)
    requires b != [] && HeaderAt(b, 36, h)
    requires ReadBulk(b, ParseI64(b[1..h + 1]), h + 3).Leaf?
    requires ReadBulk(b, ParseI64(b[1..h + 1]), h + 3).value.BulkString?
    ensures var head := ReadBulk(b, ParseI64(b[1..h + 1]), h + 3);
      head.len <= |b| && SpellsBulk(b[..head.len], head.value.data) && |head.value.data| <= MAX_BULK_STRING_BYTES
  {
    hide ParseI64, Signed;
    var head := ReadBulk(b, ParseI64(b[1..h + 1]), h + 3);
    var s, n := b[..head.len], head.len;
    ParseI64Iff(b[1..h + 1], ParseI64(b[1..h + 1]).value);
    assert HeaderAt(s, 36, h) && s[1..h + 1] == b[1..h + 1];
    assert head.value.data == b[h + 3..n - 2] && b[n - 2..n] == [13, 10];
    assert s[h + 3..] == b[h + 3..n];
    assert b[h + 3..n] == b[h + 3..n - 2] + b[n - 2..n];
  }

  lemma LeafIsSpelled(b: bytes, depth: nat)
    requires depth <= MAX_ARRAY_DEPTH && ReadHead(b, depth).Leaf?
    ensures var head := ReadHead(b, depth); head.len <= |b| && Spells(b[..head.len], head.value, depth)
  {
    hide ReadHead, ParseI64, ParseU64, SpellsText, SpellsNumber, SpellsBulk, NoCrlf, SpellsAll, ReadBulk;
    HeadInside(b, depth);
    var h := HeaderOfHead(b, depth);
    if b[0] == SIMPLE || b[0] == ERROR {
      TextIsSpelled(b, h);
    } else if b[0] == BULK {
      BulkLeaf(b, h, depth);
    } else {
      NumberIsSpelled(b, h);
    }
  }

  lemma BulkLeaf(b: bytes, h: nat, depth: nat)
    requires depth <= MAX_ARRAY_DEPTH && b != [] && HeaderAt(b, 36, h)
    requires ReadBulk(b, ParseI64(b[1..h + 1]), h + 3).Leaf?
    ensures var head := ReadBulk(b, ParseI64(b[1..h + 1]), h + 3);
      head.len <= |b| && Spells(b[..head.len], head.value, depth)
  {
    hide ParseI64, SpellsNumber, SpellsBulk, SpellsAll;
    var head := ReadBulk(b, ParseI64(b[1..h + 1]), h + 3);
    if head.value.BulkString? { BulkIsSpelled(b, h); } else { NumberIsSpelled(b, h); }
  }

  lemma {:induction false} AcceptedIsSpelled(b: bytes, depth: nat)
    requires depth <= MAX_ARRAY_DEPTH && Parse(b, depth).Ok?
    ensures var r := Parse(b, depth); Spells(b[..r.len], r.value, depth)
    decreases MAX_ARRAY_DEPTH - depth, 0, 0
  {
    hide ReadHead, ParseElements, Spells, SpellsAll;
    HeadInside(b, depth);
    var head := ReadHead(b, depth);
    if head.Leaf? {
      LeafIsSpelled(b, depth);
    } else {
      ElementsAreSpelled(b, head.offset, depth + 1, head.count, head.group);
      var all := ParseElements(b, head.offset, depth + 1, head.count, head.group);
      AggregateIsSpelled(b, depth, all.value, all.len);
    }
  }

  lemma AggregateIsSpelled(b: bytes, depth: nat, vs: seq<Value>, end: nat)
    requires depth < MAX_ARRAY_DEPTH && ReadHead(b, depth).Open?
    requires var head := ReadHead(b, depth);
      && head.offset <= end <= |b| && |vs| == head.count && SpellsAll(b[head.offset..end], vs, depth + 1)
      && (vs == [] || end <= MAX_TOTAL_MESSAGE_BYTES) && (head.tag == MAP ==> |vs| % 2 == 0)
    ensures Spells(b[..end], Assembled(ReadHead(b, depth).tag, vs), depth)
  {
    hide ReadHead, SpellsAll, NoCrlf, SpellsOpening, HeadOfLine, SpellsNumber, SpellsBulk, SpellsText;
    var h := HeaderOfHead(b, depth);
    var head := ReadHead(b, depth);
    OpensAfterLine(b, h);
    OpeningIsSpelled(b, h, vs, end);
    assert b[..end][h + 3..] == b[h + 3..end];
  }

  lemma OpensAfterLine(b: bytes, h: nat)
    requires b != [] && h + 3 <= |b| && KnownTag(b[0])
    ensures var head := HeadOfLine(b, b[1..h + 1], h + 3);
      head.Open? ==> head.offset == h + 3 && head.tag == b[0] && OpensAggregate(b[0])
  {
    hide ParseI64, ParseU64;
  }

  lemma OpeningIsSpelled(b: bytes, h: nat, vs: seq<Value>, end: nat)
    requires b != [] && HeaderAt(b, b[0], h) && OpensAggregate(b[0]) && h + 3 <= end <= |b|
    requires var head := HeadOfLine(b, b[1..h + 1], h + 3);
      head.Open? && |vs| == head.count && (b[0] == MAP ==> |vs| % 2 == 0)
    ensures var v := Assembled(b[0], vs);
      RespRoundTrip.IsAggregate(v) && Parts(v) == vs && SpellsOpening(b[..end], v, h)
  {
    hide ParseI64, ParseU64, Signed, Unsigned, Paired, Flattened;
    var text := b[1..h + 1];
    assert b[..end][1..h + 1] == text && HeaderAt(b[..end], b[0], h);
    if b[0] == ARRAY {
      ParseI64Iff(text, ParseI64(text).value);
    } else {
      ParseU64Iff(text, ParseU64(text).value);
    }
    if b[0] == MAP {
      RespRoundTrip.FlattenPaired(vs);
      InTurnIsFlattened(Paired(vs));
      PairedCount(vs);
      assert |Paired(vs)| == ParseU64(text).value;
    }
  }

  lemma {:induction false} PairedCount(vs: seq<Value>)
    requires |vs| % 2 == 0
    ensures 2 * |Paired(vs)| == |vs|
    decreases |vs|
  {
    if vs != [] { PairedCount(vs[2..]); }
  }

  lemma ElementsStep(b: bytes, offset: nat, depth: nat, count: nat, group: nat)
    requires offset <= |b| && depth <= MAX_ARRAY_DEPTH && group > 0 && count > 0
    requires ParseElements(b, offset, depth, count, group).Ok?
    ensures var first, r := Parse(b[offset..], depth), ParseElements(b, offset, depth, count, group);
      && first.Ok? && first.len <= |b| - offset
      && (count == 1 ==> r.len <= MAX_TOTAL_MESSAGE_BYTES)
      && var others := ParseElements(b, offset + first.len, depth, count - 1, group);
         others.Ok? && r.len == others.len && r.value == [first.value] + others.value
  {
    hide Parse;
  }

  lemma NothingIsSpelled(b: bytes, offset: nat, depth: nat, group: nat)
    requires offset <= |b| && depth <= MAX_ARRAY_DEPTH && group > 0
    ensures ParseElements(b, offset, depth, 0, group) == Ok([], offset) && SpellsAll(b[offset..offset], [], depth)
  {
  }

  lemma Cut(b: bytes, from: nat, len: nat, end: nat)
    requires from + len <= end <= |b|
    ensures b[from..end][..len] == b[from..][..len] && b[from..end][len..] == b[from + len..end]
    ensures b[from..end][..len] + b[from + len..] == b[from..]
  {
  }

  lemma SpellsOneMore(s: bytes, k: nat, v: Value, vs: seq<Value>, depth: nat)
    requires depth <= MAX_ARRAY_DEPTH && k <= |s| && Spells(s[..k], v, depth) && SpellsAll(s[k..], vs, depth)
    ensures SpellsAll(s, [v] + vs, depth)
  {
    hide Spells;
    assert ([v] + vs)[1..] == vs;
  }

  lemma {:induction false} ElementsAreSpelled(b: bytes, offset: nat, depth: nat, count: nat, group: nat)
    requires offset <= |b| && depth <= MAX_ARRAY_DEPTH && group > 0
    requires ParseElements(b, offset, depth, count, group).Ok?
    ensures var r := ParseElements(b, offset, depth, count, group);
      SpellsAll(b[offset..r.len], r.value, depth) && (count > 0 ==> r.len <= MAX_TOTAL_MESSAGE_BYTES)
    decreases MAX_ARRAY_DEPTH - depth, 1, count
  {
    hide Parse, ParseElements, Spells, SpellsAll;
    if count == 0 {
      NothingIsSpelled(b, offset, depth, group);
    } else {
      ElementsStep(b, offset, depth, count, group);
      var first, r := Parse(b[offset..], depth), ParseElements(b, offset, depth, count, group);
      AcceptedIsSpelled(b[offset..], depth);
      ElementsAreSpelled(b, offset + first.len, depth, count - 1, group);
      Cut(b, offset, first.len, r.len);
      SpellsOneMore(b[offset..r.len], first.len, first.value, r.value[1..], depth);
    }
  }

  // ── Spelled, so accepted ────────────────────────────────────────────────────

  lemma HeaderStays(s: bytes, rest: bytes, tag: byte, h: nat)
    requires HeaderAt(s, tag, h)
    ensures HeaderAt(s + rest, tag, h) && (s + rest)[1..h + 1] == s[1..h + 1]
  {
  }

  lemma NumberIsAccepted(s: bytes, tag: byte, n: i64, depth: nat, rest: bytes)
    requires SpellsNumber(s, tag, n)
    requires tag == INTEGER || (tag == BULK && n == -1) || (tag == ARRAY && n == -1 && depth < MAX_ARRAY_DEPTH)
    ensures ReadHead(s + rest, depth) ==
      Leaf(if tag == INTEGER then Integer(n) else if tag == BULK then NullBulk else NullArray, |s|)
  {
    hide ReadHead, ParseI64, ParseU64, Signed, NoCrlf;
    var h: nat :| HeaderAt(s, tag, h) && |s| == h + 3 && Signed(s[1..h + 1], n);
    HeaderStays(s, rest, tag, h);
    NumeralsHaveNoCrlf(s[1..h + 1], n);
    ParseI64Iff(s[1..h + 1], n);
    HeadOfHeader(s + rest, depth, h);
  }

  lemma TextIsAccepted(s: bytes, tag: byte, text: bytes, depth: nat, rest: bytes)
    requires SpellsText(s, tag, text) && (tag == SIMPLE || tag == ERROR)
    ensures ReadHead(s + rest, depth) == Leaf(if tag == SIMPLE then SimpleString(text) else Error(text), |s|)
  {
    hide ReadHead, NoCrlf, ParseI64, ParseU64;
    var h := |text|;
    assert s[1..h + 1] == text;
    HeaderStays(s, rest, tag, h);
    HeadOfHeader(s + rest, depth, h);
  }

  lemma BulkIsAccepted(s: bytes, data: bytes, depth: nat, rest: bytes)
    requires SpellsBulk(s, data) && |data| <= MAX_BULK_STRING_BYTES
    ensures ReadHead(s + rest, depth) == Leaf(BulkString(data), |s|)
  {
    hide ReadHead, ParseI64, ParseU64, Signed, NoCrlf;
    var h: nat :| HeaderAt(s, 36, h) && Signed(s[1..h + 1], |data|) && s[h + 3..] == data + [13, 10];
    HeaderStays(s, rest, 36, h);
    NumeralsHaveNoCrlf(s[1..h + 1], |data|);
    ParseI64Iff(s[1..h + 1], |data|);
    HeadOfHeader(s + rest, depth, h);
    BulkReads(s, h, data, rest);
  }

  lemma BulkReads(s: bytes, h: nat, data: bytes, rest: bytes)
    requires h + 3 <= |s| && s[h + 3..] == data + [13, 10] && |data| <= MAX_BULK_STRING_BYTES
    ensures ReadBulk(s + rest, Some(|data|), h + 3) == Leaf(BulkString(data), |s|)
  {
    var b, tail, end := s + rest, data + [13, 10], |s|;
    assert |tail| == |data| + 2 == end - (h + 3);
    assert b[h + 3..end] == s[h + 3..] == tail;
    assert b[end - 2..end] == b[h + 3..end][|data|..] == tail[|data|..] == CRLF;
    assert b[h + 3..end - 2] == b[h + 3..end][..|data|] == tail[..|data|] == data;
  }

  lemma {:induction false} SpelledIsAccepted(s: bytes, v: Value, depth: nat, rest: bytes)
    requires depth <= MAX_ARRAY_DEPTH && Spells(s, v, depth)
    ensures Parse(s + rest, depth) == Ok(v, |s|)
    decreases MAX_ARRAY_DEPTH - depth, 0, 0
  {
    hide ReadHead, ParseElements, SpellsText, SpellsNumber, SpellsBulk, SpellsAll, SpellsOpening, Parts, Assembled;
    match v {
      case SimpleString(text) => TextIsAccepted(s, SIMPLE, text, depth, rest);
      case Error(text) => TextIsAccepted(s, ERROR, text, depth, rest);
      case Integer(n) => NumberIsAccepted(s, INTEGER, n, depth, rest);
      case NullBulk => NumberIsAccepted(s, BULK, -1, depth, rest);
      case NullArray => NumberIsAccepted(s, ARRAY, -1, depth, rest);
      case BulkString(data) => BulkIsAccepted(s, data, depth, rest);
      case _ =>
        var vs, b := Parts(v), s + rest;
        var h: nat :| h + 3 <= |s| && SpellsOpening(s, v, h) && SpellsAll(s[h + 3..], vs, depth + 1);
        OpeningIsAccepted(s, v, h, depth, rest);
        assert b[h + 3..|s|] == s[h + 3..];
        ElementsAreAccepted(b, h + 3, |s|, vs, depth + 1, RespRoundTrip.GroupOf(v));
        PartsAssemble(v);
    }
  }

  lemma OpeningIsAccepted(s: bytes, v: Value, h: nat, depth: nat, rest: bytes)
    requires depth < MAX_ARRAY_DEPTH && RespRoundTrip.IsAggregate(v) && SpellsOpening(s, v, h)
    ensures ReadHead(s + rest, depth) == Open(RespRoundTrip.TagOf(v), |Parts(v)|, RespRoundTrip.GroupOf(v), h + 3)
  {
    hide ReadHead, ParseI64, ParseU64, Signed, Unsigned, NoCrlf, Parts;
    var text, n := s[1..h + 1], RespRoundTrip.CountOf(v);
    HeaderStays(s, rest, RespRoundTrip.TagOf(v), h);
    UnsignedIsSigned(text, n);
    NumeralsHaveNoCrlf(text, n);
    ParseI64Iff(text, n);
    ParseU64Iff(text, n);
    HeadOfHeader(s + rest, depth, h);
    PartsAssemble(v);
  }

  lemma UnsignedIsSigned(text: bytes, n: int)
    ensures Unsigned(text, n) ==> Signed(text, n)
  {
    hide Unsigned;
  }

  lemma PartsAssemble(v: Value)
    requires RespRoundTrip.IsAggregate(v)
    ensures |Parts(v)| == RespRoundTrip.GroupOf(v) * RespRoundTrip.CountOf(v)
    ensures Assembled(RespRoundTrip.TagOf(v), Parts(v)) == v
  {
    if v.Map? {
      RespRoundTrip.FlattenedPairs(v.pairs);
      InTurnIsFlattened(v.pairs);
    }
  }

  lemma SpellsSplit(s: bytes, vs: seq<Value>, depth: nat) returns (k: nat)
    requires depth <= MAX_ARRAY_DEPTH && vs != [] && SpellsAll(s, vs, depth)
    ensures k <= |s| && Spells(s[..k], vs[0], depth) && SpellsAll(s[k..], vs[1..], depth)
  {
    hide Spells;
    k :| 0 <= k <= |s| && Spells(s[..k], vs[0], depth) && SpellsAll(s[k..], vs[1..], depth);
  }

  lemma ElementsFrom(b: bytes, offset: nat, depth: nat, group: nat, v: Value, len: nat, vs: seq<Value>, end: nat)
    requires offset + len <= end <= |b| && depth <= MAX_ARRAY_DEPTH && group > 0 && end <= MAX_TOTAL_MESSAGE_BYTES
    requires Parse(b[offset..], depth) == Ok(v, len)
    requires ParseElements(b, offset + len, depth, |vs|, group) == Ok(vs, end)
    ensures ParseElements(b, offset, depth, |vs| + 1, group) == Ok([v] + vs, end)
  {
    hide Parse;
  }

  lemma {:induction false} ElementsAreAccepted(b: bytes, offset: nat, end: nat, vs: seq<Value>, depth: nat, group: nat)
    requires offset <= end <= |b| && depth <= MAX_ARRAY_DEPTH && group > 0
    requires SpellsAll(b[offset..end], vs, depth) && (vs == [] || end <= MAX_TOTAL_MESSAGE_BYTES)
    ensures ParseElements(b, offset, depth, |vs|, group) == Ok(vs, end)
    decreases MAX_ARRAY_DEPTH - depth, 1, |vs|
  {
    if vs != [] {
      hide Parse, Spells, SpellsAll, ParseElements;
      var s := b[offset..end];
      var k := SpellsSplit(s, vs, depth);
      Cut(b, offset, k, end);
      SpelledIsAccepted(s[..k], vs[0], depth, b[offset + k..]);
      ElementsAreAccepted(b, offset + k, end, vs[1..], depth, group);
      ElementsFrom(b, offset, depth, group, vs[0], k, vs[1..], end);
      assert [vs[0]] + vs[1..] == vs;
    }
  }

  // The parser accepts exactly what spells a value: whatever the buffer, whatever follows.
  lemma AcceptsIff(b: bytes, depth: nat, v: Value, n: nat)
    requires depth <= MAX_ARRAY_DEPTH
    ensures Parse(b, depth) == Ok(v, n) <==> n <= |b| && Spells(b[..n], v, depth)
  {
    hide Parse, Spells;
    if Parse(b, depth) == Ok(v, n) {
      AcceptedIsSpelled(b, depth);
    }
    if n <= |b| && Spells(b[..n], v, depth) {
      SpelledIsAccepted(b[..n], v, depth, b[n..]);
      assert b[..n] + b[n..] == b;
    }
  }

  // So no bytes spell two values, and no spelling begins another.
  lemma SpellingsAreUnambiguous(s: bytes, rest: bytes, v: Value, w: Value, depth: nat)
    requires depth <= MAX_ARRAY_DEPTH && Spells(s, v, depth) && Spells(s + rest, w, depth)
    ensures v == w && rest == []
  {
    SpelledIsAccepted(s, v, depth, rest);
    SpelledIsAccepted(s + rest, w, depth, []);
    hide Parse, Spells;
    assert s + rest + [] == s + rest;
  }

  // What is refused at its first line, and as what: the number that the line spells decides.
  lemma RefusedByItsHeader(b: bytes, depth: nat, h: nat, text: bytes)
    requires depth <= MAX_ARRAY_DEPTH && b != [] && HeaderAt(b, b[0], h) && text == b[1..h + 1] && NoCrlf(text)
    ensures b[0] !in {43, 45, 58, 36, 42, 62, 37} ==> Parse(b, depth) == Err(InvalidType(b[0]))
    ensures b[0] in {42, 62, 37} && depth == 16 ==> Parse(b, depth) == Err(DepthExceeded)
    ensures b[0] in {58, 36} || (b[0] == 42 && depth < 16) ==>
      (forall n :: -I64_END <= n < I64_END ==> !Signed(text, n)) ==>
        Parse(b, depth).Err? && Parse(b, depth).error.InvalidHeader?
    ensures b[0] in {62, 37} && depth < 16 && (forall n :: n < U64_END ==> !Unsigned(text, n)) ==>
      Parse(b, depth).Err? && Parse(b, depth).error.InvalidHeader?
    ensures forall n :: (b[0] == 36 || (b[0] == 42 && depth < 16)) && Signed(text, n) && -I64_END <= n < -1 ==>
      Parse(b, depth).Err? && Parse(b, depth).error.InvalidHeader?
    ensures forall n :: b[0] == 36 && Signed(text, n) && 67_108_864 < n < I64_END ==>
      Parse(b, depth) == Err(TooLarge("bulk string", n, 67_108_864))
    ensures forall n :: b[0] == 42 && depth < 16 && Signed(text, n) && 1_000_000 < n < I64_END ==>
      Parse(b, depth) == Err(TooLarge("array", n, 1_000_000))
    ensures forall n :: b[0] == 62 && depth < 16 && Unsigned(text, n) && 1_000_000 < n < U64_END ==>
      Parse(b, depth) == Err(TooLarge("push frame", n, 1_000_000))
    ensures forall n :: b[0] == 37 && depth < 16 && Unsigned(text, n) && 500_000 < n < U64_END ==>
      Parse(b, depth) == Err(TooLarge("map", n, 500_000))
  {
    hide ReadHead, ParseElements, ParseI64, ParseU64, Signed, Unsigned, NoCrlf;
    UnknownOrTooDeep(b, depth);
    if KnownTag(b[0]) && (OpensAggregate(b[0]) ==> depth < MAX_ARRAY_DEPTH) {
      HeadOfHeader(b, depth, h);
    }
    if ParseI64(text).Some? { ParseI64Iff(text, ParseI64(text).value); }
    if ParseU64(text).Some? { ParseU64Iff(text, ParseU64(text).value); }
    forall n { ParseI64Iff(text, n); }
    forall n { ParseU64Iff(text, n); }
  }

  lemma UnknownOrTooDeep(b: bytes, depth: nat)
    requires b != []
    ensures !KnownTag(b[0]) ==> ReadHead(b, depth) == Stop(InvalidType(b[0]))
    ensures OpensAggregate(b[0]) && depth >= MAX_ARRAY_DEPTH ==> ReadHead(b, depth) == Stop(DepthExceeded)
  {
  }

  // A payload that is not followed by CRLF is refused.
  lemma RefusedByItsTrailer(b: bytes, depth: nat, h: nat, n: nat)
    requires depth <= MAX_ARRAY_DEPTH && HeaderAt(b, 36, h) && Signed(b[1..h + 1], n) && n <= MAX_BULK_STRING_BYTES
    requires h + 3 + n + 2 <= |b| && !(b[h + 3 + n] == 13 && b[h + 3 + n + 1] == 10)
    ensures Parse(b, depth).Err? && Parse(b, depth).error.InvalidHeader?
  {
    hide ReadHead, ParseI64, ParseU64, Signed, NoCrlf;
    NumeralsHaveNoCrlf(b[1..h + 1], n);
    ParseI64Iff(b[1..h + 1], n);
    HeadOfHeader(b, depth, h);
    var end := h + 3 + n + 2;
    assert b[end - 2..end][0] == b[h + 3 + n] && b[end - 2..end][1] == b[h + 3 + n + 1];
  }

  // Once its header is there, a bulk string asks for exactly its own length.
  lemma BulkBoundIsExact(b: bytes, depth: nat, h: nat, n: nat)
    requires depth <= MAX_ARRAY_DEPTH && HeaderAt(b, 36, h) && Signed(b[1..h + 1], n) && n <= MAX_BULK_STRING_BYTES
    requires |b| < h + 3 + n + 2
    ensures Parse(b, depth) == Err(Incomplete(h + 3 + n + 2))
  {
    hide ReadHead, ParseI64, ParseU64, Signed, NoCrlf;
    NumeralsHaveNoCrlf(b[1..h + 1], n);
    ParseI64Iff(b[1..h + 1], n);
    HeadOfHeader(b, depth, h);
  }

  // What the serializer writes has no plus and no leading zero.
  lemma {:induction false} DigitsAreCanonical(n: nat)
    ensures DigitsOf(Digits(n), n) && (n > 0 ==> Digits(n)[0] != 48) && (n == 0 ==> |Digits(n)| == 1)
    decreases n
  {
    MagnitudeOfDigits(n);
    DigitsOfIff(Digits(n), n);
    if n >= 10 { DigitsAreCanonical(n / 10); }
  }
}
