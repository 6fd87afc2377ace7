/** What a partial buffer says about the frame that is still arriving. */
module RespStream {
  import opened Bytes
  import opened Decimal
  import opened Resp

  // ── Headers ─────────────────────────────────────────────────────────────────

  lemma LineOfPrefix(b: bytes, k: nat)
    requires 0 < k <= |b| && b[0] != CR
    ensures match ReadLine(b)
      case NoLine => ReadLine(b[..k]).NoLine?
      case Line(text, end) =>
        if k < end then ReadLine(b[..k]).NoLine? else ReadLine(b[..k]) == ReadLine(b)
  {
    var here, whole := FindCrlf(b[..k], 0), FindCrlf(b, 0);
    if here.Some? {
      assert CrlfAt(b, here.value);
      if whole.value < here.value { assert CrlfAt(b[..k], whole.value); }
      assert b[..k][1..here.value] == b[1..here.value];
    } else if whole.Some? {
      assert !CrlfAt(b[..k], whole.value);
    }
  }

  // Where a header, or a value without elements, ends.
  function HeadEnd(h: Head): nat {
    if h.Leaf? then h.len else if h.Open? then h.offset else 0
  }

  // What the head of a prefix of length k may be, given the head of the whole.
  ghost predicate Foretells(part: Head, whole: Head, k: nat) {
    var waits := part.Stop? && part.error.Incomplete?;
    && (waits || part == whole)
    && (waits ==> k < part.error.needed)
    && (!whole.Stop? ==> (waits <==> k < HeadEnd(whole)) && (waits ==> part.error.needed <= HeadEnd(whole)))
    && (whole.Stop? && whole.error.Incomplete? ==> waits && part.error.needed <= whole.error.needed)
  }

  lemma HeadAfterLine(b: bytes, k: nat, text: bytes, end: nat)
    requires 0 < k <= |b| && end <= |b|
    ensures end <= k ==> Foretells(HeadOfLine(b[..k], text, end), HeadOfLine(b, text, end), k)
    ensures var h := HeadOfLine(b, text, end);
      (h.Leaf? || h.Open? ==> end <= HeadEnd(h)) && (h.Stop? && h.error.Incomplete? ==> |b| < h.error.needed)
  {
    hide ParseI64, ParseU64;
    assert b[..k][0] == b[0];
    if b[0] == BULK && end <= k {
      BulkOfPrefix(b, k, ParseI64(text), end);
      hide ReadBulk;
    }
  }

  // A header is settled by its own bytes; short of them it asks for more, never for too much.
  lemma HeadOfPrefix(b: bytes, k: nat, depth: nat)
    requires k <= |b|
    ensures Foretells(ReadHead(b[..k], depth), ReadHead(b, depth), k)
  {
    if k == 0 {
      HeadInside(b, depth);
      EveryHeadNeedsBytes(b, depth);
    } else {
      assert b[..k][0] == b[0];
      if b[0] != CR {
        hide ReadLine, HeadOfLine;
        LineOfPrefix(b, k);
        LineInside(b);
        var line := ReadLine(b);
        if line.Line? {
          HeadAfterLine(b, k, line.text, line.end);
        }
      }
    }
  }

  lemma LineInside(b: bytes)
    requires b != [] && b[0] != CR
    ensures ReadLine(b).Line? ==> ReadLine(b).end <= |b|
  {
  }

  lemma EveryHeadNeedsBytes(b: bytes, depth: nat)
    ensures var h := ReadHead(b, depth);
      h.Stop? && h.error.Incomplete? ==> h.error.needed >= 1
  {
    hide ReadLine, ParseI64, ParseU64;
  }

  lemma BulkOfPrefix(b: bytes, k: nat, declared: Option<i64>, head: nat)
    requires head <= k <= |b|
    ensures Foretells(ReadBulk(b[..k], declared, head), ReadBulk(b, declared, head), k)
    ensures !ReadBulk(b, declared, head).Open?
  {
    if declared.Some? && 0 <= declared.value <= MAX_BULK_STRING_BYTES {
      var end := head + declared.value + 2;
      if end <= k {
        assert b[..k][end - 2..end] == b[end - 2..end];
        assert b[..k][head..end - 2] == b[head..end - 2];
      }
    }
  }

  // ── Frames ──────────────────────────────────────────────────────────────────

  // A frame that parses is settled by exactly its own bytes: every longer or equal
  // prefix parses the same, every shorter one asks for more, and for no more than
  // the frame has.
  lemma {:induction false} PrefixOfFrame(b: bytes, k: nat, depth: nat)
    requires depth <= MAX_ARRAY_DEPTH && k <= |b| && Parse(b, depth).Ok?
    ensures var whole, part := Parse(b, depth), Parse(b[..k], depth);
      if k < whole.len then IsIncomplete(part) && k < part.error.needed <= whole.len
      else part == whole
    decreases MAX_ARRAY_DEPTH - depth, 1, 0
  {
    hide ReadHead;
    HeadInside(b, depth);
    HeadOfPrefix(b, k, depth);
    var h := ReadHead(b, depth);
    if h.Open? && h.offset <= k {
      PrefixOfElements(b, k, h.offset, depth + 1, h.count, h.group);
    }
  }

  lemma {:induction false} PrefixOfElements(b: bytes, k: nat, offset: nat, depth: nat, count: nat, group: nat)
    requires depth <= MAX_ARRAY_DEPTH && group > 0
    requires offset <= k <= |b| && ParseElements(b, offset, depth, count, group).Ok?
    ensures var whole := ParseElements(b, offset, depth, count, group);
      var part := ParseElements(b[..k], offset, depth, count, group);
      if k < whole.len then IsIncomplete(part) && k < part.error.needed <= whole.len
      else part == whole
    decreases MAX_ARRAY_DEPTH - depth, 2, count
  {
    hide ReadHead, Parse;
    if count > 0 {
      PrefixOfFrame(b[offset..], k - offset, depth);
      assert b[..k][offset..] == b[offset..][..k - offset];
      var first := Parse(b[offset..], depth);
      if offset + first.len <= k {
        PrefixOfElements(b, k, offset + first.len, depth, count - 1, group);
      }
    }
  }

  // Whatever is not "incomplete" is final: more bytes change neither the value, nor
  // its length, nor the protocol error.
  lemma {:induction false} VerdictIsFinal(b: bytes, k: nat, depth: nat)
    requires depth <= MAX_ARRAY_DEPTH && k <= |b| && !IsIncomplete(Parse(b[..k], depth))
    ensures Parse(b, depth) == Parse(b[..k], depth)
    decreases MAX_ARRAY_DEPTH - depth, 1, 0
  {
    hide ReadHead;
    HeadInside(b[..k], depth);
    HeadInside(b, depth);
    HeadOfPrefix(b, k, depth);
    var h := ReadHead(b[..k], depth);
    if h.Open? {
      ElementsVerdictIsFinal(b, k, h.offset, depth + 1, h.count, h.group);
    }
  }

  lemma {:induction false} ElementsVerdictIsFinal(b: bytes, k: nat, offset: nat, depth: nat, count: nat, group: nat)
    requires depth <= MAX_ARRAY_DEPTH && group > 0 && offset <= k <= |b|
    requires !IsIncomplete(ParseElements(b[..k], offset, depth, count, group))
    ensures ParseElements(b, offset, depth, count, group) == ParseElements(b[..k], offset, depth, count, group)
    decreases MAX_ARRAY_DEPTH - depth, 2, count
  {
    hide ReadHead;
    if count > 0 {
      assert b[..k][offset..] == b[offset..][..k - offset];
      VerdictIsFinal(b[offset..], k - offset, depth);
      var first := Parse(b[offset..], depth);
      if first.Ok? && !((count - 1) % group == 0 && offset + first.len > MAX_TOTAL_MESSAGE_BYTES) {
        ElementsVerdictIsFinal(b, k, offset + first.len, depth, count - 1, group);
      }
    }
  }

  // The bound is ahead of what has arrived.
  lemma {:induction false} BoundIsAhead(b: bytes, depth: nat)
    requires depth <= MAX_ARRAY_DEPTH && IsIncomplete(Parse(b, depth))
    ensures |b| < Parse(b, depth).error.needed
    decreases MAX_ARRAY_DEPTH - depth, 1, 0
  {
    hide ReadHead;
    HeadInside(b, depth);
    HeadOfPrefix(b, |b|, depth);
    assert b[..|b|] == b;
    var h := ReadHead(b, depth);
    if h.Open? {
      ElementsBoundIsAhead(b, h.offset, depth + 1, h.count, h.group);
    }
  }

  lemma {:induction false} ElementsBoundIsAhead(b: bytes, offset: nat, depth: nat, count: nat, group: nat)
    requires depth <= MAX_ARRAY_DEPTH && group > 0 && offset <= |b|
    requires IsIncomplete(ParseElements(b, offset, depth, count, group))
    ensures |b| < ParseElements(b, offset, depth, count, group).error.needed
    decreases MAX_ARRAY_DEPTH - depth, 2, count
  {
    hide ReadHead;
    var first := Parse(b[offset..], depth);
    if first.Ok? {
      ElementsBoundIsAhead(b, offset + first.len, depth, count - 1, group);
    } else {
      BoundIsAhead(b[offset..], depth);
    }
  }

  // Two buffers that share the bytes of a frame agree on it.
  lemma FrameIsLocal(b: bytes, c: bytes)
    requires Parse(b, 0).Ok? && Parse(b, 0).len <= |c| && c[..Parse(b, 0).len] == b[..Parse(b, 0).len]
    ensures Parse(c, 0) == Parse(b, 0)
  {
    PrefixOfFrame(b, Parse(b, 0).len, 0);
    VerdictIsFinal(c, Parse(b, 0).len, 0);
  }

  // A reader may sleep until the buffer holds `needed` bytes: no shorter buffer that
  // starts with these bytes holds a frame, and once a frame is there it is not
  // asked to wait for more than the frame.
  lemma GateIsSafe(b: bytes, c: bytes)
    requires IsIncomplete(Parse(b, 0)) && b <= c
    ensures |c| < Parse(b, 0).error.needed ==> !Parse(c, 0).Ok?
    ensures Parse(c, 0).Ok? ==> |b| < Parse(b, 0).error.needed <= Parse(c, 0).len
  {
    BoundIsAhead(b, 0);
    if Parse(c, 0).Ok? {
      PrefixOfFrame(c, |b|, 0);
      assert c[..|b|] == b;
    }
  }
}
