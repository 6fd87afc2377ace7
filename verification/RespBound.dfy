/**
 The `needed` bound of an unfinished frame as the frame grows.

 The bound is charged three bytes for every element not yet started, but only one
 or two for an element of which nothing or one byte has arrived. So it is not
 monotone: it shrinks exactly when the buffer ends that early in an element that
 is not the first of its aggregate, and by two bytes at most.
 */
module RespBound {
  import opened Bytes
  import opened Resp
  import opened RespStream

  // The buffer ends less than two bytes into an element that follows another one.
  ghost predicate Stranded(b: bytes, depth: nat)
    requires depth <= MAX_ARRAY_DEPTH
    decreases MAX_ARRAY_DEPTH - depth, 1, 0
  {
    HeadInside(b, depth);
    match ReadHead(b, depth)
    case Open(_, count, group, offset) => StrandedAmong(b, offset, depth + 1, count, group, true)
    case _ => false
  }

  ghost predicate StrandedAmong(b: bytes, offset: nat, depth: nat, count: nat, group: nat, first: bool)
    requires offset <= |b| && depth <= MAX_ARRAY_DEPTH && group > 0
    decreases MAX_ARRAY_DEPTH - depth, 2, count
  {
    if count == 0 then false
    else
      match Parse(b[offset..], depth)
      case Ok(_, len) => StrandedAmong(b, offset + len, depth, count - 1, group, false)
      case Err(_) => if |b| - offset < 2 then !first else Stranded(b[offset..], depth)
  }

  lemma {:induction false} PrefixOfUnfinished(b: bytes, k: nat, depth: nat)
    requires depth <= MAX_ARRAY_DEPTH && k <= |b| && IsIncomplete(Parse(b, depth))
    ensures IsIncomplete(Parse(b[..k], depth))
  {
    if !IsIncomplete(Parse(b[..k], depth)) {
      VerdictIsFinal(b, k, depth);
    }
  }

  lemma TinyBuffer(b: bytes, depth: nat)
    requires depth <= MAX_ARRAY_DEPTH && |b| < 2 && IsIncomplete(Parse(b, depth))
    ensures Parse(b, depth).error.needed == |b| + 1
  {
  }

  // How much larger the bound of a prefix can be: not at all, or two if stranded.
  lemma {:induction false} BoundOfPrefix(b: bytes, k: nat, depth: nat)
    requires depth <= MAX_ARRAY_DEPTH && k <= |b| && IsIncomplete(Parse(b, depth))
    ensures IsIncomplete(Parse(b[..k], depth))
    ensures Parse(b[..k], depth).error.needed
      <= Parse(b, depth).error.needed + if Stranded(b, depth) then 2 else 0
    decreases MAX_ARRAY_DEPTH - depth, 1, 0
  {
    hide ReadHead;
    HeadInside(b, depth);
    HeadOfPrefix(b, k, depth);
    BoundIsAhead(b, depth);
    PrefixOfUnfinished(b, k, depth);
    var h := ReadHead(b, depth);
    if h.Open? && h.offset <= k {
      BoundOfElementPrefix(b, k, h.offset, depth + 1, h.count, h.group, true);
    }
  }

  lemma {:induction false} BoundOfElementPrefix(
      b: bytes, k: nat, offset: nat, depth: nat, count: nat, group: nat, first: bool)
    requires depth <= MAX_ARRAY_DEPTH && group > 0 && offset <= k <= |b|
    requires IsIncomplete(ParseElements(b, offset, depth, count, group))
    ensures IsIncomplete(ParseElements(b[..k], offset, depth, count, group))
    ensures ParseElements(b[..k], offset, depth, count, group).error.needed
      <= ParseElements(b, offset, depth, count, group).error.needed
         + if StrandedAmong(b, offset, depth, count, group, first) then 2 else 0
    decreases MAX_ARRAY_DEPTH - depth, 2, count
  {
    hide Parse, Stranded, ReadHead;
    var child := b[offset..];
    assert b[..k][offset..] == child[..k - offset];
    var whole := Parse(child, depth);
    if whole.Ok? {
      PrefixOfFrame(child, k - offset, depth);
      var next := offset + whole.len;
      if k < next {
        LeastFromHere(b, next, depth, count - 1, group, false);
      } else {
        BoundOfElementPrefix(b, k, next, depth, count - 1, group, false);
      }
    } else if |child| < 2 {
      TinyBuffer(child, depth);
      PrefixOfUnfinished(child, k - offset, depth);
      TinyBuffer(child[..k - offset], depth);
    } else {
      BoundOfPrefix(child, k - offset, depth);
    }
  }

  // Blocked somewhere among `count` elements, the bound covers three bytes for each
  // of them, give or take the shortfall of a stranded one.
  lemma {:induction false} LeastFromHere(b: bytes, offset: nat, depth: nat, count: nat, group: nat, first: bool)
    requires depth <= MAX_ARRAY_DEPTH && group > 0 && offset <= |b|
    requires IsIncomplete(ParseElements(b, offset, depth, count, group)) && !first
    ensures offset + MIN_ELEMENT_BYTES * count
      <= ParseElements(b, offset, depth, count, group).error.needed
         + if StrandedAmong(b, offset, depth, count, group, first) then 2 else 0
    decreases count
  {
    hide Parse, Stranded, ReadHead;
    var child := b[offset..];
    var whole := Parse(child, depth);
    if whole.Ok? {
      LeastFromHere(b, offset + whole.len, depth, count - 1, group, false);
    } else {
      BoundIsAhead(child, depth);
    }
  }

  // Where the bound was larger: just before the last complete element was finished.
  lemma {:induction false} StrandedShrinks(b: bytes, depth: nat) returns (k: nat)
    requires depth <= MAX_ARRAY_DEPTH && IsIncomplete(Parse(b, depth)) && Stranded(b, depth)
    ensures k <= |b| && IsIncomplete(Parse(b[..k], depth))
    ensures Parse(b, depth).error.needed < Parse(b[..k], depth).error.needed
    decreases MAX_ARRAY_DEPTH - depth, 1, 0
  {
    hide ReadHead;
    HeadInside(b, depth);
    var h := ReadHead(b, depth);
    k := StrandedElementShrinks(b, h.offset, depth + 1, h.count, h.group, true);
    HeadOfPrefix(b, k, depth);
  }

  lemma {:induction false} StrandedElementShrinks(
      b: bytes, offset: nat, depth: nat, count: nat, group: nat, first: bool) returns (k: nat)
    requires depth <= MAX_ARRAY_DEPTH && group > 0 && offset <= |b|
    requires IsIncomplete(ParseElements(b, offset, depth, count, group))
    requires StrandedAmong(b, offset, depth, count, group, first)
    requires first || |b| - offset >= 2 || Parse(b[offset..], depth).Ok?
    ensures offset <= k <= |b| && IsIncomplete(ParseElements(b[..k], offset, depth, count, group))
    ensures ParseElements(b, offset, depth, count, group).error.needed
      < ParseElements(b[..k], offset, depth, count, group).error.needed
    decreases MAX_ARRAY_DEPTH - depth, 2, count
  {
    hide Parse, Stranded, ReadHead;
    var child := b[offset..];
    var whole := Parse(child, depth);
    if whole.Err? {
      var j := StrandedShrinks(child, depth);
      k := offset + j;
      assert b[..k][offset..] == child[..j];
    } else {
      var next := offset + whole.len;
      assert IsIncomplete(ParseElements(b, next, depth, count - 1, group));
      if |b| - next < 2 && Parse(b[next..], depth).Err? {
        k := next - 1;
        assert b[..k][offset..] == child[..whole.len - 1];
        PrefixOfFrame(child, whole.len - 1, depth);
        TinyBuffer(b[next..], depth);
      } else {
        k := StrandedElementShrinks(b, next, depth, count - 1, group, false);
        assert b[..k][offset..] == child[..k - offset];
        PrefixOfFrame(child, k - offset, depth);
      }
    }
  }

  // The bound has shrunk on the way to b iff b ends stranded.
  lemma BoundShrinksIffStranded(b: bytes)
    requires IsIncomplete(Parse(b, 0))
    ensures (exists k :: 0 <= k <= |b| && IsIncomplete(Parse(b[..k], 0))
                         && Parse(b, 0).error.needed < Parse(b[..k], 0).error.needed)
      <==> Stranded(b, 0)
  {
    hide Parse, Stranded;
    if Stranded(b, 0) {
      var k := StrandedShrinks(b, 0);
    } else {
      forall k | 0 <= k <= |b| 
        ensures IsIncomplete(Parse(b[..k], 0))
        ensures Parse(b[..k], 0).error.needed <= Parse(b, 0).error.needed
      {
        BoundOfPrefix(b, k, 0);
      }
    }
  }

  // *2, then "+a" without and with its final line feed: 11 bytes needed, then 9.
  lemma BoundCanShrink()
    ensures var b: bytes := [ARRAY, 50, CR, LF, SIMPLE, 97, CR, LF];
      && Parse(b[..7], 0) == Err(Incomplete(11))
      && Parse(b, 0) == Err(Incomplete(9))
  {
    var b: bytes := [ARRAY, 50, CR, LF, SIMPLE, 97, CR, LF];
    HeaderOfTwo(b);
    HeaderOfTwo(b[..7]);
    assert b[4..] == [SIMPLE, 97, CR, LF] && b[..7][4..] == [SIMPLE, 97, CR];
    assert !CrlfAt(b[4..], 0) && !CrlfAt(b[4..], 1) && CrlfAt(b[4..], 2);
    assert ReadLine(b[4..]).end == 4;
    assert ReadLine(b[..7][4..]) == NoLine;
    assert b[8..] == [];
  }

  lemma HeaderOfTwo(b: bytes)
    requires |b| >= 4 && b[..4] == [ARRAY, 50, CR, LF]
    ensures ReadHead(b, 0) == Open(ARRAY, 2, 1, 4)
  {
    assert b[0] == b[..4][0] && b[1] == b[..4][1] && b[2] == b[..4][2] && b[3] == b[..4][3];
    assert !CrlfAt(b, 0) && !CrlfAt(b, 1) && CrlfAt(b, 2);
    assert FindCrlf(b, 0) == Some(2);
    var two := Decimal.Digits(2);
    assert two == [50] && b[1..2] == two;
    Decimal.DigitsRoundTrip(2);
  }

  // The bound never comes near the end of a machine word: what has arrived, one
  // bulk payload, and three bytes for each element of the open aggregates.
  lemma {:induction false} BoundIsModest(b: bytes, depth: nat)
    requires depth <= MAX_ARRAY_DEPTH && IsIncomplete(Parse(b, depth))
    ensures Parse(b, depth).error.needed <= |b| + MAX_BULK_STRING_BYTES + 2
      + MIN_ELEMENT_BYTES * MAX_ARRAY_ELEMENTS * (MAX_ARRAY_DEPTH - depth)
    decreases MAX_ARRAY_DEPTH - depth, 1, 0
  {
    HeadIsModest(b, depth);
    HeadInside(b, depth);
    hide ReadHead;
    var h := ReadHead(b, depth);
    if h.Open? {
      ElementsBoundIsModest(b, h.offset, depth + 1, h.count, h.group);
    }
  }

  lemma HeadIsModest(b: bytes, depth: nat)
    ensures var h := ReadHead(b, depth);
      && (h.Stop? && h.error.Incomplete? ==> h.error.needed <= |b| + MAX_BULK_STRING_BYTES + 2)
      && (h.Open? ==> h.count <= MAX_ARRAY_ELEMENTS)
  {
    if b != [] && b[0] != CR {
      var line := ReadLine(b);
      assert line.Line? ==> line.end <= |b|;
    }
  }

  lemma {:induction false} ElementsBoundIsModest(b: bytes, offset: nat, depth: nat, count: nat, group: nat)
    requires depth <= MAX_ARRAY_DEPTH && group > 0 && offset <= |b|
    requires IsIncomplete(ParseElements(b, offset, depth, count, group))
    ensures ParseElements(b, offset, depth, count, group).error.needed <= |b| + MAX_BULK_STRING_BYTES + 2
      + MIN_ELEMENT_BYTES * count
      + MIN_ELEMENT_BYTES * MAX_ARRAY_ELEMENTS * (MAX_ARRAY_DEPTH - depth)
    decreases MAX_ARRAY_DEPTH - depth, 2, count
  {
    hide Parse;
    var first := Parse(b[offset..], depth);
    if first.Ok? {
      ElementsBoundIsModest(b, offset + first.len, depth, count - 1, group);
    } else {
      BoundIsModest(b[offset..], depth);
    }
  }
}
