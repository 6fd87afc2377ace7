/**
 The read loop of a connection, which attempts a parse only once the buffer has
 reached the bound the last attempt reported.

 `Frames` is what a reader without that gate gets out of a buffer. The gated reader
 is proved to have delivered exactly those frames after every chunk, however the
 stream was cut.
 */
module RespReader {
  import opened Bytes
  import opened Resp
  import opened RespStream
  import opened RespRoundTrip
  import RespParser

  // Frames at the start of a buffer, with the number of bytes they take.
  function Frames(b: bytes): (vs: seq<Value>)
    decreases |b|
  {
    var r := Parse(b, 0);
    if r.Ok? then [r.value] + Frames(b[r.len..]) else []
  }

  function Consumed(b: bytes): (n: nat)
    ensures n <= |b|
    decreases |b|
  {
    var r := Parse(b, 0);
    if r.Ok? then r.len + Consumed(b[r.len..]) else 0
  }

  lemma {:induction false} AfterFrames(b: bytes)
    ensures !Parse(b[Consumed(b)..], 0).Ok?
    decreases |b|
  {
    hide Parse;
    var r := Parse(b, 0);
    if r.Ok? {
      AfterFrames(b[r.len..]);
      assert b[r.len..][Consumed(b[r.len..])..] == b[Consumed(b)..];
    } else {
      assert b[0..] == b;
    }
  }

  // Later bytes add frames and never change earlier ones.
  lemma {:induction false} FramesOfLonger(b: bytes, more: bytes)
    ensures Frames(b + more) == Frames(b) + Frames(b[Consumed(b)..] + more)
    ensures Consumed(b + more) == Consumed(b) + Consumed(b[Consumed(b)..] + more)
    decreases |b|
  {
    hide Parse;
    var r := Parse(b, 0);
    if r.Ok? {
      var rest := b[r.len..];
      assert (b + more)[..|b|] == b && (b + more)[r.len..] == rest + more;
      VerdictIsFinal(b + more, |b|, 0);
      FramesOfLonger(rest, more);
      assert b[Consumed(b)..] == rest[Consumed(rest)..];
      assert Frames(b + more) == [r.value] + Frames(rest + more);
    } else {
      assert b[0..] == b;
    }
  }

  lemma FirstFrame(b: bytes, v: Value, n: nat)
    requires Parse(b, 0) == Ok(v, n)
    ensures n <= |b| && Frames(b) == [v] + Frames(b[n..]) && Consumed(b) == n + Consumed(b[n..])
  {
    hide Parse;
  }

  // A stream of encodable values decodes to the values that were written.
  lemma {:induction false} StreamRoundTrip(vs: seq<Value>, rest: bytes)
    requires AllEncodable(vs, 0)
    ensures Frames(SerializeAll(vs) + rest) == vs + Frames(rest)
    ensures Consumed(SerializeAll(vs) + rest) == |SerializeAll(vs)| + Consumed(rest)
    decreases |vs|
  {
    hide Parse, Serialize, Frames, Consumed;
    if vs == [] {
      assert SerializeAll(vs) + rest == rest;
    } else {
      var first, others := Serialize(vs[0]), SerializeAll(vs[1..]);
      assert SerializeAll(vs) == first + others;
      AllEncodableStep(vs, 0);
      hide SerializeAll, AllEncodable, Encodable;
      Exact(vs[0], 0, others + rest);
      StreamRoundTrip(vs[1..], rest);
      Regroup([], first, others, rest);
      var b := SerializeAll(vs) + rest;
      assert b == first + (others + rest);
      FirstFrame(b, vs[0], |first|);
      assert b[|first|..] == others + rest;
      assert vs == [vs[0]] + vs[1..];
    }
  }

  class FrameReader {
    var buf: bytes
    var readPos: nat
    var need: nat
    ghost var received: bytes    // since the connection was opened or reset
    ghost var delivered: seq<Value>
    ghost var attempted: bytes   // the buffer at the last attempt

    ghost predicate Valid()
      reads this
    {
      && readPos == 0
      && buf == received[Consumed(received)..]
      && delivered == Frames(received)
      && attempted <= buf
      && (need > 0 ==> Parse(attempted, 0) == Err(Incomplete(need)))
    }

    constructor ()
      ensures Valid() && received == [] && delivered == []
    {
      buf, readPos, need := [], 0, 0;
      received, delivered, attempted := [], [], [];
    }

    // The frames that are complete by now. Completeness is decided by measuring; a
    // value is built only for a frame known to be whole.
    method Drain() returns (frames: seq<Value>, error: Option<ParseError>)
      requires readPos == 0
      modifies this`buf, this`readPos, this`need
      ensures readPos == 0 && frames == Frames(old(buf))
      ensures var left := old(buf)[Consumed(old(buf))..];
        match error
        case None => buf == left && need > 0 && Parse(left, 0) == Err(Incomplete(need))
        case Some(e) =>
          buf == [] && need == 0 && !e.Incomplete? && Parse(left, 0) == Err(e)
    {
      hide Parse, Frames, Consumed;
      frames, error := [], None;
      assert buf[0..] == buf;
      while true
        invariant readPos <= |buf| && buf == old(buf)
        invariant frames + Frames(buf[readPos..]) == Frames(buf)
        invariant readPos + Consumed(buf[readPos..]) == Consumed(buf)
        decreases |buf| - readPos
      {
        var left := buf[readPos..];
        var measured := RespParser.FrameLen(left);
        if measured.Err? {
          NoFrame(left);
          if measured.error.Incomplete? {
            BoundIsAhead(left, 0);
            need := measured.error.needed;
            buf := left;
            readPos := 0;
            return;
          }
          error := Some(measured.error);
          buf, readPos, need := [], 0, 0;
          return;
        }
        var frame := RespParser.ParseFrame(left);
        FirstFrame(left, frame.value, frame.len);
        assert left[frame.len..] == buf[readPos + frame.len..];
        frames := frames + [frame.value];
        readPos := readPos + frame.len;
      }
    }

    // One read from the socket. After a protocol error the buffer is dropped and the
    // reader starts over with whatever arrives next.
    method Feed(chunk: bytes) returns (frames: seq<Value>, error: Option<ParseError>)
      requires Valid()
      modifies this
      ensures Valid()
      ensures error.None? ==>
        && received == old(received) + chunk
        && delivered == old(delivered) + frames
      ensures var whole := old(received) + chunk;
        error.Some? ==>
          && old(delivered) + frames == Frames(whole)
          && Parse(whole[Consumed(whole)..], 0) == Err(error.value) && !error.value.Incomplete?
          && received == [] && delivered == [] && buf == []
    {
      hide Parse, Frames, Consumed;
      ghost var before := received;
      FramesOfLonger(before, chunk);
      buf := buf + chunk;
      received := before + chunk;
      assert received[Consumed(before)..] == buf;
      assert received[Consumed(received)..] == buf[Consumed(buf)..];
      if |buf| - readPos < need {
        GateIsSafe(attempted, buf);
        NoFrame(buf);
        frames, error := [], None;
        assert received[Consumed(received)..] == buf[0..] == buf;
        assert delivered + [] == delivered;
        return;
      }
      frames, error := Drain();
      if error.Some? {
        received, delivered := [], [];
        NoFrame([]);
      } else {
        delivered := delivered + frames;
      }
      attempted := buf;
    }
  }

  lemma NoFrame(b: bytes)
    requires !Parse(b, 0).Ok? || b == []
    ensures Frames(b) == [] && Consumed(b) == 0
  {
  }
}
