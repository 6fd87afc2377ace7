/** Decimal text as the engine reads and writes it. */
module Decimal {
  import opened Bytes

  const PLUS: byte := 43
  const MINUS: byte := 45
  const ZERO: byte := 48

  const I64_END: int := 0x8000_0000_0000_0000
  const U64_END: int := 0x1_0000_0000_0000_0000

  type i64 = x: int | -I64_END <= x < I64_END

  predicate IsDigit(c: byte) {
    ZERO <= c < ZERO + 10
  }

  predicate AllDigits(s: bytes) {
    forall i :: 0 <= i < |s| ==> IsDigit(s[i])
  }

  function Magnitude(s: bytes): nat
    requires AllDigits(s)
  {
    if s == [] then 0 else 10 * Magnitude(s[..|s| - 1]) + (s[|s| - 1] - ZERO)
  }

  function Digits(n: nat): (s: bytes)
    ensures s != [] && AllDigits(s)
  {
    if n < 10 then [ZERO + n] else Digits(n / 10) + [ZERO + n % 10]
  }

  lemma {:induction false} MagnitudeOfDigits(n: nat)
    ensures Magnitude(Digits(n)) == n
    decreases n
  {
    if n < 10 {
      assert Digits(n)[..0] == [];
    } else {
      MagnitudeOfDigits(n / 10);
      var front := Digits(n / 10);
      assert Digits(n)[..|front|] == front;
    }
  }

  function Format(n: int): bytes {
    if n < 0 then [MINUS] + Digits(-n) else Digits(n)
  }

  // A sign is optional; at least one digit must follow; the value must fit.
  function ParseI64(s: bytes): Option<i64> {
    var negative := s != [] && s[0] == MINUS;
    var body := if s != [] && (s[0] == MINUS || s[0] == PLUS) then s[1..] else s;
    if body == [] || !AllDigits(body) then None
    else
      var m: int := Magnitude(body);
      var n := if negative then -m else m;
      if -I64_END <= n < I64_END then Some(n) else None
  }

  // As above, but a minus sign is never accepted.
  function ParseU64(s: bytes): Option<nat> {
    var body := if s != [] && s[0] == PLUS then s[1..] else s;
    if body == [] || !AllDigits(body) || Magnitude(body) >= U64_END then None
    else Some(Magnitude(body))
  }

  lemma FormatRoundTrip(n: i64)
    ensures ParseI64(Format(n)) == Some(n)
  {
    MagnitudeOfDigits(if n < 0 then -(n as int) else n);
    if n < 0 {
      var m: int := n;
      assert Format(m)[1..] == Digits(-m);
    } else {
      assert IsDigit(Digits(n)[0]);
    }
  }

  lemma DigitsRoundTrip(n: nat)
    ensures ParseU64(Digits(n)) == if n < U64_END then Some(n) else None
    ensures ParseI64(Digits(n)) == if n < I64_END then Some(n) else None
  {
    MagnitudeOfDigits(n);
    assert IsDigit(Digits(n)[0]);
  }
}
