/**
 The glob matcher behind KEYS, SCAN MATCH, sync scopes and pattern subscriptions.

 `Matches` is the documented meaning of a pattern: a star stands for any run of
 bytes, a question mark for one byte, anything else for itself. The matcher tests
 "same byte" before it tests "star", so a star in the pattern that meets a star
 byte in the text consumes just that byte. `ShadowedMatches` is that behaviour,
 and the matcher is proved to compute exactly it. The two notions part company,
 and the last section says precisely when.
 */
module Glob {
  import opened Bytes

  const STAR: byte := 42
  const ANY_ONE: byte := 63

  predicate OneByte(c: byte, x: byte) {
    c == ANY_ONE || c == x
  }

  // ── What a pattern means ────────────────────────────────────────────────────

  ghost predicate Matches(p: bytes, t: bytes)
    decreases |p|
  {
    if p == [] then t == []
    else if p[0] == STAR then exists k :: 0 <= k <= |t| && Matches(p[1..], t[k..])
    else t != [] && OneByte(p[0], t[0]) && Matches(p[1..], t[1..])
  }

  // The same meaning without recursion over the pattern: the text splits into
  // one piece per pattern byte, and every piece suits its pattern byte.
  ghost predicate Suits(c: byte, piece: bytes) {
    if c == STAR then true
    else |piece| == 1 && OneByte(c, piece[0])
  }

  ghost function Joined(pieces: seq<bytes>): bytes {
    if pieces == [] then [] else pieces[0] + Joined(pieces[1..])
  }

  ghost predicate Splits(p: bytes, t: bytes, pieces: seq<bytes>) {
    && |pieces| == |p|
    && Joined(pieces) == t
    && forall i :: 0 <= i < |p| ==> Suits(p[i], pieces[i])
  }

  lemma {:induction false} MatchesIffSplits(p: bytes, t: bytes)
    ensures Matches(p, t) <==> exists pieces :: Splits(p, t, pieces)
    decreases |p|
  {
    if Matches(p, t) {
      var pieces := PiecesOf(p, t);
      assert Splits(p, t, pieces);
    }
    if exists pieces :: Splits(p, t, pieces) {
      var pieces :| Splits(p, t, pieces);
      MatchedByPieces(p, t, pieces);
    }
  }

  lemma {:induction false} PiecesOf(p: bytes, t: bytes) returns (pieces: seq<bytes>)
    requires Matches(p, t)
    ensures Splits(p, t, pieces)
    decreases |p|
  {
    if p == [] {
      pieces := [];
    } else {
      var k := 1;
      if p[0] == STAR {
        k :| 0 <= k <= |t| && Matches(p[1..], t[k..]);
      }
      var rest := PiecesOf(p[1..], t[k..]);
      pieces := [t[..k]] + rest;
      assert pieces[1..] == rest;
      assert t == t[..k] + t[k..];
      forall i | 0 <= i < |p| ensures Suits(p[i], pieces[i]) {
        if i > 0 { assert p[i] == p[1..][i - 1]; }
      }
    }
  }

  lemma {:induction false} MatchedByPieces(p: bytes, t: bytes, pieces: seq<bytes>)
    requires Splits(p, t, pieces)
    ensures Matches(p, t)
    decreases |p|
  {
    if p != [] {
      var k := |pieces[0]|;
      assert t[k..] == Joined(pieces[1..]);
      forall i | 0 <= i < |p| - 1 ensures Suits(p[1..][i], pieces[1..][i]) {
        assert p[1..][i] == p[i + 1];
      }
      MatchedByPieces(p[1..], t[k..], pieces[1..]);
      assert Suits(p[0], pieces[0]);
      if p[0] != STAR { assert t[0] == pieces[0][0]; }
    }
  }

  // ── What the matcher computes ───────────────────────────────────────────────

  ghost predicate ShadowedMatches(p: bytes, t: bytes)
    decreases |p|
  {
    if p == [] then t == []
    else if t != [] && OneByte(p[0], t[0]) then ShadowedMatches(p[1..], t[1..])
    else if p[0] == STAR then exists k :: 0 <= k <= |t| && ShadowedMatches(p[1..], t[k..])
    else false
  }

  // What is still open while a star is remembered: it may stop anywhere from here on.
  ghost predicate FromSomewhere(q: bytes, t: bytes) {
    exists k :: 0 <= k <= |t| && ShadowedMatches(q, t[k..])
  }

  // The first n steps from (q, t) each consumed one byte of both.
  ghost predicate Run(q: bytes, t: bytes, n: nat) {
    n <= |q| && n <= |t| && forall x :: 0 <= x < n ==> OneByte(q[x], t[x])
  }

  lemma {:induction false} RunDecides(q: bytes, t: bytes, n: nat)
    requires Run(q, t, n)
    ensures ShadowedMatches(q, t) <==> ShadowedMatches(q[n..], t[n..])
    decreases n
  {
    if n == 0 {
      assert q[0..] == q && t[0..] == t;
    } else {
      assert OneByte(q[0], t[0]);
      forall x | 0 <= x < n - 1 ensures OneByte(q[1..][x], t[1..][x]) {
        assert OneByte(q[x + 1], t[x + 1]);
      }
      RunDecides(q[1..], t[1..], n - 1);
      assert q[1..][n - 1..] == q[n..] && t[1..][n - 1..] == t[n..];
    }
  }

  // One step of a match: the first pattern byte takes the first k bytes of the text.
  lemma FirstBite(q: bytes, t: bytes) returns (k: nat)
    requires q != [] && ShadowedMatches(q, t)
    ensures k <= |t| && ShadowedMatches(q[1..], t[k..])
    ensures t != [] && OneByte(q[0], t[0]) ==> k == 1
    ensures q[0] != STAR ==> k == 1
  {
    if t != [] && OneByte(q[0], t[0]) {
      k := 1;
    } else {
      k :| 0 <= k <= |t| && ShadowedMatches(q[1..], t[k..]);
    }
  }

  // Only the latest star needs remembering. If the run from (q, t) came to the
  // end of the text, or to a further star that is free to stretch, then any
  // later start s that could succeed is also reachable from where the run is.
  lemma {:induction false} LatestStarSuffices(q: bytes, t: bytes, n: nat, s: nat)
    requires Run(q, t, n)
    requires n == |t| || (n < |q| && q[n] == STAR && t[n] != STAR)
    requires s <= |t| && ShadowedMatches(q, t[s..])
    ensures ShadowedMatches(q[n..], t[n..])
    decreases n
  {
    hide ShadowedMatches;
    if n == |t| && n == 0 {
      assert q[0..] == q && t[s..] == t[0..];
    } else if n == 0 {
      var k := FirstBite(q, t[s..]);
      assert t[s..][k..] == t[s + k..];
      assert q[0..] == q && t[0..] == t;
      StarStretches(q, t, s + k);
    } else {
      assert OneByte(q[0], t[0]);
      var k := FirstBite(q, t[s..]);
      assert s + k > 0;
      assert t[s..][k..] == t[1..][s + k - 1..];
      RunTail(q, t, n);
      LatestStarSuffices(q[1..], t[1..], n - 1, s + k - 1);
      assert q[1..][n - 1..] == q[n..] && t[1..][n - 1..] == t[n..];
    }
  }

  lemma StarStretches(q: bytes, t: bytes, k: nat)
    requires q != [] && q[0] == STAR && t != [] && t[0] != STAR && k <= |t| && ShadowedMatches(q[1..], t[k..])
    ensures ShadowedMatches(q, t)
  {
  }

  lemma RunTail(q: bytes, t: bytes, n: nat)
    requires Run(q, t, n) && n > 0
    ensures Run(q[1..], t[1..], n - 1)
  {
    forall x | 0 <= x < n - 1 ensures OneByte(q[1..][x], t[1..][x]) {
      assert OneByte(q[x + 1], t[x + 1]);
    }
  }

  lemma CommitToLatestStar(q: bytes, t: bytes, n: nat)
    requires Run(q, t, n)
    requires n == |t| || (n < |q| && q[n] == STAR && t[n] != STAR)
    ensures FromSomewhere(q, t) <==> ShadowedMatches(q[n..], t[n..])
  {
    if FromSomewhere(q, t) {
      var s :| 0 <= s <= |t| && ShadowedMatches(q, t[s..]);
      LatestStarSuffices(q, t, n, s);
    }
    if ShadowedMatches(q[n..], t[n..]) {
      RunDecides(q, t, n);
      assert t[0..] == t;
    }
  }

  lemma StretchByOne(q: bytes, t: bytes)
    requires t != [] && !ShadowedMatches(q, t)
    ensures FromSomewhere(q, t) <==> FromSomewhere(q, t[1..])
  {
    if FromSomewhere(q, t) {
      var k :| 0 <= k <= |t| && ShadowedMatches(q, t[k..]);
      assert t[0..] == t;
      assert t[1..][k - 1..] == t[k..];
    }
    if FromSomewhere(q, t[1..]) {
      var k :| 0 <= k <= |t[1..]| && ShadowedMatches(q, t[1..][k..]);
      assert t[1..][k..] == t[k + 1..];
    }
  }

  // What the loop knows at (i, j): without a star, the answer is the match of
  // what is left; with a star, everything since it was a run, and the answer is
  // whether the bytes after the star fit somewhere from `resume` on.
  ghost predicate OnTrack(pat: bytes, text: bytes, i: nat, j: nat, star: Option<nat>, resume: nat) {
    && resume <= i <= |text| && j <= |pat|
    && match star
       case None => ShadowedMatches(pat, text) == ShadowedMatches(pat[j..], text[i..])
       case Some(at) =>
         && at < j && pat[at] == STAR
         && j - at - 1 == i - resume
         && Run(pat[at + 1..], text[resume..], i - resume)
         && ShadowedMatches(pat, text) == FromSomewhere(pat[at + 1..], text[resume..])
  }

  lemma RunOn(q: bytes, t: bytes, n: nat)
    requires Run(q, t, n) && n < |q| && n < |t| && OneByte(q[n], t[n])
    ensures Run(q, t, n + 1)
  {
  }

  lemma TakeBare(p: bytes, t: bytes)
    requires p != [] && t != [] && OneByte(p[0], t[0])
    ensures ShadowedMatches(p, t) == ShadowedMatches(p[1..], t[1..])
  {
  }

  lemma TakeOneByte(pat: bytes, text: bytes, i: nat, j: nat, star: Option<nat>, resume: nat)
    requires OnTrack(pat, text, i, j, star, resume)
    requires i < |text| && j < |pat| && OneByte(pat[j], text[i])
    ensures OnTrack(pat, text, i + 1, j + 1, star, resume)
  {
    hide ShadowedMatches, FromSomewhere, OneByte, Run;
    if star.None? {
      TakeBare(pat[j..], text[i..]);
      assert pat[j..][1..] == pat[j + 1..] && text[i..][1..] == text[i + 1..];
    } else {
      var q, t, n := pat[star.value + 1..], text[resume..], i - resume;
      assert q[n] == pat[j] && t[n] == text[i];
      RunOn(q, t, n);
    }
  }

  lemma RememberStar(pat: bytes, text: bytes, i: nat, j: nat, star: Option<nat>, resume: nat)
    requires OnTrack(pat, text, i, j, star, resume)
    requires i < |text| && j < |pat| && pat[j] == STAR && text[i] != STAR
    ensures OnTrack(pat, text, i, j + 1, Some(j), i)
  {
    var p, t := pat[j..], text[i..];
    assert p[1..] == pat[j + 1..];
    if star.Some? {
      CommitToLatestStar(pat[star.value + 1..], text[resume..], i - resume);
      assert pat[star.value + 1..][i - resume..] == p;
      assert text[resume..][i - resume..] == t;
    }
    assert ShadowedMatches(p, t) == FromSomewhere(p[1..], t);
  }

  lemma Backtrack(pat: bytes, text: bytes, i: nat, j: nat, at: nat, resume: nat)
    requires OnTrack(pat, text, i, j, Some(at), resume)
    requires i < |text| && (j < |pat| ==> !OneByte(pat[j], text[i]) && pat[j] != STAR)
    ensures OnTrack(pat, text, resume + 1, at + 1, Some(at), resume + 1)
  {
    var q, t := pat[at + 1..], text[resume..];
    RunDecides(q, t, i - resume);
    assert q[i - resume..] == pat[j..] && t[i - resume..] == text[i..];
    StretchByOne(q, t);
    assert t[1..] == text[resume + 1..];
  }

  lemma AtEndOfText(pat: bytes, text: bytes, j: nat, star: Option<nat>, resume: nat)
    requires OnTrack(pat, text, |text|, j, star, resume)
    ensures ShadowedMatches(pat, text) == ShadowedMatches(pat[j..], [])
  {
    assert text[|text|..] == [];
    if star.Some? {
      var q, t := pat[star.value + 1..], text[resume..];
      CommitToLatestStar(q, t, |t|);
      assert q[|t|..] == pat[j..] && t[|t|..] == [];
    }
  }

  lemma Stuck(pat: bytes, text: bytes, i: nat, j: nat)
    requires OnTrack(pat, text, i, j, None, 0)
    requires i < |text| && (j < |pat| ==> !OneByte(pat[j], text[i]) && pat[j] != STAR)
    ensures !ShadowedMatches(pat, text)
  {
  }

  lemma AtStart(pat: bytes, text: bytes)
    ensures OnTrack(pat, text, 0, 0, None, 0)
  {
    assert pat[0..] == pat && text[0..] == text;
  }

  lemma OnNothing(p: bytes)
    ensures p != [] && p[0] == STAR ==> (ShadowedMatches(p, []) <==> ShadowedMatches(p[1..], []))
    ensures p == [] || p[0] != STAR ==> (ShadowedMatches(p, []) <==> p == [])
  {
    var none: bytes := [];
    assert none[0..] == none;
  }

  // As many rows of one length.
  function Rows(row: nat, n: nat): nat {
    if n == 0 then 0 else Rows(row, n - 1) + row
  }

  lemma {:induction false} RowsIsProduct(row: nat, n: nat)
    ensures Rows(row, n) == row * n
  {
    if n > 0 {
      RowsIsProduct(row, n - 1);
      assert row * n == row * (n - 1) + row;
    }
  }

  lemma {:induction false} RowsApart(row: nat, m: nat, n: nat)
    requires m < n
    ensures Rows(row, m) + row <= Rows(row, n)
    decreases n
  {
    if m < n - 1 { RowsApart(row, m, n - 1); }
  }

  // The two-pointer loop with one backtrack point. `steps` counts iterations of
  // both loops: at most (|pat| + 1) * (|text| + 1), by RowsIsProduct.
  method GlobMatch(pat: bytes, text: bytes) returns (matched: bool, ghost steps: nat)
    ensures matched == ShadowedMatches(pat, text)
    ensures steps <= Rows(|pat| + 1, |text| + 1)
  {
    hide OnTrack, ShadowedMatches;
    var m: nat, n: nat := |pat|, |text|;
    ghost var row := m + 1;
    var i: nat, j: nat := 0, 0;
    var star: Option<nat> := None;
    var resume: nat := 0;
    steps := 0;
    AtStart(pat, text);

    while i < n
      invariant resume <= i <= n && j <= m
      invariant if star.Some? then star.value < j else resume == 0
      invariant OnTrack(pat, text, i, j, star, resume)
      invariant steps <= Rows(row, resume) + j
      decreases n - resume, m - j
    {
      RowsApart(row, resume, n + 1);
      steps := steps + 1;
      if j < m && (pat[j] == ANY_ONE || pat[j] == text[i]) {
        TakeOneByte(pat, text, i, j, star, resume);
        i, j := i + 1, j + 1;
      } else if j < m && pat[j] == STAR {
        RememberStar(pat, text, i, j, star, resume);
        if resume < i { RowsApart(row, resume, i); }
        star := Some(j);
        j := j + 1;
        resume := i;
      } else if star.Some? {
        Backtrack(pat, text, i, j, star.value, resume);
        RowsApart(row, resume, resume + 1);
        j := star.value + 1;
        resume := resume + 1;
        i := resume;
      } else {
        Stuck(pat, text, i, j);
        return false, steps;
      }
    }

    AtEndOfText(pat, text, j, star, resume);
    if resume < n { RowsApart(row, resume, n); }
    while j < m && pat[j] == STAR
      invariant j <= m
      invariant ShadowedMatches(pat, text) == ShadowedMatches(pat[j..], [])
      invariant steps <= Rows(row, n) + j
    {
      assert pat[j..][1..] == pat[j + 1..];
      OnNothing(pat[j..]);
      steps := steps + 1;
      j := j + 1;
    }
    OnNothing(pat[j..]);
    RowsApart(row, n, n + 1);
    matched := j == m;
  }

  // A pattern without a star matches byte by byte: a question mark (63) any byte, every
  // other byte itself.
  lemma {:induction false} WithoutStarByteByByte(p: bytes, t: bytes)
    requires 42 !in p
    ensures ShadowedMatches(p, t) <==> |p| == |t| && forall i :: 0 <= i < |p| ==> p[i] == 63 || p[i] == t[i]
    decreases |p|
  {
    if p != [] && t != [] {
      assert p == [p[0]] + p[1..] && t == [t[0]] + t[1..];
      WithoutStarByteByByte(p[1..], t[1..]);
      if |p| == |t| && forall i :: 0 <= i < |p| ==> p[i] == 63 || p[i] == t[i] {
        forall i | 0 <= i < |p| - 1 ensures p[1..][i] == 63 || p[1..][i] == t[1..][i] {
          assert p[i + 1] == 63 || p[i + 1] == t[i + 1];
        }
      }
    }
  }

  // ── Where the two notions part company ──────────────────────────────────────

  // The matcher never accepts what the pattern does not mean.
  lemma {:induction false} NeverOvermatches(p: bytes, t: bytes)
    requires ShadowedMatches(p, t)
    ensures Matches(p, t)
    decreases |p|
  {
    if p != [] {
      var k := FirstBite(p, t);
      NeverOvermatches(p[1..], t[k..]);
    }
  }

  // It accepts everything the pattern means as soon as one side is free of star bytes.
  lemma {:induction false} AgreesWhenOneSideIsStarFree(p: bytes, t: bytes)
    requires STAR !in p || STAR !in t
    ensures ShadowedMatches(p, t) <==> Matches(p, t)
    decreases |p|
  {
    if ShadowedMatches(p, t) {
      NeverOvermatches(p, t);
    }
    if Matches(p, t) && p != [] {
      var k := 1;
      if p[0] == STAR {
        k :| 0 <= k <= |t| && Matches(p[1..], t[k..]);
      }
      AgreesWhenOneSideIsStarFree(p[1..], t[k..]);
      if t != [] && p[0] == STAR {
        assert t[0] != STAR;
      }
    }
  }

  lemma StarDoesNotMatchStarThenA()
    ensures Matches([STAR], [STAR, 97]) && !ShadowedMatches([STAR], [STAR, 97])
  {
    var p: bytes, t: bytes := [STAR], [STAR, 97];
    assert p[1..] == [] && t[2..] == [] && t[1..] == [97];
  }

  lemma SkipWildcards(n: nat, q: bytes, t: bytes)
    requires n <= |t|
    ensures Matches(Wildcards(n) + q, t) <==> Matches(q, t[n..])
    ensures ShadowedMatches(Wildcards(n) + q, t) <==> ShadowedMatches(q, t[n..])
  {
    hide Matches, ShadowedMatches;
    var w := Wildcards(n);
    assert (w + q)[n..] == q && (w + q)[..n] == w;
    assert Run(w + q, t, n);
    RunDecides(w + q, t, n);
    MatchesAlongRun(w + q, t, n);
  }

  // A star among question marks, on a text that has a star byte there.
  lemma StarMeetsStarByte(t: bytes)
    requires t != [] && t[0] == STAR
    ensures Matches([STAR] + Wildcards(|t|), t) && !ShadowedMatches([STAR] + Wildcards(|t|), t)
  {
    var rest := Wildcards(|t|);
    assert ([STAR] + rest)[1..] == rest && t[0..] == t;
    assert rest == rest + [] && rest == Wildcards(|t| - 1) + [ANY_ONE];
    SkipWildcards(|t|, [], t);
    SkipWildcards(|t| - 1, [ANY_ONE], t[1..]);
  }

  // So the pattern that should match everything misses the longer texts that begin
  // with a star byte, and no others.
  lemma LoneStarMatchesIff(t: bytes)
    ensures ShadowedMatches([STAR], t) <==> !(|t| > 1 && t[0] == STAR)
  {
    var p: bytes := [STAR];
    assert p[1..] == [] && t[|t|..] == [];
    assert ShadowedMatches([], t[|t|..]);
    if t != [] && t[0] == STAR {
      assert ShadowedMatches(p, t) <==> ShadowedMatches([], t[1..]);
    }
  }

  // A text is matched as documented by every pattern iff it holds no star byte.
  lemma TextIsSafeIffStarFree(t: bytes)
    ensures (forall p :: ShadowedMatches(p, t) == Matches(p, t)) <==> STAR !in t
  {
    hide Matches, ShadowedMatches;
    if STAR in t {
      var a :| 0 <= a < |t| && t[a] == STAR;
      SkipWildcards(a, [STAR] + Wildcards(|t| - a), t);
      StarMeetsStarByte(t[a..]);
    } else {
      forall p ensures ShadowedMatches(p, t) == Matches(p, t) {
        AgreesWhenOneSideIsStarFree(p, t);
      }
    }
  }

  // A pattern behaves as documented on every text iff it holds no star.
  lemma PatternIsSafeIffStarFree(p: bytes)
    ensures (forall t :: ShadowedMatches(p, t) == Matches(p, t)) <==> STAR !in p
  {
    if STAR in p {
      var a := FirstStar(p);
      var rest := p[a + 1..];
      var stars: bytes := seq(|p| + 1, _ => STAR);
      var t := p[..a] + (stars + WithoutStars(rest));
      RunDecides(p, t, a);
      MatchesAlongRun(p, t, a);
      assert t[a..] == stars + WithoutStars(rest) && p[a..][1..] == rest;
      TooManyStarBytes(p[a..], stars, WithoutStars(rest));
      StarsMayBeEmpty(rest);
      assert t[a..][|p| + 1..] == WithoutStars(rest);
      assert ShadowedMatches(p, t) != Matches(p, t);
    } else {
      forall t ensures ShadowedMatches(p, t) == Matches(p, t) {
        AgreesWhenOneSideIsStarFree(p, t);
      }
    }
  }

  function Wildcards(n: nat): bytes {
    seq(n, _ => ANY_ONE)
  }

  function WithoutStars(p: bytes): bytes {
    if p == [] then [] else (if p[0] == STAR then [] else [p[0]]) + WithoutStars(p[1..])
  }

  lemma {:induction false} FirstStar(p: bytes) returns (a: nat)
    requires STAR in p
    ensures a < |p| && p[a] == STAR && STAR !in p[..a]
  {
    if p[0] == STAR {
      a := 0;
    } else {
      a := FirstStar(p[1..]);
      assert p[..a + 1] == [p[0]] + p[1..][..a];
      a := a + 1;
    }
  }

  lemma {:induction false} MatchesAlongRun(q: bytes, t: bytes, n: nat)
    requires Run(q, t, n) && STAR !in q[..n]
    ensures Matches(q, t) <==> Matches(q[n..], t[n..])
    decreases n
  {
    if n == 0 {
      assert q[0..] == q && t[0..] == t;
    } else {
      assert OneByte(q[0], t[0]) && q[0] == q[..n][0];
      RunTail(q, t, n);
      assert q[1..][..n - 1] == q[..n][1..];
      MatchesAlongRun(q[1..], t[1..], n - 1);
      assert q[1..][n - 1..] == q[n..] && t[1..][n - 1..] == t[n..];
    }
  }

  lemma {:induction false} TooManyStarBytes(p: bytes, stars: bytes, rest: bytes)
    requires |p| < |stars| && forall i :: 0 <= i < |stars| ==> stars[i] == STAR
    ensures !ShadowedMatches(p, stars + rest)
    decreases |p|
  {
    if p != [] {
      var t := stars + rest;
      assert t[0] == stars[0] == STAR;
      assert t[1..] == stars[1..] + rest;
      TooManyStarBytes(p[1..], stars[1..], rest);
    }
  }

  lemma {:induction false} StarsMayBeEmpty(p: bytes)
    ensures Matches(p, WithoutStars(p))
  {
    if p != [] {
      StarsMayBeEmpty(p[1..]);
      var w := WithoutStars(p);
      if p[0] == STAR {
        assert w == WithoutStars(p[1..]) && w[0..] == w;
      } else {
        assert w[1..] == WithoutStars(p[1..]);
      }
    }
  }

  // ── The table-filling matcher this loop replaced ────────────────────────────

  // The first pattern byte takes the first b bytes of the text.
  ghost predicate Takes(c: byte, t: bytes, b: nat) {
    b <= |t| && (c == STAR || (b == 1 && OneByte(c, t[0])))
  }

  lemma MatchesCons(p: bytes, t: bytes, b: nat)
    requires p != [] && Takes(p[0], t, b) && Matches(p[1..], t[b..])
    ensures Matches(p, t)
  {
  }

  lemma MatchesFirst(p: bytes, t: bytes) returns (b: nat)
    requires p != [] && Matches(p, t)
    ensures Takes(p[0], t, b) && Matches(p[1..], t[b..])
  {
    if p[0] == STAR {
      b :| 0 <= b <= |t| && Matches(p[1..], t[b..]);
    } else {
      b := 1;
    }
  }

  lemma {:induction false} MatchesJoin(p: bytes, q: bytes, t: bytes, k: nat)
    requires k <= |t| && Matches(p, t[..k]) && Matches(q, t[k..])
    ensures Matches(p + q, t)
    decreases |p|
  {
    if p == [] {
      assert p + q == q && t[..k] == [] && t[k..] == t;
    } else {
      hide Matches, OneByte;
      var b := MatchesFirst(p, t[..k]);
      Pieces(t, b, k - b);
      MatchesJoin(p[1..], q, t[b..], k - b);
      assert (p + q)[1..] == p[1..] + q;
      MatchesCons(p + q, t, b);
    }
  }

  lemma SplitAfter(p: bytes, q: bytes, t: bytes, b: nat, rest: nat)
    requires p != [] && Takes(p[0], t, b) && b + rest <= |t|
    requires Matches(p[1..], t[b..][..rest]) && Matches(q, t[b..][rest..])
    ensures Matches(p, t[..b + rest]) && Matches(q, t[b + rest..])
  {
    hide Matches, OneByte;
    Pieces(t, b, rest);
    MatchesCons(p, t[..b + rest], b);
  }

  lemma FirstOfTwo(p: bytes, q: bytes)
    requires p != []
    ensures (p + q)[1..] == p[1..] + q && (p + q)[0] == p[0]
  {
  }

  lemma {:induction false} MatchesSplit(p: bytes, q: bytes, t: bytes) returns (k: nat)
    requires Matches(p + q, t)
    ensures k <= |t| && Matches(p, t[..k]) && Matches(q, t[k..])
    decreases |p|
  {
    if p == [] {
      assert p + q == q && t[..0] == [] && t[0..] == t;
      k := 0;
    } else {
      hide Matches, Takes;
      FirstOfTwo(p, q);
      var b := MatchesFirst(p + q, t);
      TakesWithin(p[0], t, b);
      var rest := MatchesSplit(p[1..], q, t[b..]);
      SplitAfter(p, q, t, b, rest);
      k := b + rest;
    }
  }

  lemma TakesWithin(c: byte, t: bytes, b: nat)
    requires Takes(c, t, b)
    ensures b <= |t|
  {
  }

  lemma Pieces(t: bytes, b: nat, rest: nat)
    requires b + rest <= |t|
    ensures t[..b + rest][b..] == t[b..][..rest] && t[b..][rest..] == t[b + rest..]
    ensures b > 0 ==> t[..b + rest][0] == t[0]
  {
  }

  // One cell of the table from its neighbours.
  lemma Cell(pat: bytes, text: bytes, i: nat, j: nat)
    requires i < |pat| && j <= |text|
    ensures Matches(pat[..i + 1], text[..j]) <==>
      if pat[i] == STAR then
        Matches(pat[..i], text[..j]) || (j > 0 && Matches(pat[..i + 1], text[..j - 1]))
      else
        j > 0 && OneByte(pat[i], text[j - 1]) && Matches(pat[..i], text[..j - 1])
  {
    var p, t := pat[..i], text[..j];
    assert pat[..i + 1] == p + [pat[i]];
    LastByteOf(p, pat[i], t);
    assert t[..j] == t;
    if j > 0 {
      var u := text[..j - 1];
      assert t[..j - 1] == u;
      LastByteOf(p, pat[i], u);
      assert forall k :: 0 <= k <= |u| ==> u[..k] == t[..k];
    }
  }

  lemma LastByteOf(p: bytes, c: byte, t: bytes)
    ensures Matches(p + [c], t) <==>
      if c == STAR then exists k :: 0 <= k <= |t| && Matches(p, t[..k])
      else t != [] && OneByte(c, t[|t| - 1]) && Matches(p, t[..|t| - 1])
  {
    hide Matches;
    if Matches(p + [c], t) {
      var k := MatchesSplit(p, [c], t);
      OneToken(c, t[k..]);
    }
    if c == STAR {
      if k :| 0 <= k <= |t| && Matches(p, t[..k]) {
        OneToken(c, t[k..]);
        MatchesJoin(p, [c], t, k);
      }
    } else if t != [] && OneByte(c, t[|t| - 1]) && Matches(p, t[..|t| - 1]) {
      OneToken(c, t[|t| - 1..]);
      MatchesJoin(p, [c], t, |t| - 1);
    }
  }

  lemma OneToken(c: byte, t: bytes)
    ensures Matches([c], t) <==> c == STAR || (|t| == 1 && OneByte(c, t[0]))
  {
    assert [c][1..] == [];
    if c == STAR { assert t[|t|..] == []; }
  }

  method GlobMatchByTable(pat: bytes, text: bytes) returns (matched: bool)
    ensures matched == Matches(pat, text)
  {
    var m, n := |pat|, |text|;
    var prev := new bool[n + 1](_ => false);
    var curr := new bool[n + 1](_ => false);
    prev[0] := true;
    assert pat[..0] == [] && text[..0] == [];
    for i := 1 to m + 1
      invariant prev.Length == curr.Length == n + 1 && prev != curr
      invariant fresh(prev) && fresh(curr)
      invariant forall j :: 0 <= j <= n ==> prev[j] == Matches(pat[..i - 1], text[..j])
    {
      Cell(pat, text, i - 1, 0);
      curr[0] := pat[i - 1] == STAR && prev[0];
      for j := 1 to n + 1
        invariant forall x :: 0 <= x <= n ==> prev[x] == Matches(pat[..i - 1], text[..x])
        invariant forall x :: 0 <= x < j ==> curr[x] == Matches(pat[..i], text[..x])
      {
        Cell(pat, text, i - 1, j);
        curr[j] :=
          if pat[i - 1] == STAR then prev[j] || curr[j - 1]
          else if pat[i - 1] == ANY_ONE || pat[i - 1] == text[j - 1] then prev[j - 1]
          else false;
      }
      prev, curr := curr, prev;
    }
    assert pat[..m] == pat && text[..n] == text;
    return prev[n];
  }
}
