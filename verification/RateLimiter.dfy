/**
 The sliding-window rate limiter behind RLSET and RLCHECK.

 `Check` is one attempt as a function of the limiter's state; the class below runs
 it in place. The engine is built with overflow checks, so an addition that leaves
 64 bits ends the attempt: the reply is then `Overflow`. Theorems about runs assume
 a clock that does not go backwards and stays below `CLOCK_END`.
 */
module RateLimiter {
  import opened Arith

  const U64_END: nat := 0x1_0000_0000_0000_0000
  const CLOCK_END: nat := 0x8000_0000_0000_0000
  const RL_BUCKETS: nat := 64

  type u64 = x: int | 0 <= x < U64_END

  datatype Bucket = Bucket(start: u64, count: nat)
  datatype Limiter = Limiter(limit: u64, windowMs: u64, buckets: seq<Bucket>)
  datatype Reply = Reply(allowed: bool, remaining: nat, retryAfterMs: nat) | Overflow

  function SatSub(a: nat, b: nat): nat { if a < b then 0 else a - b }
  function Min(a: nat, b: nat): nat { if a < b then a else b }

  // Width of one bucket, at least one millisecond.
  function Width(windowMs: u64): (w: u64)
    ensures w >= 1
  {
    if windowMs / RL_BUCKETS >= 1 then windowMs / RL_BUCKETS else 1
  }

  // Start of the bucket that is open at `now`.
  function BucketOf(now: u64, width: u64): u64
    requires width > 0
  {
    now - now % width
  }

  function Used(buckets: seq<Bucket>): nat {
    if buckets == [] then 0 else buckets[0].count + Used(buckets[1..])
  }

  // The buckets whose span is not entirely behind the cutoff, oldest first.
  function InWindow(buckets: seq<Bucket>, width: u64, cutoff: u64): seq<Bucket> {
    if buckets != [] && buckets[0].start + width <= cutoff
    then InWindow(buckets[1..], width, cutoff)
    else buckets
  }

  predicate SpanOverflows(kept: seq<Bucket>, width: u64) {
    kept != [] && kept[0].start + width >= U64_END
  }

  function Recorded(buckets: seq<Bucket>, current: u64): seq<Bucket> {
    var n := |buckets|;
    if n > 0 && buckets[n - 1].start == current
    then buckets[n - 1 := Bucket(current, buckets[n - 1].count + 1)]
    else buckets + [Bucket(current, 1)]
  }

  function Denied(kept: seq<Bucket>, windowMs: u64, now: u64): Reply {
    if kept == [] then Reply(false, 0, 0)
    else
      var recovers := kept[0].start + Width(windowMs) + windowMs;
      if recovers >= U64_END then Overflow
      else Reply(false, 0, Min(SatSub(recovers, now), windowMs))
  }

  function Check(rl: Limiter, now: u64): (Limiter, Reply) {
    var width := Width(rl.windowMs);
    var kept := InWindow(rl.buckets, width, SatSub(now, rl.windowMs));
    var used := Used(kept);
    if SpanOverflows(kept, width) then
      (rl.(buckets := kept), Overflow)
    else if used < rl.limit then
      (rl.(buckets := Recorded(kept, BucketOf(now, width))), Reply(true, rl.limit - used - 1, 0))
    else
      (rl.(buckets := kept), Denied(kept, rl.windowMs, now))
  }

  // Whether the attempt was admitted.
  predicate Admits(rl: Limiter, now: u64) {
    var reply := Check(rl, now).1;
    reply.Reply? && reply.allowed
  }

  class RateLimiterInner {
    var limit: u64
    var windowMs: u64
    var buckets: seq<Bucket>

    constructor (limit: u64, windowMs: u64)
      ensures View() == Limiter(limit, windowMs, [])
    {
      this.limit := limit;
      this.windowMs := windowMs;
      this.buckets := [];
    }

    function View(): Limiter
      reads this
    {
      Limiter(limit, windowMs, buckets)
    }

    method Attempt(now: u64) returns (reply: Reply)
      modifies this
      ensures (View(), reply) == Check(old(View()), now)
    {
      hide BucketOf, Width, Used, Denied;
      var width := Width(windowMs);
      var cutoff := SatSub(now, windowMs);
      while buckets != [] && buckets[0].start + width <= cutoff
        invariant limit == old(limit) && windowMs == old(windowMs)
        invariant InWindow(buckets, width, cutoff) == InWindow(old(buckets), width, cutoff)
        decreases |buckets|
      {
        buckets := buckets[1..];
      }
      if SpanOverflows(buckets, width) {
        return Overflow;
      }

      var used := Used(buckets);
      if used < limit {
        var current := BucketOf(now, width);
        var n := |buckets|;
        if n > 0 && buckets[n - 1].start == current {
          buckets := buckets[n - 1 := Bucket(current, buckets[n - 1].count + 1)];
        } else {
          buckets := buckets + [Bucket(current, 1)];
        }
        reply := Reply(true, limit - used - 1, 0);
      } else {
        reply := Denied(buckets, windowMs, now);
      }
    }
  }

  // ── Runs ────────────────────────────────────────────────────────────────────

  // All attempts of a run on a fresh limiter, with the times that were admitted.
  function Run(limit: u64, windowMs: u64, times: seq<u64>): (Limiter, seq<u64>) {
    if times == [] then (Limiter(limit, windowMs, []), [])
    else
      var n := |times| - 1;
      var (before, log) := Run(limit, windowMs, times[..n]);
      (Check(before, times[n]).0, if Admits(before, times[n]) then log + [times[n]] else log)
  }

  ghost predicate Clock(times: seq<u64>) {
    && (forall i, j :: 0 <= i <= j < |times| ==> times[i] <= times[j])
    && forall i :: 0 <= i < |times| ==> times[i] < CLOCK_END
  }

  // The buckets split a stretch of the log, each holding the attempts of its own span.
  ghost predicate Covers(buckets: seq<Bucket>, width: u64, log: seq<u64>) {
    if buckets == [] then log == []
    else
      var b := buckets[0];
      && 0 < b.count <= |log|
      && (forall i :: 0 <= i < b.count ==> b.start <= log[i] < b.start + width)
      && Covers(buckets[1..], width, log[b.count..])
  }

  ghost predicate MultipleOf(a: nat, w: nat) {
    exists q: nat :: a == w * q
  }

  // Bucket starts are increasing multiples of the width; none is entirely behind
  // the window that ends at `last`.
  ghost predicate Spaced(buckets: seq<Bucket>, windowMs: u64, last: u64) {
    var width := Width(windowMs);
    && (forall i :: 0 <= i < |buckets| ==> MultipleOf(buckets[i].start, width))
    && (forall i, j :: 0 <= i < j < |buckets| ==> buckets[i].start + width <= buckets[j].start)
    && forall i :: 0 <= i < |buckets| ==>
         last < buckets[i].start + width + windowMs && buckets[i].start <= last
  }

  ghost predicate Sorted(log: seq<u64>, last: u64) {
    && (forall i, j :: 0 <= i <= j < |log| ==> log[i] <= log[j])
    && forall i :: 0 <= i < |log| ==> log[i] <= last
  }

  // The buckets hold the latest admissions; all earlier ones are out of the window.
  ghost predicate Remembers(buckets: seq<Bucket>, windowMs: u64, log: seq<u64>, last: u64) {
    var used := Used(buckets);
    && used <= |log|
    && (forall i :: 0 <= i < |log| - used ==> log[i] + windowMs < last)
    && Covers(buckets, Width(windowMs), log[|log| - used..])
  }

  // limit + 1 consecutive admissions never fit into one window.
  ghost predicate NeverOverLimit(log: seq<u64>, limit: u64, windowMs: u64) {
    forall i, j :: 0 <= i && i + limit <= j < |log| ==> log[i] + windowMs < log[j]
  }

  // `rl` was last used at `last`, and `log` holds the admissions so far.
  ghost predicate Faithful(rl: Limiter, log: seq<u64>, last: u64) {
    && Used(rl.buckets) <= rl.limit
    && Sorted(log, last)
    && Remembers(rl.buckets, rl.windowMs, log, last)
    && Spaced(rl.buckets, rl.windowMs, last)
    && NeverOverLimit(log, rl.limit, rl.windowMs)
  }

  lemma {:induction false} UsedAppend(a: seq<Bucket>, b: seq<Bucket>)
    ensures Used(a + b) == Used(a) + Used(b)
  {
    if a == [] {
      assert a + b == b;
    } else {
      UsedAppend(a[1..], b);
      assert (a + b)[1..] == a[1..] + b;
    }
  }

  lemma {:induction false} CoversUsed(buckets: seq<Bucket>, width: u64, log: seq<u64>)
    requires Covers(buckets, width, log)
    ensures |log| == Used(buckets)
  {
    if buckets != [] {
      CoversUsed(buckets[1..], width, log[buckets[0].count..]);
    }
  }

  lemma {:induction false} CoversAppend(a: seq<Bucket>, b: seq<Bucket>, width: u64, log: seq<u64>, more: seq<u64>)
    requires Covers(a, width, log) && Covers(b, width, more)
    ensures Covers(a + b, width, log + more)
  {
    if a == [] {
      assert a + b == b && log + more == more;
    } else {
      var c := a[0].count;
      CoversAppend(a[1..], b, width, log[c..], more);
      assert (a + b)[1..] == a[1..] + b;
      assert (log + more)[c..] == log[c..] + more;
    }
  }

  lemma {:induction false} CoversSplit(a: seq<Bucket>, b: seq<Bucket>, width: u64, log: seq<u64>)
    requires Covers(a + b, width, log)
    ensures Used(a) <= |log| && Covers(a, width, log[..Used(a)]) && Covers(b, width, log[Used(a)..])
  {
    if a == [] {
      assert a + b == b && log[0..] == log;
    } else {
      var c := a[0].count;
      assert (a + b)[1..] == a[1..] + b;
      CoversSplit(a[1..], b, width, log[c..]);
      assert log[c..][..Used(a[1..])] == log[..Used(a)][c..];
      assert log[c..][Used(a[1..])..] == log[Used(a)..];
    }
  }

  // Every covered attempt lies in the span of some bucket.
  lemma {:induction false} CoveredInSpan(buckets: seq<Bucket>, width: u64, log: seq<u64>, i: nat)
    requires Covers(buckets, width, log) && i < |log|
    ensures exists b :: 0 <= b < |buckets| && buckets[b].start <= log[i] < buckets[b].start + width
  {
    var c := buckets[0].count;
    if i >= c {
      CoveredInSpan(buckets[1..], width, log[c..], i - c);
      var b :| 0 <= b < |buckets[1..]| && buckets[1..][b].start <= log[i] < buckets[1..][b].start + width;
      assert buckets[b + 1] == buckets[1..][b];
    }
  }

  lemma {:induction false} InWindowIsSuffix(buckets: seq<Bucket>, width: u64, cutoff: u64) returns (k: nat)
    ensures k <= |buckets| && InWindow(buckets, width, cutoff) == buckets[k..]
    ensures forall i :: 0 <= i < k ==> buckets[i].start + width <= cutoff
    ensures k < |buckets| ==> buckets[k].start + width > cutoff
  {
    if buckets != [] && buckets[0].start + width <= cutoff {
      var j := InWindowIsSuffix(buckets[1..], width, cutoff);
      k := j + 1;
      assert buckets[1..][j..] == buckets[k..];
      forall i | 0 <= i < k ensures buckets[i].start + width <= cutoff {
        if i > 0 { assert buckets[i] == buckets[1..][i - 1]; }
      }
    } else {
      k := 0;
    }
  }

  // What is left of the buckets at a later time.
  function KeptAt(rl: Limiter, now: u64): seq<Bucket> {
    InWindow(rl.buckets, Width(rl.windowMs), SatSub(now, rl.windowMs))
  }

  // Dropping what has left the window loses no admission that still counts.
  lemma AdvanceRemembers(rl: Limiter, log: seq<u64>, last: u64, now: u64)
    requires Remembers(rl.buckets, rl.windowMs, log, last) && last <= now
    ensures Remembers(KeptAt(rl, now), rl.windowMs, log, now)
    ensures Used(KeptAt(rl, now)) <= Used(rl.buckets)
  {
    hide Used, Covers, InWindow, Width;
    var width := Width(rl.windowMs);
    var k := InWindowIsSuffix(rl.buckets, width, SatSub(now, rl.windowMs));
    var gone, kept := rl.buckets[..k], rl.buckets[k..];
    assert rl.buckets == gone + kept;
    var d, u := |log| - Used(rl.buckets), Used(gone);
    UsedAppend(gone, kept);
    CoversSplit(gone, kept, width, log[d..]);
    LogSplits(log, d, u);
    var mine := log[d..][..u];
    forall i | 0 <= i < d + u ensures log[i] + rl.windowMs < now {
      if i >= d {
        GoneIsOld(gone, width, rl.windowMs, mine, now, i - d);
      }
    }
  }

  lemma LogSplits(log: seq<u64>, d: nat, u: nat)
    requires d + u <= |log|
    ensures log[d..][u..] == log[d + u..] && forall i :: d <= i < d + u ==> log[i] == log[d..][..u][i - d]
  {
  }

  lemma GoneIsOld(gone: seq<Bucket>, width: u64, windowMs: u64, mine: seq<u64>, now: u64, i: nat)
    requires Covers(gone, width, mine) && i < |mine|
    requires forall b :: 0 <= b < |gone| ==> gone[b].start + width <= SatSub(now, windowMs)
    ensures mine[i] + windowMs < now
  {
    hide Covers;
    CoveredInSpan(gone, width, mine, i);
  }

  lemma AdvanceSpaced(rl: Limiter, last: u64, now: u64)
    requires Spaced(rl.buckets, rl.windowMs, last) && last <= now
    ensures Spaced(KeptAt(rl, now), rl.windowMs, now)
  {
    var width := Width(rl.windowMs);
    var k := InWindowIsSuffix(rl.buckets, width, SatSub(now, rl.windowMs));
    var kept := rl.buckets[k..];
    assert forall i :: 0 <= i < |kept| ==> kept[i] == rl.buckets[k + i];
    if kept != [] {
      assert now < kept[0].start + width + rl.windowMs;
    }
  }

  lemma AdvanceKeepsFaithful(rl: Limiter, log: seq<u64>, last: u64, now: u64)
    requires Faithful(rl, log, last) && last <= now
    ensures Faithful(rl.(buckets := KeptAt(rl, now)), log, now)
  {
    AdvanceRemembers(rl, log, last, now);
    AdvanceSpaced(rl, last, now);
  }

  // Recording replaces the open bucket, if there is one, by a bucket one larger.
  lemma RecordedShape(buckets: seq<Bucket>, current: u64) returns (front: seq<Bucket>, back: seq<Bucket>)
    ensures buckets == front + back && (back == [] || (|back| == 1 && back[0].start == current))
    ensures Recorded(buckets, current) == front + [Bucket(current, Used(back) + 1)]
    ensures Used([Bucket(current, Used(back) + 1)]) == Used(back) + 1
  {
    var n := |buckets|;
    if n > 0 && buckets[n - 1].start == current {
      front, back := buckets[..n - 1], buckets[n - 1..];
      assert back == [buckets[n - 1]] && back[1..] == [];
    } else {
      front, back := buckets, [];
    }
  }

  lemma GrownCovers(back: seq<Bucket>, current: u64, width: u64, mine: seq<u64>, now: u64)
    requires Covers(back, width, mine) && current <= now < current + width
    requires back == [] || (|back| == 1 && back[0].start == current)
    ensures Covers([Bucket(current, Used(back) + 1)], width, mine + [now])
  {
    CoversUsed(back, width, mine);
    if back != [] { assert back[1..] == []; }
    assert (mine + [now])[Used(back) + 1..] == [];
  }

  lemma RecordRemembers(rl: Limiter, log: seq<u64>, current: u64, now: u64)
    requires Remembers(rl.buckets, rl.windowMs, log, now)
    requires current <= now < current + Width(rl.windowMs)
    ensures Used(Recorded(rl.buckets, current)) == Used(rl.buckets) + 1
    ensures Remembers(Recorded(rl.buckets, current), rl.windowMs, log + [now], now)
  {
    hide Used, Covers, Recorded, Width;
    var width, d := Width(rl.windowMs), |log| - Used(rl.buckets);
    var front, back := RecordedShape(rl.buckets, current);
    var grown := [Bucket(current, Used(back) + 1)];
    UsedAppend(front, back);
    UsedAppend(front, grown);
    CoversSplit(front, back, width, log[d..]);
    GrownCovers(back, current, width, log[d..][Used(front)..], now);
    CoversAppend(front, grown, width, log[d..][..Used(front)], log[d..][Used(front)..] + [now]);
    LogGrows(log, d, Used(front), now);
    assert forall i :: 0 <= i < d ==> (log + [now])[i] == log[i];
  }

  lemma LogGrows(log: seq<u64>, d: nat, u: nat, now: u64)
    requires d + u <= |log|
    ensures log[d..][..u] + (log[d..][u..] + [now]) == (log + [now])[d..]
  {
  }

  lemma OpenBucket(now: u64, w: u64)
    requires w > 0
    ensures var current := BucketOf(now, w);
      current <= now < current + w && MultipleOf(current, w)
  {
    assert now == w * (now / w) + now % w;
  }

  lemma RecordSpaced(rl: Limiter, current: u64, now: u64)
    requires Spaced(rl.buckets, rl.windowMs, now)
    requires current <= now < current + Width(rl.windowMs) && MultipleOf(current, Width(rl.windowMs))
    ensures Spaced(Recorded(rl.buckets, current), rl.windowMs, now)
  {
    var width := Width(rl.windowMs);
    forall i | 0 <= i < |rl.buckets| && rl.buckets[i].start != current
      ensures rl.buckets[i].start + width <= current
    {
      MultiplesApart(rl.buckets[i].start, current, now, width);
    }
  }

  // A multiple that is not after now, other than the latest one, is a width before it.
  lemma MultiplesApart(a: nat, current: nat, now: nat, w: nat)
    requires MultipleOf(a, w) && MultipleOf(current, w)
    requires a <= now < current + w && a != current
    ensures a + w <= current
  {
    var x: nat :| a == w * x;
    var y: nat :| current == w * y;
    if x > y {
      AfterTheLast(w, x, y, now);
    } else {
      MulMonotone(w, x + 1, y);
      assert w * (x + 1) == w * x + w;
    }
  }

  lemma AdmissionStaysUnderLimit(buckets: seq<Bucket>, limit: u64, windowMs: u64, log: seq<u64>, now: u64)
    requires Remembers(buckets, windowMs, log, now) && Used(buckets) < limit
    requires NeverOverLimit(log, limit, windowMs)
    ensures NeverOverLimit(log + [now], limit, windowMs)
  {
    var longer := log + [now];
    forall i, j | 0 <= i && i + limit <= j < |longer| ensures longer[i] + windowMs < longer[j] {
      if j == |log| {
        assert log[i] + windowMs < now;
      }
    }
  }

  lemma AdmissionKeepsFaithful(rl: Limiter, log: seq<u64>, current: u64, now: u64)
    requires Faithful(rl, log, now) && Used(rl.buckets) < rl.limit
    requires current <= now < current + Width(rl.windowMs) && MultipleOf(current, Width(rl.windowMs))
    ensures Faithful(rl.(buckets := Recorded(rl.buckets, current)), log + [now], now)
    ensures Used(Recorded(rl.buckets, current)) == Used(rl.buckets) + 1
  {
    RecordRemembers(rl, log, current, now);
    RecordSpaced(rl, current, now);
    AdmissionStaysUnderLimit(rl.buckets, rl.limit, rl.windowMs, log, now);
    hide Used, Covers, Recorded, Spaced, NeverOverLimit;
  }

  // One attempt: denied attempts are not recorded, admitted ones keep the limit.
  lemma AttemptKeepsFaithful(rl: Limiter, log: seq<u64>, last: u64, now: u64)
    requires Faithful(rl, log, last) && last <= now
    ensures Faithful(Check(rl, now).0, if Admits(rl, now) then log + [now] else log, now)
    ensures Admits(rl, now) ==>
      Check(rl, now).1 == Reply(true, SatSub(rl.limit, Used(Check(rl, now).0.buckets)), 0)
  {
    AdvanceKeepsFaithful(rl, log, last, now);
    var kept := rl.(buckets := KeptAt(rl, now));
    if Used(kept.buckets) < rl.limit {
      OpenBucket(now, Width(rl.windowMs));
      hide BucketOf, Used, Covers, Spaced, NeverOverLimit, Recorded;
      AdmissionKeepsFaithful(kept, log, BucketOf(now, Width(rl.windowMs)), now);
    }
  }

  function Latest(times: seq<u64>): u64 {
    if times == [] then 0 else times[|times| - 1]
  }

  lemma {:induction false} RunIsFaithful(limit: u64, windowMs: u64, times: seq<u64>)
    requires Clock(times)
    ensures Run(limit, windowMs, times).0.limit == limit
    ensures Run(limit, windowMs, times).0.windowMs == windowMs
    ensures Faithful(Run(limit, windowMs, times).0, Run(limit, windowMs, times).1, Latest(times))
  {
    if times != [] {
      var n := |times| - 1;
      var (before, log) := Run(limit, windowMs, times[..n]);
      RunIsFaithful(limit, windowMs, times[..n]);
      assert Latest(times[..n]) <= times[n];
      AttemptKeepsFaithful(before, log, Latest(times[..n]), times[n]);
    }
  }

  // ── The limit holds in every window of every run ────────────────────────────

  function CountIn(log: seq<u64>, from: nat, to: nat): nat {
    if log == [] then 0
    else
      var n := |log| - 1;
      CountIn(log[..n], from, to) + if from <= log[n] <= to then 1 else 0
  }

  lemma {:induction false} CountedTogether(log: seq<u64>, last: u64, from: nat, to: nat) returns (lo: nat, hi: nat)
    requires Sorted(log, last)
    ensures lo <= hi <= |log| && CountIn(log, from, to) == hi - lo
    ensures forall i :: lo <= i < hi ==> from <= log[i] <= to
    ensures forall i :: hi <= i < |log| ==> to < log[i]
  {
    lo, hi := 0, 0;
    if log != [] {
      var n := |log| - 1;
      lo, hi := CountedTogether(log[..n], last, from, to);
      assert log[hi] <= log[n] && log[lo] <= log[n];
      if from <= log[n] <= to {
        hi := n + 1;
      } else if log[n] < from {
        lo, hi := n + 1, n + 1;
      }
    }
  }

  lemma SpanIsLonger(log: seq<u64>, limit: u64, windowMs: u64, i: nat)
    requires NeverOverLimit(log, limit, windowMs) && i + limit < |log|
    ensures log[i] + windowMs < log[i + limit]
  {
  }

  // Any closed interval as long as the window holds at most `limit` admissions.
  lemma NoWindowAdmitsMoreThanLimit(limit: u64, windowMs: u64, times: seq<u64>, from: nat)
    requires Clock(times)
    ensures CountIn(Run(limit, windowMs, times).1, from, from + windowMs) <= limit
  {
    RunIsFaithful(limit, windowMs, times);
    var log := Run(limit, windowMs, times).1;
    var lo, hi := CountedTogether(log, Latest(times), from, from + windowMs);
    if hi - lo > limit {
      SpanIsLonger(log, limit, windowMs, lo);
    }
  }

  // ── What a denial says ──────────────────────────────────────────────────────

  lemma StartsAreRecent(rl: Limiter, log: seq<u64>, now: u64, i: nat)
    requires Remembers(rl.buckets, rl.windowMs, log, now) && Spaced(rl.buckets, rl.windowMs, now)
    requires |log| - Used(rl.buckets) <= i < |log|
    ensures now < log[i] + Width(rl.windowMs) + rl.windowMs
  {
    var d := |log| - Used(rl.buckets);
    CoveredInSpan(rl.buckets, Width(rl.windowMs), log[d..], i - d);
    assert log[d..][i - d] == log[i];
  }

  // A denied attempt is justified: the last `limit` admissions all lie in the
  // window stretched by one bucket.
  lemma DenialIsJustified(limit: u64, windowMs: u64, times: seq<u64>, now: u64)
    requires Clock(times) && Latest(times) <= now < CLOCK_END
    requires !Admits(Run(limit, windowMs, times).0, now)
    ensures var log := Run(limit, windowMs, times).1;
      limit <= |log| && forall i :: |log| - limit <= i < |log| ==>
        log[i] <= now < log[i] + windowMs + Width(windowMs)
  {
    RunIsFaithful(limit, windowMs, times);
    var (rl, log) := Run(limit, windowMs, times);
    AdvanceKeepsFaithful(rl, log, Latest(times), now);
    var kept := rl.(buckets := KeptAt(rl, now));
    NoSpanOverflow(kept, now);
    forall i | |log| - limit <= i < |log| ensures log[i] <= now < log[i] + windowMs + Width(windowMs) {
      StartsAreRecent(kept, log, now, i);
    }
  }

  lemma NoSpanOverflow(rl: Limiter, last: u64)
    requires Spaced(rl.buckets, rl.windowMs, last) && last < CLOCK_END
    ensures forall i :: 0 <= i < |rl.buckets| ==> rl.buckets[i].start + Width(rl.windowMs) < U64_END
  {
    assert Width(rl.windowMs) <= 0x400_0000_0000_0000;
  }

  // When the next attempt after a denial can succeed: exactly when the oldest
  // bucket has left the window.
  function Recovers(rl: Limiter): nat
    requires rl.buckets != []
  {
    rl.buckets[0].start + Width(rl.windowMs) + rl.windowMs
  }

  lemma RecoveryTime(rl: Limiter, log: seq<u64>, now: u64, t: u64)
    requires Faithful(rl, log, now) && now < CLOCK_END && Used(rl.buckets) == rl.limit && now <= t
    ensures rl.limit == 0 ==> !Admits(rl, t)
    ensures rl.limit > 0 ==> rl.buckets != [] && (Admits(rl, t) <==> Recovers(rl) <= t)
  {
    var width, cutoff := Width(rl.windowMs), SatSub(t, rl.windowMs);
    NoSpanOverflow(rl, now);
    var k := InWindowIsSuffix(rl.buckets, width, cutoff);
    SuffixUsesLess(rl, log, now, k);
    hide Width, Used, InWindow, Faithful;
  }

  lemma SuffixUsesLess(rl: Limiter, log: seq<u64>, now: u64, k: nat)
    requires Faithful(rl, log, now) && k <= |rl.buckets|
    ensures Used(rl.buckets) > 0 ==> rl.buckets != []
    ensures if k > 0 then Used(rl.buckets[k..]) < Used(rl.buckets) else rl.buckets[k..] == rl.buckets
  {
    hide Width, InWindow, Spaced, NeverOverLimit, Sorted;
    if k > 0 {
      var front := rl.buckets[..k];
      assert rl.buckets == front + rl.buckets[k..];
      UsedAppend(front, rl.buckets[k..]);
      assert front[0] == rl.buckets[0] && front[0].count > 0;
    }
  }

  // The retry hint. With a limit of zero nothing is ever admitted and the hint is
  // 0. Otherwise it is the time to recovery capped at one window: too early to try
  // before it, exact once the oldest bucket has closed, and at most one bucket
  // early while that bucket is still open. It exists iff the sum fits 64 bits.
  lemma RetryHintIsTight(limit: u64, windowMs: u64, times: seq<u64>, now: u64, t: u64)
    requires Clock(times) && Latest(times) <= now < CLOCK_END && now <= t
    requires !Admits(Run(limit, windowMs, times).0, now)
    ensures var (after, reply) := Check(Run(limit, windowMs, times).0, now);
      var width := Width(windowMs);
      if limit == 0 then
        reply == Reply(false, 0, 0) && !Admits(after, t)
      else
        && after.buckets != [] && now < Recovers(after)
        && (reply.Reply? <==> Recovers(after) < U64_END)
        && (Admits(after, t) <==> Recovers(after) <= t)
        && (reply.Reply? ==>
          && reply.retryAfterMs == Min(SatSub(Recovers(after), now), windowMs)
          && (t < now + reply.retryAfterMs ==> !Admits(after, t))
          && (t == now + reply.retryAfterMs ==>
                (Admits(after, t) <==> after.buckets[0].start + width <= now))
          && (t == now + reply.retryAfterMs + width ==> Admits(after, t)))
  {
    RunIsFaithful(limit, windowMs, times);
    var (rl, log) := Run(limit, windowMs, times);
    AdvanceKeepsFaithful(rl, log, Latest(times), now);
    var kept := rl.(buckets := KeptAt(rl, now));
    NoSpanOverflow(kept, now);
    assert Check(rl, now) == (kept, Denied(kept.buckets, windowMs, now));
    RecoveryTime(kept, log, now, t);
    if limit > 0 {
      assert now < Recovers(kept);
    }
  }

  // That many attempts at one moment, one after the other, are all admitted.
  predicate AdmitsRow(rl: Limiter, now: u64, n: nat)
    decreases n
  {
    n == 0 || (Admits(rl, now) && AdmitsRow(Check(rl, now).0, now, n - 1))
  }

  // What was just recorded is still in the window.
  lemma RecordedStays(kept: seq<Bucket>, windowMs: u64, now: u64)
    requires now < CLOCK_END && !SpanOverflows(kept, Width(windowMs))
    requires InWindow(kept, Width(windowMs), SatSub(now, windowMs)) == kept
    ensures var width := Width(windowMs);
      var after := Recorded(kept, BucketOf(now, width));
      InWindow(after, width, SatSub(now, windowMs)) == after && !SpanOverflows(after, width)
  {
    var width := Width(windowMs);
    OpenBucket(now, width);
    WidthIsTight(windowMs);
    hide BucketOf, Width;
    var k := InWindowIsSuffix(kept, width, SatSub(now, windowMs));
    assert |kept[k..]| == |kept|;
  }

  lemma RecordedIsOneMore(kept: seq<Bucket>, current: u64)
    ensures Used(Recorded(kept, current)) == Used(kept) + 1
  {
    var front, back := RecordedShape(kept, current);
    UsedAppend(front, back);
    UsedAppend(front, [Bucket(current, Used(back) + 1)]);
    hide Used;
  }

  lemma {:induction false} InWindowTwice(buckets: seq<Bucket>, width: u64, cutoff: u64)
    ensures InWindow(InWindow(buckets, width, cutoff), width, cutoff) == InWindow(buckets, width, cutoff)
  {
    if buckets != [] && buckets[0].start + width <= cutoff { InWindowTwice(buckets[1..], width, cutoff); }
  }

  lemma RecordedAtOnce(rl: Limiter, now: u64)
    requires now < CLOCK_END && Admits(rl, now)
    ensures var (after, reply) := Check(rl, now);
      && after.limit == rl.limit && after.windowMs == rl.windowMs
      && reply.remaining + Used(after.buckets) == rl.limit
      && KeptAt(after, now) == after.buckets && !SpanOverflows(after.buckets, Width(rl.windowMs))
  {
    hide BucketOf, Used, Width, InWindow, Recorded, SpanOverflows;
    var width := Width(rl.windowMs);
    var kept := KeptAt(rl, now);
    InWindowTwice(rl.buckets, width, SatSub(now, rl.windowMs));
    RecordedStays(kept, rl.windowMs, now);
    RecordedIsOneMore(kept, BucketOf(now, width));
  }

  // `remaining` is exact: that many more attempts at the same moment are admitted, and not
  // one more.
  lemma {:induction false} RemainingIsExact(rl: Limiter, now: u64)
    requires now < CLOCK_END && Admits(rl, now)
    ensures var (after, reply) := Check(rl, now);
      AdmitsRow(after, now, reply.remaining) && !AdmitsRow(after, now, reply.remaining + 1)
    decreases rl.limit - Used(KeptAt(rl, now))
  {
    RecordedAtOnce(rl, now);
    var (after, reply) := Check(rl, now);
    if reply.remaining > 0 {
      RecordedAtOnce(after, now);
      RemainingIsExact(after, now);
      assert Check(after, now).1.remaining == reply.remaining - 1;
    }
  }

  // The overflow is within reach of RLSET, whose window saturates at 64 bits.
  lemma LongestWindowOverflows()
    ensures var rl := Run(1, U64_END - 1, [0]).0;
      !Admits(rl, 0) && Check(rl, 0).1 == Overflow
  {
    var times: seq<u64> := [0];
    var w: u64 := U64_END - 1;
    assert times[..0] == [] && Run(1, w, []) == (Limiter(1, w, []), []);
    assert Width(w) == 0x3ff_ffff_ffff_ffff;
    var rl := Run(1, w, times).0;
    assert rl.buckets == [Bucket(0, 1)];
    assert rl.buckets[1..] == [];
    assert KeptAt(rl, 0) == rl.buckets;
  }

  // ── Memory ──────────────────────────────────────────────────────────────────

  lemma {:induction false} StartsGrow(rl: Limiter, last: u64, i: nat)
    requires Spaced(rl.buckets, rl.windowMs, last) && i < |rl.buckets|
    ensures rl.buckets[0].start + Width(rl.windowMs) * i <= rl.buckets[i].start
    decreases i
  {
    if i > 0 {
      StartsGrow(rl, last, i - 1);
      assert Width(rl.windowMs) * i == Width(rl.windowMs) * (i - 1) + Width(rl.windowMs);
    }
  }

  lemma WidthIsTight(windowMs: u64)
    ensures var w := Width(windowMs);
      if windowMs < 64 then w == 1 else 64 * w <= windowMs <= 64 * w + 63
  {
  }

  // `gaps` whole widths fit into the stretched window.
  lemma FewGaps(windowMs: u64, gaps: nat)
    requires Width(windowMs) * gaps <= windowMs + Width(windowMs) - 1
    ensures gaps <= 127
    ensures windowMs % 1000 == 0 ==> gaps <= 67
  {
    var w := Width(windowMs);
    WidthIsTight(windowMs);
    hide Width;
    if gaps > 127 { MulMonotone(w, 128, gaps); }
    if gaps > 67 { MulMonotone(w, 68, gaps); }
  }

  // The window in buckets, rounded up, and the open one.
  function BucketBound(windowMs: u64): nat {
    (windowMs + Width(windowMs) - 1) / Width(windowMs) + 1
  }

  // Buckets held after any run: the window in buckets, rounded up, plus one. That
  // is at most 128, and at most 68 for a window of whole seconds.
  lemma BucketsAreBounded(limit: u64, windowMs: u64, times: seq<u64>)
    requires Clock(times)
    ensures var n := |Run(limit, windowMs, times).0.buckets|;
      && n <= BucketBound(windowMs)
      && n <= 128
      && (windowMs % 1000 == 0 ==> n <= 68)
  {
    hide Used, Covers, Width, NeverOverLimit, Remembers;
    RunIsFaithful(limit, windowMs, times);
    var rl := Run(limit, windowMs, times).0;
    var n, w := |rl.buckets|, Width(windowMs);
    hide Run;
    if n > 0 {
      StartsGrow(rl, Latest(times), n - 1);
      DivideBound(n - 1, w, windowMs + w - 1);
      FewGaps(windowMs, n - 1);
    }
  }

  // The starts of the first n buckets are all before the clock's end.
  predicate Fits(width: nat, n: nat) {
    n == 0 || width * (n - 1) < CLOCK_END
  }

  function StartOf(width: nat, n: nat, i: nat): (t: u64)
    requires i < n && Fits(width, n)
    ensures t == width * i < CLOCK_END
  {
    MulMonotone(width, i, n - 1);
    width * i
  }

  // An attempt at the start of each of the first n buckets, and what it leaves.
  function AtStarts(width: nat, n: nat): seq<u64>
    requires Fits(width, n)
  {
    seq(n, i requires 0 <= i < n => StartOf(width, n, i))
  }

  function OneEach(width: nat, n: nat): seq<Bucket>
    requires Fits(width, n)
  {
    seq(n, i requires 0 <= i < n => Bucket(StartOf(width, n, i), 1))
  }

  lemma FitsLess(width: nat, n: nat)
    requires n > 0 && Fits(width, n)
    ensures Fits(width, n - 1)
    ensures AtStarts(width, n) == AtStarts(width, n - 1) + [StartOf(width, n, n - 1)]
    ensures OneEach(width, n) == OneEach(width, n - 1) + [Bucket(StartOf(width, n, n - 1), 1)]
  {
    if n > 1 { MulMonotone(width, n - 2, n - 1); }
  }

  lemma {:induction false} UsedOneEach(width: nat, n: nat)
    requires Fits(width, n)
    ensures Used(OneEach(width, n)) == n
    decreases n
  {
    if n > 0 {
      FitsLess(width, n);
      UsedOneEach(width, n - 1);
      var last := [Bucket(StartOf(width, n, n - 1), 1)];
      UsedAppend(OneEach(width, n - 1), last);
      assert Used(last) == 1 + Used(last[1..]);
    }
  }

  // The bucket that opens at a start within the bound pushes none out.
  lemma OldestStays(windowMs: u64, n: nat)
    requires n < BucketBound(windowMs)
    ensures SatSub(Width(windowMs) * n, windowMs) < Width(windowMs)
  {
    var w := Width(windowMs);
    var a := windowMs + w - 1;
    hide Width;
    assert a == w * (a / w) + a % w;
    MulMonotone(w, n, a / w);
  }

  lemma OpensAtItsStart(width: u64, n: nat, t: u64)
    requires width > 0 && t == width * n
    ensures BucketOf(t, width) == t
  {
    RemainderIs(t, width, n, 0);
  }

  lemma AdmitsWhole(rl: Limiter, now: u64)
    requires KeptAt(rl, now) == rl.buckets && !SpanOverflows(rl.buckets, Width(rl.windowMs))
    requires Used(rl.buckets) < rl.limit
    ensures Check(rl, now) ==
      (rl.(buckets := Recorded(rl.buckets, BucketOf(now, Width(rl.windowMs)))),
       Reply(true, rl.limit - Used(rl.buckets) - 1, 0))
  {
    hide Width, BucketOf, Used, InWindow, Recorded, SpanOverflows;
  }

  lemma AttemptOpensBucket(limit: u64, windowMs: u64, n: nat, t: u64)
    requires n < limit && n < BucketBound(windowMs) && Fits(Width(windowMs), n + 1) && t == Width(windowMs) * n
    ensures Fits(Width(windowMs), n)
    ensures Check(Limiter(limit, windowMs, OneEach(Width(windowMs), n)), t) ==
      (Limiter(limit, windowMs, OneEach(Width(windowMs), n + 1)), Reply(true, limit - n - 1, 0))
  {
    hide Width, BucketOf, Used, BucketBound, InWindow, Recorded, SpanOverflows, OneEach, AtStarts, Fits, Check, SatSub;
    var width := Width(windowMs);
    FitsLess(width, n + 1);
    UsedOneEach(width, n);
    OpensAtItsStart(width, n, t);
    NoneIsDropped(limit, windowMs, n);
    NewBucketOpens(width, n);
    AdmitsWhole(Limiter(limit, windowMs, OneEach(width, n)), t);
  }

  lemma NoneIsDropped(limit: u64, windowMs: u64, n: nat)
    requires n < BucketBound(windowMs) && Fits(Width(windowMs), n)
    ensures var width, buckets := Width(windowMs), OneEach(Width(windowMs), n);
      InWindow(buckets, width, SatSub(width * n, windowMs)) == buckets && !SpanOverflows(buckets, width)
  {
    var width := Width(windowMs);
    assert width <= 0x400_0000_0000_0000;
    OldestStays(windowMs, n);
    hide Width, BucketBound;
    if n > 0 { assert OneEach(width, n)[0].start == width * 0 == 0; }
  }

  lemma NewBucketOpens(width: nat, n: nat)
    requires width > 0 && Fits(width, n + 1) && Fits(width, n)
    ensures Recorded(OneEach(width, n), width * n) == OneEach(width, n + 1)
  {
    FitsLess(width, n + 1);
    if n > 0 {
      assert width * n == width * (n - 1) + width;
      assert OneEach(width, n)[n - 1].start == width * (n - 1);
    }
  }

  // The bound is reached, by an attempt at the start of each bucket.
  lemma {:induction false} BucketBoundIsReached(limit: u64, windowMs: u64, n: nat)
    requires n <= limit && n <= BucketBound(windowMs) && Fits(Width(windowMs), n)
    ensures var times := AtStarts(Width(windowMs), n);
      && Clock(times)
      && Run(limit, windowMs, times) == (Limiter(limit, windowMs, OneEach(Width(windowMs), n)), times)
      && |Run(limit, windowMs, times).0.buckets| == n
    decreases n
  {
    var width := Width(windowMs);
    StartsAreAClock(width, n);
    if n == 0 {
      assert AtStarts(width, 0) == [] && OneEach(width, 0) == [];
    } else {
      FitsLess(width, n);
      BucketBoundIsReached(limit, windowMs, n - 1);
      AttemptOpensBucket(limit, windowMs, n - 1, StartOf(width, n, n - 1));
      var times := AtStarts(width, n);
      assert times[..n - 1] == AtStarts(width, n - 1) && times[n - 1] == width * (n - 1);
      hide Check, Width, AtStarts, OneEach, BucketBound;
      assert Admits(Limiter(limit, windowMs, OneEach(width, n - 1)), times[n - 1]);
    }
  }

  lemma StartsAreAClock(width: nat, n: nat)
    requires Fits(width, n)
    ensures Clock(AtStarts(width, n))
  {
    forall i, j | 0 <= i <= j < n ensures AtStarts(width, n)[i] <= AtStarts(width, n)[j] {
      MulMonotone(width, i, j);
    }
  }

  // 68 buckets for one second, four more than the constant says.
  lemma SixtyEightBucketsReached()
    ensures Fits(15, 68) && Clock(AtStarts(15, 68))
    ensures |Run(68, 1000, AtStarts(15, 68)).0.buckets| == 68
  {
    assert Width(1000) == 15 && BucketBound(1000) == 68;
    BucketBoundIsReached(68, 1000, 68);
  }

  lemma {:induction false} BucketsUse(buckets: seq<Bucket>, width: u64, log: seq<u64>)
    requires Covers(buckets, width, log)
    ensures |buckets| <= Used(buckets)
  {
    if buckets != [] {
      BucketsUse(buckets[1..], width, log[buckets[0].count..]);
    }
  }

  lemma FewBuckets(limit: u64, windowMs: u64, times: seq<u64>)
    requires Clock(times) && (limit <= 64 || windowMs < 64 || windowMs >= CLOCK_END)
    ensures |Run(limit, windowMs, times).0.buckets| <= 64
  {
    RunIsFaithful(limit, windowMs, times);
    var (rl, log) := Run(limit, windowMs, times);
    BucketsAreBounded(limit, windowMs, times);
    hide Run;
    var n, w := |rl.buckets|, Width(windowMs);
    BucketsUse(rl.buckets, w, log[|log| - Used(rl.buckets)..]);
    if windowMs < 64 {
      assert w == 1;
    } else if windowMs >= CLOCK_END && n > 64 {
      StartsGrow(rl, Latest(times), n - 1);
      assert w >= 0x200_0000_0000_0000;
      hide Width;
      MulMonotone(w, 64, n - 1);
    }
  }

  // The fixed 64 pairs hold for a limit of at most 64, for a window under 64 ms, and for
  // one as long as the clock; for every other configuration some run holds 65.
  lemma AtMostSixtyFourIff(limit: u64, windowMs: u64)
    ensures (forall times :: Clock(times) ==> |Run(limit, windowMs, times).0.buckets| <= 64) <==>
      limit <= 64 || windowMs < 64 || windowMs >= CLOCK_END
  {
    if limit <= 64 || windowMs < 64 || windowMs >= CLOCK_END {
      forall times | Clock(times) ensures |Run(limit, windowMs, times).0.buckets| <= 64 {
        FewBuckets(limit, windowMs, times);
      }
    } else {
      var w := Width(windowMs);
      WidthIsTight(windowMs);
      DivideBound(64, w, windowMs + w - 1);
      hide Width, Clock, Run;
      BucketBoundIsReached(limit, windowMs, 65);
      assert Clock(AtStarts(w, 65));
    }
  }
}
