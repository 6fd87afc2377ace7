/**
 A limiter behind a key. RLCHECK with an inline configuration creates the limiter and
 lets its key expire one window after the last attempt, so a limiter forgets.
 */
module KeyedLimiter {
  import opened Bytes
  import opened Keyspace
  import RateLimiter

  // A run of RLCHECK attempts on one key, with the times that were admitted.
  function KeyedRun(data: Keys, key: Key, limit: u64, windowSecs: u64, times: seq<u64>): (Keys, seq<u64>) {
    if times == [] then (data, [])
    else
      var n := |times| - 1;
      var (before, log) := KeyedRun(data, key, limit, windowSecs, times[..n]);
      var (after, reply) := Effect(before, RlCheck(key, Some((limit, windowSecs))), times[n]);
      (after, if reply.Rate? && reply.reply.Reply? && reply.reply.allowed then log + [times[n]] else log)
  }

  // Since attempt `from` the key did not expire: it holds what a limiter alone would
  // hold after the attempts from there on, and it was forgotten before.
  ghost predicate Since(data: Keys, key: Key, limit: u64, windowSecs: u64, times: seq<u64>, from: nat) {
    var windowMs := SatMul(windowSecs, 1000);
    var (after, log) := KeyedRun(data, key, limit, windowSecs, times);
    && from < |times|
    && (from > 0 ==> times[from - 1] + windowMs <= times[from])
    && key in after && after[key].value == Limiter(RateLimiter.Run(limit, windowMs, times[from..]).0)
    && after[key].expiresAt == Some(SatAdd(times[|times| - 1], windowMs))
    && log == KeyedRun(data, key, limit, windowSecs, times[..from]).1 + RateLimiter.Run(limit, windowMs, times[from..]).1
  }

  function Created(limit: u64, windowMs: u64): RateLimiter.Limiter {
    RateLimiter.Limiter(limit, windowMs, [])
  }

  // What one attempt does to the entry: a live limiter checks, a missing or expired
  // one is created first; either way the key lives for one more window.
  lemma Checked(data: Keys, key: Key, limit: u64, windowSecs: u64, now: u64, rl: RateLimiter.Limiter)
    requires !IsLive(data, key, now) ==> rl == Created(limit, SatMul(windowSecs, 1000))
    requires IsLive(data, key, now) ==> data[key].value == Limiter(rl) && data[key].expiresAt.Some?
    requires rl.limit == limit && rl.windowMs == SatMul(windowSecs, 1000)
    ensures var (after, reply) := Effect(data, RlCheck(key, Some((limit, windowSecs))), now);
      && reply == Rate(RateLimiter.Check(rl, now).1) && key in after
      && after[key].value == Limiter(RateLimiter.Check(rl, now).0)
      && after[key].expiresAt == Some(SatAdd(now, rl.windowMs))
  {
    assert rl.(limit := limit, windowMs := SatMul(windowSecs, 1000)) == rl;
    hide RateLimiter.Check;
  }

  lemma RunNext(limit: u64, windowMs: u64, times: seq<u64>, now: u64)
    ensures var (rl, log) := RateLimiter.Run(limit, windowMs, times);
      RateLimiter.Run(limit, windowMs, times + [now]) ==
        (RateLimiter.Check(rl, now).0, if RateLimiter.Admits(rl, now) then log + [now] else log)
  {
    assert (times + [now])[..|times|] == times;
    hide RateLimiter.Check, RateLimiter.Admits;
  }

  lemma KeyedNext(data: Keys, key: Key, limit: u64, windowSecs: u64, times: seq<u64>)
    requires times != []
    ensures var n := |times| - 1;
      var (before, log) := KeyedRun(data, key, limit, windowSecs, times[..n]);
      var (after, reply) := Effect(before, RlCheck(key, Some((limit, windowSecs))), times[n]);
      KeyedRun(data, key, limit, windowSecs, times) ==
        (after, if reply.Rate? && reply.reply.Reply? && reply.reply.allowed then log + [times[n]] else log)
  {
    hide Effect;
  }

  // One attempt on a key that has no limiter, or an expired one, is the first attempt
  // of a new limiter.
  lemma Forgotten(data: Keys, key: Key, limit: u64, windowSecs: u64, times: seq<u64>)
    requires times != []
    requires var n := |times| - 1;
      !IsLive(KeyedRun(data, key, limit, windowSecs, times[..n]).0, key, times[n])
      && (n > 0 ==> times[n - 1] + SatMul(windowSecs, 1000) <= times[n])
    ensures Since(data, key, limit, windowSecs, times, |times| - 1)
  {
    var n, windowMs := |times| - 1, SatMul(windowSecs, 1000);
    var log := KeyedRun(data, key, limit, windowSecs, times[..n]).1;
    assert times[n..] == [] + [times[n]];
    assert RateLimiter.Run(limit, windowMs, []) == (Created(limit, windowMs), []);
    RunNext(limit, windowMs, [], times[n]);
    KeyedNext(data, key, limit, windowSecs, times);
    Checked(KeyedRun(data, key, limit, windowSecs, times[..n]).0, key, limit, windowSecs, times[n],
            Created(limit, windowMs));
    hide RateLimiter.Check, RateLimiter.Run, KeyedRun, Effect;
    assert log + [] == log;
  }

  // The next attempt on a live limiter, as the attempt of a limiter alone.
  lemma CheckedAgain(before: Keys, key: Key, limit: u64, windowSecs: u64, some: seq<u64>, now: u64)
    requires var windowMs := SatMul(windowSecs, 1000);
      && RateLimiter.Clock(some) && IsLive(before, key, now) && before[key].expiresAt.Some?
      && before[key].value == Limiter(RateLimiter.Run(limit, windowMs, some).0)
    ensures var windowMs := SatMul(windowSecs, 1000);
      var (rl, log) := RateLimiter.Run(limit, windowMs, some);
      var (after, reply) := Effect(before, RlCheck(key, Some((limit, windowSecs))), now);
      && key in after && after[key].expiresAt == Some(SatAdd(now, windowMs))
      && after[key].value == Limiter(RateLimiter.Run(limit, windowMs, some + [now]).0)
      && RateLimiter.Run(limit, windowMs, some + [now]).1 ==
           if reply.Rate? && reply.reply.Reply? && reply.reply.allowed then log + [now] else log
  {
    hide RateLimiter.Check, RateLimiter.Run, RateLimiter.Faithful, RateLimiter.Clock, Effect;
    var windowMs := SatMul(windowSecs, 1000);
    RateLimiter.RunIsFaithful(limit, windowMs, some);
    RunNext(limit, windowMs, some, now);
    Checked(before, key, limit, windowSecs, now, RateLimiter.Run(limit, windowMs, some).0);
  }

  lemma Remembered(data: Keys, key: Key, limit: u64, windowSecs: u64, times: seq<u64>, from: nat)
    requires times != [] && RateLimiter.Clock(times)
    requires var n := |times| - 1;
      Since(data, key, limit, windowSecs, times[..n], from)
      && IsLive(KeyedRun(data, key, limit, windowSecs, times[..n]).0, key, times[n])
    ensures Since(data, key, limit, windowSecs, times, from)
  {
    hide RateLimiter.Check, RateLimiter.Run, KeyedRun, Effect, RateLimiter.Clock;
    var n := |times| - 1;
    LastOfTail(times, from);
    ClockOfTail(times, from, n);
    KeyedNext(data, key, limit, windowSecs, times);
    CheckedAgain(KeyedRun(data, key, limit, windowSecs, times[..n]).0, key, limit, windowSecs, times[..n][from..], times[n]);
    MoreOfTwo(KeyedRun(data, key, limit, windowSecs, times[..from]).1,
              RateLimiter.Run(limit, SatMul(windowSecs, 1000), times[..n][from..]).1, times[n]);
  }

  lemma MoreOfTwo(a: seq<u64>, b: seq<u64>, now: u64)
    ensures a + b + [now] == a + (b + [now])
  {
  }

  lemma LastOfTail(times: seq<u64>, from: nat)
    requires from < |times|
    ensures var n := |times| - 1;
      times[from..] == times[..n][from..] + [times[n]] && times[..n][..from] == times[..from]
  {
  }

  lemma ClockOfTail(times: seq<u64>, from: nat, to: nat)
    requires RateLimiter.Clock(times) && from <= to <= |times|
    ensures RateLimiter.Clock(times[..to]) && RateLimiter.Clock(times[..to][from..])
  {
  }

  lemma {:induction false} SinceWhen(data: Keys, key: Key, limit: u64, windowSecs: u64, times: seq<u64>)
    returns (from: nat)
    requires key !in data && times != [] && RateLimiter.Clock(times)
    ensures Since(data, key, limit, windowSecs, times, from)
    decreases |times|
  {
    var n := |times| - 1;
    var before := KeyedRun(data, key, limit, windowSecs, times[..n]).0;
    if n == 0 {
      from := 0;
      assert before == data;
      Forgotten(data, key, limit, windowSecs, times);
    } else {
      ClockOfTail(times, 0, n);
      var earlier := SinceWhen(data, key, limit, windowSecs, times[..n]);
      if IsLive(before, key, times[n]) {
        from := earlier;
        Remembered(data, key, limit, windowSecs, times, from);
      } else {
        from := n;
        Forgotten(data, key, limit, windowSecs, times);
      }
    }
  }

  // ── The limit ───────────────────────────────────────────────────────────────

  lemma {:induction false} CountOfTwo(a: seq<u64>, b: seq<u64>, from: nat, to: nat)
    ensures RateLimiter.CountIn(a + b, from, to) == RateLimiter.CountIn(a, from, to) + RateLimiter.CountIn(b, from, to)
    decreases |b|
  {
    if b == [] {
      assert a + b == a;
    } else {
      var n := |b| - 1;
      CountOfTwo(a, b[..n], from, to);
      assert (a + b)[..|a| + n] == a + b[..n];
    }
  }

  lemma {:induction false} CountOutside(log: seq<u64>, from: nat, to: nat)
    requires forall i :: 0 <= i < |log| ==> log[i] < from || to < log[i]
    ensures RateLimiter.CountIn(log, from, to) == 0
  {
    if log != [] {
      CountOutside(log[..|log| - 1], from, to);
    }
  }

  lemma {:induction false} CountInLess(log: seq<u64>, from: nat, to: nat, more: nat)
    requires to <= more
    ensures RateLimiter.CountIn(log, from, to) <= RateLimiter.CountIn(log, from, more)
  {
    if log != [] {
      CountInLess(log[..|log| - 1], from, to, more);
    }
  }

  // Admissions are attempts.
  lemma {:induction false} LogIsOfTimes(limit: u64, windowMs: u64, times: seq<u64>, first: nat)
    requires forall i :: 0 <= i < |times| ==> first <= times[i]
    ensures var log := RateLimiter.Run(limit, windowMs, times).1; forall i :: 0 <= i < |log| ==> first <= log[i]
  {
    if times != [] {
      var n := |times| - 1;
      LogIsOfTimes(limit, windowMs, times[..n], first);
      assert times[..n] + [times[n]] == times && first <= times[n];
      RunNext(limit, windowMs, times[..n], times[n]);
      hide RateLimiter.Check, RateLimiter.Admits, RateLimiter.Run;
    }
  }

  lemma {:induction false} KeyedLogIsOfTimes(data: Keys, key: Key, limit: u64, windowSecs: u64, times: seq<u64>, last: nat)
    requires forall i :: 0 <= i < |times| ==> times[i] <= last
    ensures var log := KeyedRun(data, key, limit, windowSecs, times).1; forall i :: 0 <= i < |log| ==> log[i] <= last
  {
    if times != [] {
      var n := |times| - 1;
      KeyedLogIsOfTimes(data, key, limit, windowSecs, times[..n], last);
      assert times[n] <= last;
      KeyedNext(data, key, limit, windowSecs, times);
      hide Effect, KeyedRun;
    }
  }

  // Two stretches far enough apart cannot add up within a shorter interval.
  lemma LimitAcross(early: seq<u64>, late: seq<u64>, limit: nat, gap: nat, last: nat, from: nat, to: nat, more: nat)
    requires RateLimiter.CountIn(early, from, to) <= limit && RateLimiter.CountIn(late, from, more) <= limit
    requires to < from + gap && to <= more
    requires forall i :: 0 <= i < |early| ==> early[i] <= last
    requires forall i :: 0 <= i < |late| && early != [] ==> last + gap <= late[i]
    ensures RateLimiter.CountIn(early + late, from, to) <= limit
  {
    CountOfTwo(early, late, from, to);
    CountInLess(late, from, to, more);
    if early == [] || last < from {
      CountOutside(early, from, to);
    } else {
      CountOutside(late, from, to);
    }
  }

  // Some attempt comes exactly one window after the one before it.
  predicate OnTheMillisecond(times: seq<u64>, windowMs: u64) {
    exists i :: 0 < i < |times| && times[i] == times[i - 1] + windowMs
  }

  lemma GapBefore(times: seq<u64>, windowMs: u64, start: nat)
    requires start < |times| && !OnTheMillisecond(times, windowMs)
    ensures !OnTheMillisecond(times[..start], windowMs)
    ensures start > 0 ==> times[start] != times[start - 1] + windowMs
  {
  }

  // Behind a key the limit holds in every interval shorter than the window, whatever
  // the limiter forgot; and in every interval as long as the window unless an attempt
  // comes exactly one window after the one before it.
  lemma {:induction false} KeyedLimitHolds(data: Keys, key: Key, limit: u64, windowSecs: u64, times: seq<u64>,
                                           from: nat, to: nat)
    requires key !in data && RateLimiter.Clock(times)
    requires var windowMs := SatMul(windowSecs, 1000);
      to < from + windowMs || (to == from + windowMs && !OnTheMillisecond(times, windowMs))
    ensures RateLimiter.CountIn(KeyedRun(data, key, limit, windowSecs, times).1, from, to) <= limit
    decreases |times|
  {
    if times == [] {
      NothingYet(data, key, limit, windowSecs);
      CountOutside([], from, to);
    } else {
      var windowMs := SatMul(windowSecs, 1000);
      var start := SinceWhen(data, key, limit, windowSecs, times);
      ClockOfTail(times, 0, start);
      if !OnTheMillisecond(times, windowMs) { GapBefore(times, windowMs, start); }
      hide RateLimiter.Run, KeyedRun, RateLimiter.CountIn, OnTheMillisecond, RateLimiter.Clock, Since;
      KeyedLimitHolds(data, key, limit, windowSecs, times[..start], from, to);
      OneMoreStretch(data, key, limit, windowSecs, times, start, from, to);
    }
  }

  lemma OneMoreStretch(data: Keys, key: Key, limit: u64, windowSecs: u64, times: seq<u64>, start: nat, from: nat, to: nat)
    requires RateLimiter.Clock(times) && Since(data, key, limit, windowSecs, times, start)
    requires var windowMs := SatMul(windowSecs, 1000);
      to < from + windowMs ||
      (to == from + windowMs && (start > 0 ==> times[start] != times[start - 1] + windowMs))
    requires RateLimiter.CountIn(KeyedRun(data, key, limit, windowSecs, times[..start]).1, from, to) <= limit
    ensures RateLimiter.CountIn(KeyedRun(data, key, limit, windowSecs, times).1, from, to) <= limit
  {
    hide RateLimiter.Run, KeyedRun, RateLimiter.CountIn, RateLimiter.Clock;
    var windowMs := SatMul(windowSecs, 1000);
    var before, after := times[..start], times[start..];
    var window: nat := windowMs;
    var gap := if to < from + window then window else window + 1;
    var last: nat := if start > 0 then times[start - 1] else 0;
    BeforeAndAfter(times, start, last);
    ClockOfAfter(times, start);
    KeyedLogIsOfTimes(data, key, limit, windowSecs, before, last);
    LogIsOfTimes(limit, windowMs, after, times[start]);
    NothingYet(data, key, limit, windowSecs);
    RateLimiter.NoWindowAdmitsMoreThanLimit(limit, windowMs, after, from);
    var early, late := KeyedRun(data, key, limit, windowSecs, before).1, RateLimiter.Run(limit, windowMs, after).1;
    assert KeyedRun(data, key, limit, windowSecs, times).1 == early + late;
    assert start > 0 ==> last + gap <= times[start];
    assert start == 0 ==> before == [];
    hide Since;
    LimitAcross(early, late, limit, gap, last, from, to, from + windowMs);
  }

  lemma BeforeAndAfter(times: seq<u64>, start: nat, last: nat)
    requires RateLimiter.Clock(times) && start < |times| && (start > 0 ==> last == times[start - 1])
    ensures forall i :: 0 <= i < |times[..start]| ==> times[..start][i] <= last
    ensures forall i :: 0 <= i < |times[start..]| ==> times[start] <= times[start..][i]
  {
  }

  lemma NothingYet(data: Keys, key: Key, limit: u64, windowSecs: u64)
    ensures KeyedRun(data, key, limit, windowSecs, []) == (data, [])
  {
  }

  lemma ClockOfAfter(times: seq<u64>, from: nat)
    requires RateLimiter.Clock(times) && from <= |times|
    ensures RateLimiter.Clock(times[from..])
  {
  }

  // ── When the limit fails ────────────────────────────────────────────────────

  function AtTime(log: seq<u64>, t: nat): nat {
    RateLimiter.CountIn(log, t, t)
  }

  // Admissions in the closed interval as long as the window.
  function InWindowFrom(log: seq<u64>, windowMs: nat, from: nat): nat {
    RateLimiter.CountIn(log, from, from + windowMs)
  }

  ghost predicate LimitInWindows(log: seq<u64>, limit: u64, windowMs: nat) {
    forall from: nat :: InWindowFrom(log, windowMs, from) <= limit
  }

  // The attempt lands exactly one window after the one before it.
  predicate Lands(times: seq<u64>, windowMs: nat, i: int) {
    0 < i < |times| && times[i] == times[i - 1] + windowMs
  }

  // Wherever that happens, what was admitted at those two moments, or at the one if the
  // window is zero, fits the limit.
  ghost predicate LandingsFit(times: seq<u64>, log: seq<u64>, limit: u64, windowMs: nat) {
    forall i :: Lands(times, windowMs, i) ==> AtEnds(log, times[i - 1], windowMs) <= limit
  }

  // How many are at the two ends of an interval as long as the window.
  function AtEnds(log: seq<u64>, from: nat, windowMs: nat): nat {
    AtTime(log, from) + if windowMs > 0 then AtTime(log, from + windowMs) else 0
  }

  lemma {:induction false} CountAtEnds(log: seq<u64>, a: nat, b: nat)
    requires a < b
    ensures AtTime(log, a) + AtTime(log, b) <= RateLimiter.CountIn(log, a, b)
  {
    if log != [] {
      CountAtEnds(log[..|log| - 1], a, b);
    }
  }

  lemma {:induction false} CountAtLast(log: seq<u64>, a: nat, b: nat)
    requires a <= b && forall i :: 0 <= i < |log| ==> log[i] <= a
    ensures RateLimiter.CountIn(log, a, b) == AtTime(log, a)
  {
    if log != [] {
      CountAtLast(log[..|log| - 1], a, b);
    }
  }

  lemma {:induction false} CountAtFirst(log: seq<u64>, a: nat, b: nat)
    requires a <= b && forall i :: 0 <= i < |log| ==> b <= log[i]
    ensures RateLimiter.CountIn(log, a, b) == AtTime(log, b)
  {
    if log != [] {
      CountAtFirst(log[..|log| - 1], a, b);
    }
  }

  // Two stretches exactly one window apart add up to what was admitted at the two ends.
  lemma StretchesThatTouch(early: seq<u64>, late: seq<u64>, limit: nat, windowMs: nat, last: nat, from: nat)
    requires InWindowFrom(early, windowMs, from) <= limit && InWindowFrom(late, windowMs, from) <= limit
    requires forall i :: 0 <= i < |early| ==> early[i] <= last
    requires forall i :: 0 <= i < |late| ==> last + windowMs <= late[i]
    requires AtEnds(early + late, last, windowMs) <= limit
    ensures InWindowFrom(early + late, windowMs, from) <= limit
  {
    var to := from + windowMs;
    CountOfTwo(early, late, from, to);
    if from < last {
      CountOutside(late, from, to);
    } else if last < from {
      CountOutside(early, from, to);
    } else if windowMs > 0 {
      CountAtLast(early, last, to);
      CountAtFirst(late, last, to);
      CountOfTwo(early, late, last, last);
      CountOfTwo(early, late, to, to);
    }
  }

  lemma LandingsOfPrefix(times: seq<u64>, start: nat, early: seq<u64>, late: seq<u64>, limit: u64, windowMs: nat)
    requires start <= |times| && LandingsFit(times, early + late, limit, windowMs)
    ensures LandingsFit(times[..start], early, limit, windowMs)
  {
    forall i | Lands(times[..start], windowMs, i) ensures AtEnds(early, times[i - 1], windowMs) <= limit {
      assert Lands(times, windowMs, i);
      CountOfTwo(early, late, times[i - 1], times[i - 1]);
      CountOfTwo(early, late, times[i], times[i]);
    }
  }

  // A run falls into what the limiter forgot and a tail it counts like a new one.
  lemma Stretches(data: Keys, key: Key, limit: u64, windowSecs: u64, times: seq<u64>) returns (start: nat, last: nat)
    requires key !in data && times != [] && RateLimiter.Clock(times)
    ensures start < |times| && RateLimiter.Clock(times[..start]) && RateLimiter.Clock(times[start..])
    ensures var windowMs := SatMul(windowSecs, 1000);
      var early, late := KeyedRun(data, key, limit, windowSecs, times[..start]).1,
                        RateLimiter.Run(limit, windowMs, times[start..]).1;
      && KeyedRun(data, key, limit, windowSecs, times).1 == early + late
      && (forall i :: 0 <= i < |early| ==> early[i] <= last)
      && (forall i :: 0 <= i < |late| ==> times[start] <= late[i])
      && (if start > 0 then last == times[start - 1] && last + windowMs <= times[start] else early == [])
  {
    var windowMs := SatMul(windowSecs, 1000);
    start := SinceWhen(data, key, limit, windowSecs, times);
    hide RateLimiter.Run, KeyedRun, RateLimiter.Clock;
    ClockOfTail(times, 0, start);
    ClockOfAfter(times, start);
    last := if start > 0 then times[start - 1] else 0;
    BeforeAndAfter(times, start, last);
    KeyedLogIsOfTimes(data, key, limit, windowSecs, times[..start], last);
    LogIsOfTimes(limit, windowMs, times[start..], times[start]);
    NothingYet(data, key, limit, windowSecs);
    assert start == 0 ==> times[..start] == [];
  }

  lemma {:induction false} FittingLandingsHold(data: Keys, key: Key, limit: u64, windowSecs: u64, times: seq<u64>,
                                               from: nat)
    requires key !in data && RateLimiter.Clock(times)
    requires LandingsFit(times, KeyedRun(data, key, limit, windowSecs, times).1, limit, SatMul(windowSecs, 1000))
    ensures InWindowFrom(KeyedRun(data, key, limit, windowSecs, times).1, SatMul(windowSecs, 1000), from) <= limit
    decreases |times|
  {
    hide RateLimiter.Run, KeyedRun, RateLimiter.CountIn, RateLimiter.Clock, LandingsFit;
    if times == [] {
      NothingYet(data, key, limit, windowSecs);
      CountOutside([], from, from + SatMul(windowSecs, 1000));
    } else {
      var start, last := Stretches(data, key, limit, windowSecs, times);
      var windowMs: nat := SatMul(windowSecs, 1000);
      var before, after := times[..start], times[start..];
      var early, late := KeyedRun(data, key, limit, windowSecs, before).1, RateLimiter.Run(limit, windowMs, after).1;
      LandingsOfPrefix(times, start, early, late, limit, windowMs);
      FittingLandingsHold(data, key, limit, windowSecs, before, from);
      RateLimiter.NoWindowAdmitsMoreThanLimit(limit, windowMs, after, from);
      if Lands(times, windowMs, start) {
        LandingFits(times, early + late, limit, windowMs, start);
        StretchesThatTouch(early, late, limit, windowMs, last, from);
      } else {
        LimitAcross(early, late, limit, windowMs + 1, last, from, from + windowMs, from + windowMs);
      }
    }
  }

  lemma LandingFits(times: seq<u64>, log: seq<u64>, limit: u64, windowMs: nat, i: int)
    requires LandingsFit(times, log, limit, windowMs) && Lands(times, windowMs, i)
    ensures AtEnds(log, times[i - 1], windowMs) <= limit
  {
  }

  // Behind a key the limit holds in every closed interval as long as the window iff it
  // holds for what was admitted at the two ends of each gap of exactly one window.
  lemma KeyedLimitHoldsIff(data: Keys, key: Key, limit: u64, windowSecs: u64, times: seq<u64>)
    requires key !in data && RateLimiter.Clock(times)
    ensures var log, windowMs := KeyedRun(data, key, limit, windowSecs, times).1, SatMul(windowSecs, 1000);
      LimitInWindows(log, limit, windowMs) <==> LandingsFit(times, log, limit, windowMs)
  {
    var log, windowMs := KeyedRun(data, key, limit, windowSecs, times).1, SatMul(windowSecs, 1000);
    if LandingsFit(times, log, limit, windowMs) {
      forall from: nat ensures InWindowFrom(log, windowMs, from) <= limit {
        FittingLandingsHold(data, key, limit, windowSecs, times, from);
      }
    }
    if LimitInWindows(log, limit, windowMs) {
      WindowsFitLandings(times, log, limit, windowMs);
    }
  }

  lemma WindowsFitLandings(times: seq<u64>, log: seq<u64>, limit: u64, windowMs: nat)
    requires LimitInWindows(log, limit, windowMs)
    ensures LandingsFit(times, log, limit, windowMs)
  {
    forall i | Lands(times, windowMs, i) ensures AtEnds(log, times[i - 1], windowMs) <= limit {
      assert InWindowFrom(log, windowMs, times[i - 1]) <= limit;
      if windowMs > 0 { CountAtEnds(log, times[i - 1], times[i]); }
    }
  }

  // ── Which configurations it can fail for ────────────────────────────────────

  ghost predicate AllZero(times: seq<u64>) {
    forall i :: 0 <= i < |times| ==> times[i] == 0
  }

  lemma CheckAtZero(limit: u64, windowMs: u64, n: nat)
    requires 0 < n < limit
    ensures RateLimiter.Check(RateLimiter.Limiter(limit, windowMs, [RateLimiter.Bucket(0, n)]), 0) ==
      (RateLimiter.Limiter(limit, windowMs, [RateLimiter.Bucket(0, n + 1)]), RateLimiter.Reply(true, limit - n - 1, 0))
  {
    var width := RateLimiter.Width(windowMs);
    var buckets := [RateLimiter.Bucket(0, n)];
    assert width <= 0x400_0000_0000_0000;
    BucketAtZero(width);
    hide RateLimiter.Width, RateLimiter.BucketOf;
    assert RateLimiter.Used(buckets) == n + RateLimiter.Used(buckets[1..]);
    assert RateLimiter.Recorded(buckets, 0) == [RateLimiter.Bucket(0, n + 1)];
  }

  lemma BucketAtZero(width: u64)
    requires width > 0
    ensures RateLimiter.BucketOf(0, width) == 0
  {
  }

  // A limiter alone admits `limit` attempts at one moment.
  lemma {:induction false} RunAtZero(limit: u64, windowMs: u64, times: seq<u64>)
    requires AllZero(times) && |times| <= limit
    ensures RateLimiter.Run(limit, windowMs, times) ==
      (RateLimiter.Limiter(limit, windowMs, if times == [] then [] else [RateLimiter.Bucket(0, |times|)]), times)
  {
    if times != [] {
      var n := |times| - 1;
      var some := times[..n];
      assert some + [times[n]] == times && times[n] == 0;
      RunNext(limit, windowMs, some, 0);
      RunAtZero(limit, windowMs, some);
      hide RateLimiter.Check, RateLimiter.Run, RateLimiter.Width, RateLimiter.BucketOf;
      if n == 0 {
        NewLimiterAdmits(limit, windowMs, 0);
        BucketAtZero(RateLimiter.Width(windowMs));
      } else {
        CheckAtZero(limit, windowMs, n);
      }
    }
  }

  // And so does the key.
  lemma {:induction false} KeyedRunAtZero(data: Keys, key: Key, limit: u64, windowSecs: u64, times: seq<u64>)
    requires key !in data && AllZero(times) && |times| <= limit
    ensures KeyedRun(data, key, limit, windowSecs, times).1 == times
    decreases |times|
  {
    if times == [] {
      NothingYet(data, key, limit, windowSecs);
    } else {
      ZerosAreAClock(times);
      hide KeyedRun, RateLimiter.Run, RateLimiter.Clock;
      var start, last := Stretches(data, key, limit, windowSecs, times);
      KeyedRunAtZero(data, key, limit, windowSecs, times[..start]);
      RunAtZero(limit, SatMul(windowSecs, 1000), times[start..]);
      assert times[..start] + times[start..] == times;
    }
  }

  lemma ZerosAreAClock(times: seq<u64>)
    requires AllZero(times)
    ensures RateLimiter.Clock(times)
  {
  }

  lemma {:induction false} CountAll(log: seq<u64>, from: nat, to: nat)
    requires forall i :: 0 <= i < |log| ==> from <= log[i] <= to
    ensures RateLimiter.CountIn(log, from, to) == |log|
  {
    if log != [] {
      CountAll(log[..|log| - 1], from, to);
    }
  }

  // The run that finds the limiter gone: as many attempts at once as the limit allows,
  // and one more on the millisecond. The limiter alone would deny that one.
  lemma KeyForgetsOnTheMillisecond(data: Keys, key: Key, limit: u64, windowSecs: u64)
    requires key !in data && limit > 0 && SatMul(windowSecs, 1000) < RateLimiter.CLOCK_END
    ensures var windowMs := SatMul(windowSecs, 1000);
      var times := AtOnceAndLater(limit, windowMs);
      && RateLimiter.Clock(times)
      && InWindowFrom(KeyedRun(data, key, limit, windowSecs, times).1, windowMs, 0) == limit + 1
      && InWindowFrom(RateLimiter.Run(limit, windowMs, times).1, windowMs, 0) <= limit
  {
    hide KeyedRun, RateLimiter.Run, RateLimiter.CountIn, RateLimiter.Clock;
    var windowMs := SatMul(windowSecs, 1000);
    var times := AtOnceAndLater(limit, windowMs);
    var zeros := times[..limit];
    AtOnceIsAClock(limit, windowMs);
    KeyedRunAtZero(data, key, limit, windowSecs, zeros);
    GoneByThen(data, key, limit, windowSecs, zeros, windowMs);
    FirstIsAdmitted(limit, windowMs, windowMs);
    CountAll(times, 0, windowMs);
    RateLimiter.NoWindowAdmitsMoreThanLimit(limit, windowMs, times, 0);
  }

  // As many attempts at once as the limit allows, and one more a window later.
  function AtOnceAndLater(limit: u64, windowMs: u64): seq<u64> {
    seq(limit + 1 as int, i => if i < limit then 0 else windowMs)
  }

  lemma AtOnceIsAClock(limit: u64, windowMs: u64)
    requires limit > 0 && windowMs < RateLimiter.CLOCK_END
    ensures var times := AtOnceAndLater(limit, windowMs);
      && RateLimiter.Clock(times) && RateLimiter.Clock(times[..limit]) && AllZero(times[..limit])
      && |times| == limit + 1 && times == times[..limit] + [windowMs]
      && forall i :: 0 <= i < |times| ==> 0 <= times[i] <= windowMs
  {
  }

  // One window after the last attempt nothing is remembered.
  lemma GoneByThen(data: Keys, key: Key, limit: u64, windowSecs: u64, times: seq<u64>, now: u64)
    requires key !in data && times != [] && RateLimiter.Clock(times)
    requires times[|times| - 1] + SatMul(windowSecs, 1000) <= now
    ensures KeyedRun(data, key, limit, windowSecs, times + [now]).1 ==
      KeyedRun(data, key, limit, windowSecs, times).1 + RateLimiter.Run(limit, SatMul(windowSecs, 1000), [now]).1
  {
    var n, more := |times|, times + [now];
    hide KeyedRun, RateLimiter.Run;
    var start := SinceWhen(data, key, limit, windowSecs, times);
    assert more[..n] == times && more[n..] == [now];
    Forgotten(data, key, limit, windowSecs, more);
  }

  lemma FirstIsAdmitted(limit: u64, windowMs: u64, now: u64)
    requires limit > 0
    ensures RateLimiter.Run(limit, windowMs, [now]).1 == [now]
  {
    assert RateLimiter.Run(limit, windowMs, []) == (Created(limit, windowMs), []);
    hide RateLimiter.Check, RateLimiter.Run;
    RunNext(limit, windowMs, [], now);
    NewLimiterAdmits(limit, windowMs, now);
    assert [] + [now] == [now];
  }

  lemma NothingAlone(windowMs: u64, times: seq<u64>)
    requires RateLimiter.Clock(times)
    ensures RateLimiter.Run(0, windowMs, times).1 == []
  {
    RateLimiter.RunIsFaithful(0, windowMs, times);
    hide RateLimiter.Run;
    var log := RateLimiter.Run(0, windowMs, times).1;
    if log != [] {
      RateLimiter.SpanIsLonger(log, 0, windowMs, 0);
    }
  }

  lemma {:induction false} NothingIsAdmitted(data: Keys, key: Key, windowSecs: u64, times: seq<u64>)
    requires key !in data && RateLimiter.Clock(times)
    ensures KeyedRun(data, key, 0, windowSecs, times).1 == []
    decreases |times|
  {
    if times == [] {
      NothingYet(data, key, 0, windowSecs);
    } else {
      hide KeyedRun, RateLimiter.Run, RateLimiter.Clock;
      var start, last := Stretches(data, key, 0, windowSecs, times);
      NothingIsAdmitted(data, key, windowSecs, times[..start]);
      NothingAlone(SatMul(windowSecs, 1000), times[start..]);
    }
  }

  // A limit of zero never fails, nor can a window as long as the clock; for every other
  // configuration some run exceeds the limit within one window.
  lemma KeyedLimitIsSafeIff(data: Keys, key: Key, limit: u64, windowSecs: u64)
    requires key !in data
    ensures var windowMs := SatMul(windowSecs, 1000);
      (forall times :: RateLimiter.Clock(times) ==>
         LimitInWindows(KeyedRun(data, key, limit, windowSecs, times).1, limit, windowMs))
      <==> limit == 0 || windowMs >= RateLimiter.CLOCK_END
  {
    var windowMs := SatMul(windowSecs, 1000);
    if limit == 0 || windowMs >= RateLimiter.CLOCK_END {
      forall times | RateLimiter.Clock(times)
        ensures LimitInWindows(KeyedRun(data, key, limit, windowSecs, times).1, limit, windowMs)
      {
        forall from: nat ensures InWindowFrom(KeyedRun(data, key, limit, windowSecs, times).1, windowMs, from) <= limit {
          if limit == 0 {
            NothingIsAdmitted(data, key, windowSecs, times);
          } else {
            KeyedLimitHolds(data, key, limit, windowSecs, times, from, from + windowMs);
          }
        }
      }
    } else {
      KeyForgetsOnTheMillisecond(data, key, limit, windowSecs);
      hide RateLimiter.Clock, KeyedRun;
      var times := AtOnceAndLater(limit, windowMs);
      assert !LimitInWindows(KeyedRun(data, key, limit, windowSecs, times).1, limit, windowMs) by {
        assert InWindowFrom(KeyedRun(data, key, limit, windowSecs, times).1, windowMs, 0) > limit;
      }
      assert RateLimiter.Clock(times);
    }
  }

  lemma NewLimiterAdmits(limit: u64, windowMs: u64, now: u64)
    requires limit > 0
    ensures var width := RateLimiter.Width(windowMs);
      RateLimiter.Check(Created(limit, windowMs), now) ==
        (RateLimiter.Limiter(limit, windowMs, [RateLimiter.Bucket(RateLimiter.BucketOf(now, width), 1)]),
         RateLimiter.Reply(true, limit - 1, 0))
  {
    hide RateLimiter.Width, RateLimiter.BucketOf;
    var none: seq<RateLimiter.Bucket>, width := [], RateLimiter.Width(windowMs);
    var bucket := RateLimiter.Bucket(RateLimiter.BucketOf(now, width), 1);
    assert RateLimiter.InWindow(none, width, RateLimiter.SatSub(now, windowMs)) == none;
    assert RateLimiter.Recorded(none, bucket.start) == [bucket];
  }

  // ── A limiter that was configured ───────────────────────────────────────────

  // A run of RLCHECKs that bring no configuration, with what they answer.
  function ConfiguredRun(data: Keys, key: Key, times: seq<u64>): (Keys, seq<Reply>) {
    if times == [] then (data, [])
    else
      var n := |times| - 1;
      var (before, replies) := ConfiguredRun(data, key, times[..n]);
      var (after, reply) := Effect(before, RlCheck(key, None), times[n]);
      (after, replies + [reply])
  }

  // RLSET on a key that holds nothing live makes a new limiter without TTL; on a limiter
  // it changes limit and window, keeps the recorded attempts and takes the TTL away; on a
  // key of another type it changes nothing.
  lemma RlSetConfigures(data: Keys, key: Key, limit: u64, windowSecs: u64, now: u64)
    ensures var (after, reply) := Effect(data, RlSet(key, limit, windowSecs), now);
      var windowMs := SatMul(windowSecs, 1000);
      if IsLive(data, key, now) && !data[key].value.Limiter? then after == data && reply == WrongType
      else
        && reply == Status && key in after && after - {key} == data - {key} && after[key].expiresAt == None
        && after[key].value == Limiter(RateLimiter.Limiter(
             limit, windowMs, if IsLive(data, key, now) then data[key].value.rl.buckets else []))
  {
    var after := Effect(data, RlSet(key, limit, windowSecs), now).0;
    if !(IsLive(data, key, now) && !data[key].value.Limiter?) {
      assert after - {key} == data - {key};
    }
  }

  // RLCHECK without a configuration: the attempt is the stored limiter's, which keeps its
  // TTL at one window if it has one. Without a limiter nothing happens.
  lemma RlCheckAsksTheLimiter(data: Keys, key: Key, now: u64)
    ensures var (after, reply) := Effect(data, RlCheck(key, None), now);
      if !IsLive(data, key, now) then after == data && reply == NoLimit
      else if !data[key].value.Limiter? then after == data && reply == WrongType
      else
        var rl := data[key].value.rl;
        && reply == Rate(RateLimiter.Check(rl, now).1) && key in after && after - {key} == data - {key}
        && after[key].value == Limiter(RateLimiter.Check(rl, now).0)
        && after[key].expiresAt == if data[key].expiresAt.None? then None else Some(SatAdd(now, rl.windowMs))
  {
    hide RateLimiter.Check;
    var after := Effect(data, RlCheck(key, None), now).0;
    if IsLive(data, key, now) && data[key].value.Limiter? {
      assert after - {key} == data - {key};
    }
  }

  // With one it answers as the stored limiter would with that limit and window; a limiter
  // that has no TTL gets none.
  lemma RlCheckReconfigures(data: Keys, key: Key, limit: u64, windowSecs: u64, now: u64)
    requires IsLive(data, key, now)
    ensures var (after, reply) := Effect(data, RlCheck(key, Some((limit, windowSecs))), now);
      var windowMs := SatMul(windowSecs, 1000);
      if !data[key].value.Limiter? then after == data && reply == WrongType
      else
        var rl := RateLimiter.Limiter(limit, windowMs, data[key].value.rl.buckets);
        && reply == Rate(RateLimiter.Check(rl, now).1) && key in after && after - {key} == data - {key}
        && after[key].value == Limiter(RateLimiter.Check(rl, now).0)
        && after[key].expiresAt == if data[key].expiresAt.None? then None else Some(SatAdd(now, windowMs))
  {
    hide RateLimiter.Check;
    var after := Effect(data, RlCheck(key, Some((limit, windowSecs))), now).0;
    if data[key].value.Limiter? {
      assert after - {key} == data - {key};
    }
  }

  // From RLSET on, the key is a limiter that never forgets: every reply is the limiter's.
  lemma {:induction false} ConfiguredIsALimiter(data: Keys, key: Key, limit: u64, windowSecs: u64, set_: u64,
                                                times: seq<u64>)
    requires !IsLive(data, key, set_)
    ensures var windowMs := SatMul(windowSecs, 1000);
      var (after, replies) := ConfiguredRun(Effect(data, RlSet(key, limit, windowSecs), set_).0, key, times);
      && |replies| == |times|
      && key in after && after[key].expiresAt == None
      && after[key].value == Limiter(RateLimiter.Run(limit, windowMs, times).0)
      && forall i :: 0 <= i < |times| ==> AnswersAt(limit, windowMs, times, replies, i)
    decreases |times|
  {
    hide Effect, RateLimiter.Check, RateLimiter.Run, AnswersAt;
    var start := Effect(data, RlSet(key, limit, windowSecs), set_).0;
    var windowMs := SatMul(windowSecs, 1000);
    RlSetConfigures(data, key, limit, windowSecs, set_);
    if times == [] {
      RunOfNothing(limit, windowMs);
    } else {
      var n := |times| - 1;
      ConfiguredIsALimiter(data, key, limit, windowSecs, set_, times[..n]);
      RlCheckAsksTheLimiter(ConfiguredRun(start, key, times[..n]).0, key, times[n]);
      assert times[..n] + [times[n]] == times;
      RunNext(limit, windowMs, times[..n], times[n]);
      var replies := ConfiguredRun(start, key, times).1;
      forall i | 0 <= i < |times| ensures AnswersAt(limit, windowMs, times, replies, i) {
        if i < n { AnswersOn(limit, windowMs, times, replies, n, i); } else { AnswersLast(limit, windowMs, times, replies); }
      }
    }
  }

  // The reply to an attempt is that of a limiter alone after the attempts before it.
  ghost predicate AnswersAt(limit: u64, windowMs: u64, times: seq<u64>, replies: seq<Reply>, i: nat)
    requires i < |times| == |replies|
  {
    replies[i] == Rate(RateLimiter.Check(RateLimiter.Run(limit, windowMs, times[..i]).0, times[i]).1)
  }

  lemma AnswersOn(limit: u64, windowMs: u64, times: seq<u64>, replies: seq<Reply>, n: nat, i: nat)
    requires |times| == |replies| && i < n <= |times|
    ensures AnswersAt(limit, windowMs, times, replies, i) <==> AnswersAt(limit, windowMs, times[..n], replies[..n], i)
  {
    hide RateLimiter.Check, RateLimiter.Run;
    assert times[..n][..i] == times[..i];
  }

  lemma AnswersLast(limit: u64, windowMs: u64, times: seq<u64>, replies: seq<Reply>)
    requires |times| == |replies| > 0
    ensures var n := |times| - 1;
      AnswersAt(limit, windowMs, times, replies, n) <==>
        replies[n] == Rate(RateLimiter.Check(RateLimiter.Run(limit, windowMs, times[..n]).0, times[n]).1)
  {
  }

  lemma RunOfNothing(limit: u64, windowMs: u64)
    ensures RateLimiter.Run(limit, windowMs, []) == (Created(limit, windowMs), [])
  {
  }

  // The times at which a run was admitted.
  function Admitted(times: seq<u64>, replies: seq<Reply>): seq<u64>
    requires |replies| == |times|
  {
    if times == [] then []
    else
      var n := |times| - 1;
      var r := replies[n];
      Admitted(times[..n], replies[..n]) + if r.Rate? && r.reply.Reply? && r.reply.allowed then [times[n]] else []
  }

  lemma {:induction false} AdmittedIsTheLog(limit: u64, windowMs: u64, times: seq<u64>, replies: seq<Reply>)
    requires |replies| == |times|
    requires forall i :: 0 <= i < |times| ==> AnswersAt(limit, windowMs, times, replies, i)
    ensures Admitted(times, replies) == RateLimiter.Run(limit, windowMs, times).1
    decreases |times|
  {
    hide RateLimiter.Check, RateLimiter.Run, AnswersAt;
    if times == [] {
      RunOfNothing(limit, windowMs);
    } else {
      var n := |times| - 1;
      forall i | 0 <= i < n ensures AnswersAt(limit, windowMs, times[..n], replies[..n], i) {
        AnswersOn(limit, windowMs, times, replies, n, i);
      }
      AdmittedIsTheLog(limit, windowMs, times[..n], replies[..n]);
      AnswersLast(limit, windowMs, times, replies);
      assert times[..n] + [times[n]] == times;
      RunNext(limit, windowMs, times[..n], times[n]);
    }
  }

  // So after RLSET the limit holds of the command: in every closed interval as long as the
  // window, over every run.
  lemma ConfiguredLimitHolds(data: Keys, key: Key, limit: u64, windowSecs: u64, set_: u64, times: seq<u64>, from: nat)
    requires !IsLive(data, key, set_) && RateLimiter.Clock(times)
    ensures var (after, replies) := ConfiguredRun(Effect(data, RlSet(key, limit, windowSecs), set_).0, key, times);
      |replies| == |times| && InWindowFrom(Admitted(times, replies), SatMul(windowSecs, 1000), from) <= limit
  {
    hide Effect, RateLimiter.Check, RateLimiter.Run, RateLimiter.CountIn, RateLimiter.Clock, Admitted, ConfiguredRun;
    hide AnswersAt;
    var windowMs := SatMul(windowSecs, 1000);
    ConfiguredIsALimiter(data, key, limit, windowSecs, set_, times);
    AdmittedIsTheLog(limit, windowMs, times,
                     ConfiguredRun(Effect(data, RlSet(key, limit, windowSecs), set_).0, key, times).1);
    RateLimiter.NoWindowAdmitsMoreThanLimit(limit, windowMs, times, from);
  }

  // However many attempts a limiter has seen, its key weighs sixteen bytes for each pair it
  // holds and a little more: with a window of whole seconds under 1200 bytes beside the name.
  lemma LimiterWeighs(key: Key, e: Entry, limit: u64, windowMs: u64, times: seq<u64>)
    requires RateLimiter.Clock(times) && e.value == Limiter(RateLimiter.Run(limit, windowMs, times).0)
    ensures EntrySize(key, e) == |key| + 80 + 16 * |RateLimiter.Run(limit, windowMs, times).0.buckets|
    ensures windowMs % 1000 == 0 ==> EntrySize(key, e) <= |key| + 1168
  {
    hide RateLimiter.Run, RateLimiter.Clock;
    RateLimiter.BucketsAreBounded(limit, windowMs, times);
  }
}
