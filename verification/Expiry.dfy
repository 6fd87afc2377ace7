/**
 The bounded expiry sweep: a cursor that walks the dense array of keys with a TTL,
 `limit` places at a time, while the keys it removes reorder that array under it.
 */
module Expiry {
  import opened Arith
  import opened KeyIndex

  // Values of a usize.
  const WORD: nat := 0x1_0000_0000_0000_0000

  // More keys than 64-bit memory can hold.
  const MOST_KEYS: nat := 0x2000_0000_0000_0000

  datatype Sweeper = Sweeper(keys: seq<Key>, cursor: nat)

  function Slot(n: nat, cursor: nat, offset: nat): (p: nat)
    requires n > 0
    ensures p < n
  {
    (cursor % n + offset) % n
  }

  // The keys one sweep inspects.
  function Window(keys: seq<Key>, cursor: nat, limit: nat): (window: seq<Key>)
    ensures forall k :: k in window ==> k in keys
    ensures |window| <= limit && |window| <= |keys|
  {
    if keys == [] then []
    else
      var take := if limit < |keys| then limit else |keys|;
      seq(take, o requires 0 <= o => keys[Slot(|keys|, cursor, o)])
  }

  // One sweep: exactly the expired keys among those inspected are gone.
  ghost predicate Step(a: Sweeper, b: Sweeper, limit: nat, expired: set<Key>) {
    && b.cursor == (if limit == 0 || a.keys == [] then a.cursor else (a.cursor + limit) % WORD)
    && (forall k :: k in b.keys <==> k in a.keys && !(k in expired && k in Window(a.keys, a.cursor, limit)))
    && (b.keys == a.keys || |b.keys| < |a.keys|)
  }

  predicate Wraps(a: Sweeper, limit: nat) {
    a.keys != [] && a.cursor + limit >= WORD
  }

  ghost predicate Run(run: seq<Sweeper>, limit: nat, expired: seq<set<Key>>) {
    && |run| == |expired| + 1
    && forall i :: 0 <= i < |expired| ==> Step(run[i], run[i + 1], limit, expired[i])
  }

  // Sweeps that together inspect n places.
  function Sweeps(n: nat, limit: nat): nat
    requires limit > 0
  {
    (n + limit - 1) / limit
  }

  lemma SweepsBounds(n: nat, limit: nat)
    requires limit > 0
    ensures n <= limit * Sweeps(n, limit) < n + limit
    ensures n > 0 ==> Sweeps(n, limit) > 0
    ensures n == 1 ==> Sweeps(n, limit) == 1
    ensures n <= limit && n > 0 ==> Sweeps(n, limit) == 1
  {
    var a := n + limit - 1;
    assert a == limit * (a / limit) + a % limit;
    if n > 0 { DivideBound(1, limit, a); }
    if 0 < n <= limit && Sweeps(n, limit) > 1 { MulMonotone(limit, 2, Sweeps(n, limit)); }
  }

  lemma SweepsMonotone(m: nat, n: nat, limit: nat)
    requires limit > 0 && m <= n
    ensures Sweeps(m, limit) <= Sweeps(n, limit)
  {
    var a := m + limit - 1;
    assert a == limit * (a / limit) + a % limit;
    DivideBound(a / limit, limit, n + limit - 1);
  }

  // Enough sweeps to lose n keys one by one.
  function Budget(n: nat, limit: nat): nat
    requires limit > 0
  {
    if n == 0 then 0 else Sweeps(n, limit) + Budget(n - 1, limit)
  }

  lemma {:induction false} BudgetMonotone(m: nat, n: nat, limit: nat)
    requires limit > 0 && m <= n
    ensures Budget(m, limit) <= Budget(n, limit)
    decreases n
  {
    if m < n { BudgetMonotone(m, n - 1, limit); }
  }

  lemma SweepsNext(n: nat, limit: nat)
    requires limit > 0
    ensures Sweeps(n + 1, limit) == if n < limit * Sweeps(n, limit) then Sweeps(n, limit) else Sweeps(n, limit) + 1
  {
    hide Sweeps;
    SweepsBounds(n, limit);
    SweepsBounds(n + 1, limit);
    NextQuotient(n, limit, Sweeps(n, limit), Sweeps(n + 1, limit));
  }

  lemma NextQuotient(n: nat, limit: nat, c: nat, d: nat)
    requires limit > 0 && n <= limit * c < n + limit && n + 1 <= limit * d < n + 1 + limit
    ensures d == if n < limit * c then c else c + 1
  {
    if d < c {
      ProductGap(limit, d, c);
    } else if d > c {
      ProductGap(limit, c, d);
      if d > c + 1 {
        ProductGap(limit, c, c + 1);
        ProductGap(limit, c + 1, d);
      }
    }
  }

  // The budget in closed form, and what it leaves of n * Sweeps(n).
  lemma {:induction false} BudgetIs(n: nat, limit: nat)
    requires limit > 0
    ensures var c := Sweeps(n, limit);
      2 * Budget(n, limit) + (c - 1) * (limit * c - n) == n * (c + 1)
    decreases n
  {
    SweepsBounds(n, limit);
    if n == 0 {
      SweepsOfNone(limit);
    } else {
      BudgetIs(n - 1, limit);
      SweepsNext(n - 1, limit);
      SweepsBounds(n - 1, limit);
      hide Sweeps;
      BudgetStep(n - 1, limit, Sweeps(n - 1, limit), Sweeps(n, limit), Budget(n - 1, limit));
    }
  }

  lemma SweepsOfNone(limit: nat)
    requires limit > 0
    ensures Sweeps(0, limit) == 0
  {
  }

  lemma BudgetStep(n: nat, limit: nat, c: nat, d: nat, budget: nat)
    requires 2 * budget + (c - 1) * (limit * c - n) == n * (c + 1)
    requires n <= limit * c && d == if n < limit * c then c else c + 1
    ensures 2 * (budget + d) + (d - 1) * (limit * d - (n + 1)) == (n + 1) * (d + 1)
  {
    if n < limit * c {
      var x := limit * c;
      assert (c - 1) * (x - (n + 1)) == (c - 1) * (x - n) - (c - 1);
      assert (n + 1) * (c + 1) == n * (c + 1) + c + 1;
    } else {
      var x := limit * c;
      assert limit * d == x + limit && x == n;
      assert (c - 1) * (x - n) == 0;
      assert c * (x + limit - (n + 1)) == c * limit - c;
      assert c * limit == n;
      assert (n + 1) * (c + 2) == n * (c + 1) + n + c + 2;
    }
  }

  // It leaves room for half as many interruptions as there are keys.
  lemma BudgetFits(n: nat, limit: nat, interruptions: nat)
    requires limit > 0 && n > 0 && 2 * interruptions <= n
    ensures Budget(n, limit) + (Sweeps(n, limit) - 1) * interruptions <= n * Sweeps(n, limit)
  {
    hide Sweeps, Budget;
    SweepsBounds(n, limit);
    BudgetIs(n, limit);
    var c := Sweeps(n, limit);
    NotNegative(c - 1, limit * c - n);
    FitsBy(n, c - 1, Budget(n, limit), (c - 1) * (limit * c - n), interruptions);
  }

  lemma NotNegative(x: nat, y: nat)
    ensures x * y >= 0
  {
  }

  lemma FitsBy(n: nat, e: nat, budget: nat, slack: nat, interruptions: nat)
    requires 2 * budget + slack == n * (e + 2) && 2 * interruptions <= n
    ensures budget + e * interruptions <= n * (e + 1)
  {
    MulMonotone(e, 2 * interruptions, n);
    assert e * (2 * interruptions) == 2 * (e * interruptions);
    assert n * (e + 2) == n * e + 2 * n && n * (e + 1) == n * e + n && e * n == n * e;
  }

  // The cursor before sweep i, when none of the sweeps from `start` wrapped it.
  lemma {:induction false} CursorMoves(run: seq<Sweeper>, limit: nat, expired: seq<set<Key>>, start: nat, i: nat)
    requires Run(run, limit, expired) && limit > 0 && start <= i < |run|
    requires forall j :: start <= j < i ==> !Wraps(run[j], limit)
    ensures |run[i].keys| <= |run[start].keys|
    ensures |run[i].keys| == |run[start].keys| && run[start].keys != [] ==>
      run[i].keys == run[start].keys && run[i].cursor == run[start].cursor + limit * (i - start)
    decreases i
  {
    if start < i {
      CursorMoves(run, limit, expired, start, i - 1);
      assert Step(run[i - 1], run[i], limit, expired[i - 1]);
      assert limit * (i - start) == limit * (i - 1 - start) + limit;
    }
  }

  lemma {:induction false} GoneStaysGone(run: seq<Sweeper>, limit: nat, expired: seq<set<Key>>, i: nat, j: nat, k: Key)
    requires Run(run, limit, expired) && i <= j < |run| && k !in run[i].keys
    ensures k !in run[j].keys
    decreases j
  {
    if i < j {
      GoneStaysGone(run, limit, expired, i, j - 1, k);
      assert Step(run[j - 1], run[j], limit, expired[j - 1]);
    }
  }

  // Position p is inspected by one of the next Sweeps(n) windows of an unwrapped cursor.
  lemma WindowReaches(n: nat, cursor: nat, limit: nat, p: nat) returns (j: nat, offset: nat)
    requires limit > 0 && p < n
    ensures j < Sweeps(n, limit) && offset < limit && offset < n
    ensures Slot(n, cursor + limit * j, offset) == p
  {
    var c := cursor % n;
    var d := if c <= p then p - c else p - c + n;
    j, offset := Divide(d, limit);
    SlotIs(n, cursor, limit * j, offset, p, d);
    SweepsBounds(n, limit);
    hide Sweeps, Slot;
    if j >= Sweeps(n, limit) { MulMonotone(limit, Sweeps(n, limit), j); }
  }

  lemma Divide(d: nat, limit: nat) returns (q: nat, r: nat)
    requires limit > 0
    ensures d == limit * q + r && r < limit && r <= d
  {
    q, r := d / limit, d % limit;
    assert d == limit * q + r;
  }

  lemma SlotIs(n: nat, cursor: nat, ahead: nat, offset: nat, p: nat, d: nat)
    requires n > 0 && p < n && d == ahead + offset
    requires cursor % n + d == p || cursor % n + d == p + n
    ensures Slot(n, cursor + ahead, offset) == p
  {
    var c := cursor + ahead;
    var turns := if cursor % n + d == p then 0 else 1;
    assert cursor == n * (cursor / n) + cursor % n;
    assert c == n * (c / n) + c % n;
    var q := cursor / n + turns - c / n;
    assert n * q == n * (cursor / n) + n * turns - n * (c / n);
    RemainderIs(c % n + offset, n, q, p);
  }

  // While an expired key is listed, the next Sweeps(n) sweeps remove some key.
  lemma SomeKeyGoes(run: seq<Sweeper>, limit: nat, expired: seq<set<Key>>, goal: set<Key>, i: nat, k: Key)
    returns (next: nat)
    requires Run(run, limit, expired) && limit > 0 && (forall j :: 0 <= j < |expired| ==> goal <= expired[j])
    requires i < |run| && k in run[i].keys && k in goal
    requires i + Sweeps(|run[i].keys|, limit) < |run|
    requires forall j :: i <= j < i + Sweeps(|run[i].keys|, limit) - 1 ==> !Wraps(run[j], limit)
    ensures i < next <= i + Sweeps(|run[i].keys|, limit) && |run[next].keys| < |run[i].keys|
  {
    var keys, cursor := run[i].keys, run[i].cursor;
    var p: nat :| p < |keys| && keys[p] == k;
    var j, offset := WindowReaches(|keys|, cursor, limit, p);
    CursorMoves(run, limit, expired, i, i + j);
    next := i + j + 1;
    assert Step(run[i + j], run[i + j + 1], limit, expired[i + j]);
    if |run[i + j].keys| == |keys| {
      assert run[i + j].keys == keys && run[i + j].cursor == cursor + limit * j;
      assert Window(keys, cursor + limit * j, limit)[offset] == k;
      assert k in expired[i + j];
      assert k !in run[next].keys;
    }
  }

  // How many of the sweeps from i up to j wrap the cursor.
  function WrapsIn(run: seq<Sweeper>, limit: nat, i: nat, j: nat): nat
    requires i <= j <= |run|
    decreases j - i
  {
    if i == j then 0 else (if Wraps(run[i], limit) then 1 else 0) + WrapsIn(run, limit, i + 1, j)
  }

  lemma {:induction false} FewerWraps(run: seq<Sweeper>, limit: nat, i: nat, h: nat, j: nat)
    requires i <= h <= j <= |run|
    ensures WrapsIn(run, limit, h, j) <= WrapsIn(run, limit, i, j)
    decreases h - i
  {
    if i < h { FewerWraps(run, limit, i + 1, h, j); }
  }

  // The first wrap from sweep i up to j, or j if there is none.
  lemma {:induction false} FirstWrap(run: seq<Sweeper>, limit: nat, i: nat, j: nat) returns (wrap: nat)
    requires i <= j <= |run|
    ensures i <= wrap <= j && forall h :: i <= h < wrap ==> !Wraps(run[h], limit)
    ensures wrap < j ==> Wraps(run[wrap], limit)
    decreases j - i
  {
    if i == j || Wraps(run[i], limit) {
      wrap := i;
    } else {
      wrap := FirstWrap(run, limit, i + 1, j);
    }
  }

  // From sweep i on, where each wrap of the cursor may cost up to `cost` sweeps.
  lemma {:induction false} AllGo(run: seq<Sweeper>, limit: nat, expired: seq<set<Key>>, goal: set<Key>, i: nat,
                                 cost: nat, k: Key)
    requires Run(run, limit, expired) && limit > 0 && (forall j :: 0 <= j < |expired| ==> goal <= expired[j])
    requires i < |run| && k in goal && Sweeps(|run[i].keys|, limit) <= cost + 1
    requires i + Budget(|run[i].keys|, limit) + cost * WrapsIn(run, limit, i, |expired|) <= |expired|
    ensures k !in run[|expired|].keys
    decreases |run| - i
  {
    if k !in run[i].keys {
      GoneStaysGone(run, limit, expired, i, |expired|, k);
    } else {
      var next := NextStretch(run, limit, expired, goal, i, cost, k);
      AllGo(run, limit, expired, goal, next, cost, k);
    }
  }

  // Until some key is gone or the cursor has wrapped, and still within the budget.
  lemma NextStretch(run: seq<Sweeper>, limit: nat, expired: seq<set<Key>>, goal: set<Key>, i: nat, cost: nat, k: Key)
    returns (next: nat)
    requires Run(run, limit, expired) && limit > 0 && (forall j :: 0 <= j < |expired| ==> goal <= expired[j])
    requires i < |run| && k in goal && k in run[i].keys && Sweeps(|run[i].keys|, limit) <= cost + 1
    requires i + Budget(|run[i].keys|, limit) + cost * WrapsIn(run, limit, i, |expired|) <= |expired|
    ensures i < next < |run| && Sweeps(|run[next].keys|, limit) <= cost + 1
    ensures next + Budget(|run[next].keys|, limit) + cost * WrapsIn(run, limit, next, |expired|) <= |expired|
  {
    hide Sweeps, Budget, Wraps, Run, WrapsIn;
    var n, last := |run[i].keys|, |expired|;
    RunLength(run, limit, expired);
    SweepsBounds(n, limit);
    BudgetCovers(n, limit);
    var c := Sweeps(n, limit);
    MulMonotone(cost, 0, WrapsIn(run, limit, i, last));
    var wrap := FirstWrap(run, limit, i, i + c - 1);
    if wrap < i + c - 1 {
      next := wrap + 1;
      CursorMoves(run, limit, expired, i, wrap);
      StepShrinks(run, limit, expired, wrap);
      FewerWraps(run, limit, i, wrap, last);
      OneWrapLess(run, limit, wrap, last, cost, WrapsIn(run, limit, i, last));
      BudgetMonotone(|run[next].keys|, n, limit);
      SweepsMonotone(|run[next].keys|, n, limit);
    } else {
      next := SomeKeyGoes(run, limit, expired, goal, i, k);
      BudgetMonotone(|run[next].keys|, n - 1, limit);
      SweepsMonotone(|run[next].keys|, n, limit);
      FewerWraps(run, limit, i, next, last);
      MulMonotone(cost, WrapsIn(run, limit, next, last), WrapsIn(run, limit, i, last));
    }
  }

  lemma RunLength(run: seq<Sweeper>, limit: nat, expired: seq<set<Key>>)
    requires Run(run, limit, expired)
    ensures |run| == |expired| + 1
  {
  }

  lemma BudgetCovers(n: nat, limit: nat)
    requires limit > 0 && n > 0
    ensures Budget(n, limit) == Sweeps(n, limit) + Budget(n - 1, limit)
  {
  }

  lemma StepShrinks(run: seq<Sweeper>, limit: nat, expired: seq<set<Key>>, i: nat)
    requires Run(run, limit, expired) && i < |expired|
    ensures |run[i + 1].keys| <= |run[i].keys|
  {
    assert Step(run[i], run[i + 1], limit, expired[i]);
  }

  lemma OneWrapLess(run: seq<Sweeper>, limit: nat, wrap: nat, last: nat, cost: nat, most: nat)
    requires wrap < last <= |run| && Wraps(run[wrap], limit) && WrapsIn(run, limit, wrap, last) <= most
    ensures cost * WrapsIn(run, limit, wrap + 1, last) + cost <= cost * most
  {
    var w := WrapsIn(run, limit, wrap + 1, last);
    MulMonotone(cost, w + 1, most);
    assert cost * (w + 1) == cost * w + cost;
  }

  lemma {:induction false} CursorIsAWord(run: seq<Sweeper>, limit: nat, expired: seq<set<Key>>, i: nat)
    requires Run(run, limit, expired) && i < |run| && run[0].cursor < WORD
    ensures run[i].cursor < WORD
  {
    if i > 0 {
      CursorIsAWord(run, limit, expired, i - 1);
      assert Step(run[i - 1], run[i], limit, expired[i - 1]);
    }
  }

  // Every wrap takes a word's worth of steps.
  lemma {:induction false} WrapsAreRare(run: seq<Sweeper>, limit: nat, expired: seq<set<Key>>, i: nat)
    requires Run(run, limit, expired) && limit < WORD && i <= |expired| && run[0].cursor < WORD
    ensures WORD * WrapsIn(run, limit, i, |expired|) <= run[i].cursor + limit * (|expired| - i)
    decreases |expired| - i
  {
    if i < |expired| {
      WrapsAreRare(run, limit, expired, i + 1);
      CursorIsAWord(run, limit, expired, i);
      assert Step(run[i], run[i + 1], limit, expired[i]);
      CursorStep(run[i].cursor, limit);
      var w := WrapsIn(run, limit, i + 1, |expired|);
      assert limit * (|expired| - i) == limit * (|expired| - (i + 1)) + limit;
    }
  }

  lemma CursorStep(cursor: nat, limit: nat)
    requires cursor < WORD && limit < WORD
    ensures (cursor + limit) % WORD == if cursor + limit < WORD then cursor + limit else cursor + limit - WORD
  {
    if cursor + limit >= WORD {
      RemainderIs(cursor + limit, WORD, 1, cursor + limit - WORD);
    }
  }

  lemma RunPrefix(run: seq<Sweeper>, limit: nat, expired: seq<set<Key>>, n: nat)
    requires Run(run, limit, expired) && n <= |expired|
    ensures Run(run[..n + 1], limit, expired[..n])
  {
    forall i | 0 <= i < n ensures Step(run[..n + 1][i], run[..n + 1][i + 1], limit, expired[..n][i]) {
      assert Step(run[i], run[i + 1], limit, expired[i]);
    }
  }

  // v * Sweeps(v) sweeps wrap the cursor at most v / 2 times.
  lemma FewWraps(v: nat, limit: nat, cursor: nat, wraps: nat)
    requires 0 < limit < v <= MOST_KEYS && cursor < WORD
    requires WORD * wraps <= cursor + limit * (v * Sweeps(v, limit))
    ensures 2 * wraps <= v
  {
    SweepsBounds(v, limit);
    var a := limit * Sweeps(v, limit);
    assert limit * (v * Sweeps(v, limit)) == v * a;
    hide Sweeps;
    MulMonotone(v, a, 2 * v);
    MulMonotone(v, v, MOST_KEYS);
    assert v * (2 * v) == 2 * (v * v);
  }

  lemma OneSweepIsEnough(run: seq<Sweeper>, limit: nat, expired: seq<set<Key>>, k: Key)
    requires Run(run, limit, expired) && limit >= |run[0].keys| && |expired| > 0
    requires k in run[0].keys && k in expired[0]
    ensures k !in run[1].keys
  {
    var keys := run[0].keys;
    var p: nat :| p < |keys| && keys[p] == k;
    SweepsBounds(|keys|, limit);
    var j, offset := WindowReaches(|keys|, run[0].cursor, limit, p);
    assert j == 0;
    assert Step(run[0], run[1], limit, expired[0]);
    assert Window(keys, run[0].cursor, limit)[offset] == k;
  }

  // Every key expired when the run starts is gone after v * ceil(v / limit) sweeps,
  // for v keys with a TTL, wherever the cursor starts and whatever else expires.
  lemma EveryExpiredKeyGoes(run: seq<Sweeper>, limit: nat, expired: seq<set<Key>>, goal: set<Key>)
    requires Run(run, limit, expired) && 0 < limit < WORD && run[0].cursor < WORD
    requires forall j :: 0 <= j < |expired| ==> goal <= expired[j]
    requires |run[0].keys| <= MOST_KEYS
    requires |expired| >= |run[0].keys| * Sweeps(|run[0].keys|, limit)
    ensures forall k :: k in goal ==> k !in run[|expired|].keys
  {
    hide Sweeps, Step, Window, Budget;
    var v := |run[0].keys|;
    forall k | k in goal ensures k !in run[|expired|].keys {
      SweepsBounds(v, limit);
      if k !in run[0].keys {
        GoneStaysGone(run, limit, expired, 0, |expired|, k);
      } else if limit >= v {
        OneSweepIsEnough(run, limit, expired, k);
        GoneStaysGone(run, limit, expired, 1, |expired|, k);
      } else {
        var m: nat := v * Sweeps(v, limit);
        RunPrefix(run, limit, expired, m);
        WrapsAreRare(run[..m + 1], limit, expired[..m], 0);
        var wraps := WrapsIn(run[..m + 1], limit, 0, m);
        FewWraps(v, limit, run[0].cursor, wraps);
        BudgetFits(v, limit, wraps);
        AllGo(run[..m + 1], limit, expired[..m], goal, 0, Sweeps(v, limit) - 1, k);
        GoneStaysGone(run, limit, expired, m, |expired|, k);
      }
    }
  }

  lemma {:induction false} UnexpiredStays(run: seq<Sweeper>, limit: nat, expired: seq<set<Key>>, k: Key)
    requires Run(run, limit, expired) && k in run[0].keys
    requires forall j :: 0 <= j < |expired| ==> k !in expired[j]
    ensures k in run[|expired|].keys
  {
    var n := |expired|;
    if n > 0 {
      RunPrefix(run, limit, expired, n - 1);
      UnexpiredStays(run[..n], limit, expired[..n - 1], k);
      assert Step(run[n - 1], run[n], limit, expired[n - 1]);
      assert k !in expired[n - 1];
    }
  }
}
