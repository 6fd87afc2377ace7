/** The few facts about products, quotients and remainders the other modules need. */
module Arith {
  lemma {:induction false} MulMonotone(w: nat, x: nat, y: nat)
    requires x <= y
    ensures w * x <= w * y
    decreases y
  {
    if x < y {
      MulMonotone(w, x, y - 1);
      assert w * y == w * (y - 1) + w;
    }
  }

  lemma AfterTheLast(w: nat, x: nat, y: nat, now: nat)
    requires x > y && now < w * y + w
    ensures w * x > now
  {
    MulMonotone(w, y + 1, x);
    assert w * (y + 1) == w * y + w;
  }

  lemma DivideBound(k: nat, w: nat, a: nat)
    requires w > 0 && w * k <= a
    ensures k <= a / w
  {
    if k > a / w {
      assert a == w * (a / w) + a % w;
      AfterTheLast(w, k, a / w, a);
    }
  }

  // A remainder is known by any quotient that fits.
  lemma RemainderIs(a: nat, n: nat, q: int, r: nat)
    requires n > 0 && r < n && a == n * q + r
    ensures a % n == r
  {
    var d, m := a / n, a % n;
    assert a == n * d + m;
    if q < d {
      ProductGap(n, q, d);
    } else if d < q {
      ProductGap(n, d, q);
    }
  }

  lemma ProductGap(n: nat, x: int, y: int)
    requires x < y
    ensures n * x + n <= n * y
  {
    assert n * y == n * x + n * (y - x);
    MulMonotone(n, 1, y - x);
  }
}
