/** Ordered sets as strictly increasing sequences, and the order of byte strings. */
module Order {
  import opened Bytes

  ghost predicate StrictOrder<T(!new)>(less: (T, T) -> bool) {
    && (forall x :: !less(x, x))
    && (forall x, y, z :: less(x, y) && less(y, z) ==> less(x, z))
    && (forall x, y :: x != y ==> less(x, y) || less(y, x))
  }

  ghost predicate Increasing<T>(s: seq<T>, less: (T, T) -> bool) {
    forall i, j :: 0 <= i < j < |s| ==> less(s[i], s[j])
  }

  ghost predicate Lists<T(!new)>(s: seq<T>, elements: set<T>, less: (T, T) -> bool) {
    Increasing(s, less) && forall x :: x in s <==> x in elements
  }

  // Inserting into and removing from an ordered set.
  function Insert<T(==)>(s: seq<T>, x: T, less: (T, T) -> bool): seq<T> {
    if s == [] then [x]
    else if less(s[0], x) then [s[0]] + Insert(s[1..], x, less)
    else if s[0] == x then s
    else [x] + s
  }

  function Remove<T(==)>(s: seq<T>, x: T): seq<T> {
    if s == [] then [] else if s[0] == x then s[1..] else [s[0]] + Remove(s[1..], x)
  }

  lemma {:induction false} InsertLists<T(!new)>(s: seq<T>, elements: set<T>, x: T, less: (T, T) -> bool)
    requires StrictOrder(less) && Lists(s, elements, less)
    ensures Lists(Insert(s, x, less), elements + {x}, less)
    decreases |s|
  {
    if s != [] && less(s[0], x) {
      var tail := Insert(s[1..], x, less);
      TailLists(s, elements, less);
      InsertLists(s[1..], elements - {s[0]}, x, less);
      ConsLists(s[0], tail, elements - {s[0]} + {x}, less);
      assert elements - {s[0]} + {x} + {s[0]} == elements + {x};
    } else if s != [] && s[0] == x {
      assert elements + {x} == elements;
    } else {
      forall y | y in s ensures less(x, y) {
        var i :| 0 <= i < |s| && s[i] == y;
        assert less(x, s[0]);
        assert i > 0 ==> less(s[0], s[i]);
      }
      ConsLists(x, s, elements, less);
      assert s == [] ==> [x] == [x] + s;
    }
  }

  lemma {:induction false} RemoveLists<T(!new)>(s: seq<T>, elements: set<T>, x: T, less: (T, T) -> bool)
    requires StrictOrder(less) && Lists(s, elements, less)
    ensures Lists(Remove(s, x), elements - {x}, less)
    decreases |s|
  {
    if s != [] {
      TailLists(s, elements, less);
      if s[0] != x {
        RemoveLists(s[1..], elements - {s[0]}, x, less);
        ConsLists(s[0], Remove(s[1..], x), elements - {s[0]} - {x}, less);
        assert elements - {s[0]} - {x} + {s[0]} == elements - {x};
      }
    }
  }

  lemma TailLists<T(!new)>(s: seq<T>, elements: set<T>, less: (T, T) -> bool)
    requires StrictOrder(less) && Lists(s, elements, less) && s != []
    ensures Lists(s[1..], elements - {s[0]}, less)
    ensures forall y :: y in s[1..] ==> less(s[0], y)
  {
    assert s == [s[0]] + s[1..];
    forall y | y in s[1..] ensures less(s[0], y) {
      var i :| 0 <= i < |s| - 1 && s[1..][i] == y;
      assert s[i + 1] == y;
    }
  }

  lemma ConsLists<T(!new)>(x: T, s: seq<T>, elements: set<T>, less: (T, T) -> bool)
    requires Lists(s, elements, less) && forall y :: y in s ==> less(x, y)
    ensures Lists([x] + s, elements + {x}, less)
  {
    var t := [x] + s;
    forall i, j | 0 <= i < j < |t| ensures less(t[i], t[j]) {
      assert t[j] == s[j - 1] && t[j] in s;
      if i > 0 { assert t[i] == s[i - 1]; }
    }
  }

  lemma FirstIsLeast<T(!new)>(s: seq<T>, elements: set<T>, x: T, less: (T, T) -> bool)
    requires Lists(s, elements, less) && x in elements
    ensures s != [] && s[0] in elements && (x == s[0] || less(s[0], x))
  {
    assert x in s;
    assert s[0] in s;
  }

  lemma FirstIsListed<T(!new)>(s: seq<T>, elements: set<T>, less: (T, T) -> bool)
    requires Lists(s, elements, less) && s != []
    ensures s[0] in elements
  {
    assert s[0] in s;
  }

  // There is only one increasing listing of a set.
  lemma {:induction false} ListingIsUnique<T(!new)>(s: seq<T>, t: seq<T>, elements: set<T>, less: (T, T) -> bool)
    requires StrictOrder(less) && Lists(s, elements, less) && Lists(t, elements, less)
    ensures s == t
    decreases |s|
  {
    if s == [] {
      if t != [] { FirstIsListed(t, elements, less); }
    } else {
      FirstIsListed(s, elements, less);
      FirstIsLeast(t, elements, s[0], less);
      FirstIsLeast(s, elements, t[0], less);
      assert s[0] == t[0];
      TailLists(s, elements, less);
      TailLists(t, elements, less);
      ListingIsUnique(s[1..], t[1..], elements - {s[0]}, less);
    }
  }

  ghost function Listing<T(!new)>(elements: set<T>, less: (T, T) -> bool): (s: seq<T>)
    requires StrictOrder(less)
    ensures Lists(s, elements, less)
    decreases |elements|
  {
    if elements == {} then []
    else
      var x :| x in elements;
      InsertLists(Listing(elements - {x}, less), elements - {x}, x, less);
      assert elements - {x} + {x} == elements;
      Insert(Listing(elements - {x}, less), x, less)
  }

  // ── Byte strings ────────────────────────────────────────────────────────────

  predicate Less(a: bytes, b: bytes)
    decreases |a|
  {
    if b == [] then false
    else if a == [] then true
    else a[0] < b[0] || (a[0] == b[0] && Less(a[1..], b[1..]))
  }

  // The first byte in which they differ decides, or the one that ends there is less.
  ghost predicate DecidedAt(a: bytes, b: bytes, n: nat) {
    n <= |a| && n < |b| && a[..n] == b[..n] && (n == |a| || a[n] < b[n])
  }

  lemma {:induction false} LessIff(a: bytes, b: bytes)
    ensures Less(a, b) <==> exists n: nat :: DecidedAt(a, b, n)
    decreases |a|
  {
    if a == [] || b == [] {
      if b != [] { assert DecidedAt(a, b, 0); }
    } else {
      LessIff(a[1..], b[1..]);
      if n: nat :| DecidedAt(a[1..], b[1..], n) && a[0] == b[0] {
        assert a[..n + 1] == [a[0]] + a[1..][..n] && b[..n + 1] == [b[0]] + b[1..][..n];
        assert DecidedAt(a, b, n + 1);
      }
      if a[0] < b[0] { assert DecidedAt(a, b, 0); }
      if n: nat :| DecidedAt(a, b, n) && n > 0 {
        assert a[..n][0] == a[0] && b[..n][0] == b[0];
        assert a[1..][..n - 1] == a[..n][1..] && b[1..][..n - 1] == b[..n][1..];
        assert DecidedAt(a[1..], b[1..], n - 1);
      }
    }
  }

  lemma {:induction false} LessIrreflexive(a: bytes)
    ensures !Less(a, a)
    decreases |a|
  {
    if a != [] { LessIrreflexive(a[1..]); }
  }

  lemma {:induction false} LessTransitive(a: bytes, b: bytes, c: bytes)
    requires Less(a, b) && Less(b, c)
    ensures Less(a, c)
    decreases |a|
  {
    if a != [] && a[0] == b[0] == c[0] { LessTransitive(a[1..], b[1..], c[1..]); }
  }

  lemma {:induction false} LessTotal(a: bytes, b: bytes)
    requires a != b
    ensures Less(a, b) || Less(b, a)
    decreases |a|
  {
    if a != [] && b != [] && a[0] == b[0] {
      assert a == [a[0]] + a[1..] && b == [b[0]] + b[1..];
      LessTotal(a[1..], b[1..]);
    }
  }

  lemma LessIsStrictOrder()
    ensures StrictOrder(Less)
  {
    forall x ensures !Less(x, x) { LessIrreflexive(x); }
    forall x, y, z | Less(x, y) && Less(y, z) ensures Less(x, z) { LessTransitive(x, y, z); }
    forall x, y | x != y ensures Less(x, y) || Less(y, x) { LessTotal(x, y); }
  }

  lemma LeastExists(s: set<bytes>)
    requires s != {}
    ensures exists k :: k in s && forall j :: j in s && j != k ==> Less(k, j)
  {
    LessIsStrictOrder();
    var listed := Listing(s, Less);
    var x :| x in s;
    FirstIsLeast(listed, s, x, Less);
    forall j | j in s && j != listed[0] ensures Less(listed[0], j) {
      FirstIsLeast(listed, s, j, Less);
    }
  }

  function Least(s: set<bytes>): (k: bytes)
    requires s != {}
    ensures k in s && forall j :: j in s && j != k ==> Less(k, j)
  {
    LeastExists(s);
    LessIsStrictOrder();
    var k :| k in s && forall j :: j in s && j != k ==> Less(k, j);
    k
  }
}
