/**
 SCAN: paging through the ordered key set with cursors held by the store.

 A cursor stands for the last key of the page before it, so an iteration survives any
 change of the keyspace between its calls. The ghost fields remember, for every
 outstanding cursor, what its iteration has visited and returned, and which keys were
 indexed and which were wanted at each of its calls; the invariants tie them to the
 cursor, whatever other iterations are doing in between.
 */
module Scan {
  import opened Bytes
  import opened Order
  import opened Keyspace
  import Glob

  type Key = Keyspace.Key

  const MAX_CURSORS: nat := 4096
  const DEFAULT_COUNT: nat := 10

  // The keys after `last`, or all of them.
  function After(ordered: seq<Key>, last: Option<Key>): seq<Key> {
    if last.None? then ordered
    else if ordered == [] then []
    else if Less(last.value, ordered[0]) then ordered
    else After(ordered[1..], last)
  }

  lemma {:induction false} AfterIsTheRest(ordered: seq<Key>, indexed: set<Key>, last: Option<Key>)
    requires Lists(ordered, indexed, Less)
    ensures Increasing(After(ordered, last), Less)
    ensures forall k :: k in After(ordered, last) <==> k in indexed && (last.None? || Less(last.value, k))
    decreases |ordered|
  {
    LessIsStrictOrder();
    if last.Some? && ordered != [] {
      TailLists(ordered, indexed, Less);
      if Less(last.value, ordered[0]) {
        assert ordered == [ordered[0]] + ordered[1..];
      } else {
        AfterIsTheRest(ordered[1..], indexed - {ordered[0]}, last);
      }
    }
  }

  // How many keys a page visits.
  function Batch(count: Option<nat>): (batch: nat)
    ensures batch > 0
  {
    if count.None? then DEFAULT_COUNT else if count.value < 1 then 1 else count.value
  }

  class ScanCursors {
    var cursors: map<nat, Key>
    var nextToken: nat
    ghost var progress: map<nat, Progress>
    ghost var replies: map<nat, Answered>

    ghost predicate Valid()
      reads this`cursors, this`nextToken, this`progress
    {
      nextToken >= 1 && |cursors| <= MAX_CURSORS && Tracks(cursors, progress, nextToken)
    }

    constructor ()
      ensures Valid() && Replied() && cursors == map[]
    {
      cursors, nextToken := map[], 1;
      progress, replies := map[], map[];
    }

    // One call. `whole` is everything the iteration has visited by now and `always` the
    // keys that were indexed at each of its calls; at its end all of them were visited.
    method Page(ordered: seq<Key>, ghost indexed: set<Key>, cursor: nat, count: Option<nat>)
      returns (next: nat, page: seq<Key>, ghost whole: seq<Key>, ghost always: set<Key>)
      requires Valid() && Lists(ordered, indexed, Less)
      modifies this`cursors, this`nextToken, this`progress
      ensures Valid()
      ensures cursor != 0 && cursor !in old(cursors) ==> next == 0 && page == [] && cursors == old(cursors)
      ensures cursor == 0 ==> whole == page && always == indexed
      ensures cursor != 0 && cursor in old(cursors) ==>
        cursor in old(progress) &&
        whole == old(progress)[cursor].visited + page && always == old(progress)[cursor].always * indexed
      ensures cursor == 0 || cursor in old(cursors) ==>
        && Increasing(whole, Less)
        && (forall k :: k in page ==> k in indexed)
        && (next != 0 ==> next in cursors && next in progress && progress[next] == Progress(whole, always))
        && (next == 0 ==> forall k :: k in always ==> k in whole)
      ensures cursor == 0 || cursor in old(cursors) ==>
        var rest := After(ordered, if cursor == 0 then None else Some(old(cursors)[cursor]));
        && page == FirstOf(rest, Batch(count)) && (next == 0 <==> |rest| <= Batch(count))
        && (next != 0 ==> page != [] && next in cursors && cursors[next] == page[|page| - 1])
      ensures |old(cursors)| < MAX_CURSORS ==> Keeps(old(cursors), old(progress), cursors, progress, cursor)
      ensures AddsOnly(old(cursors), old(progress), cursors, progress, next)
    {
      hide Stands, Lists, Increasing, After, Keeps, AddsOnly, Tracks, FirstOf;
      NothingMoves(cursors, progress, nextToken);
      var last: Option<Key> := None;
      whole, always := [], indexed;
      if cursor != 0 {
        if cursor !in cursors {
          return 0, [], [], indexed;
        }
        var key;
        key, whole, always := Withdraw(cursor, indexed);
        last := Some(key);
      }
      ghost var held := cursors;
      next, page := Serve(ordered, indexed, last, count, whole, always);
      KeepsOn(old(cursors), held, cursors, old(progress), progress, cursor, next);
      if cursor == 0 { assert whole + page == page; }
      whole := whole + page;
    }

    // A cursor is good for one call.
    method Withdraw(cursor: nat, ghost indexed: set<Key>)
      returns (last: Key, ghost whole: seq<Key>, ghost always: set<Key>)
      requires Valid() && cursor in cursors
      modifies this`cursors
      ensures Valid() && |cursors| < |old(cursors)| && cursor in progress && last == old(cursors)[cursor]
      ensures whole == progress[cursor].visited && always == progress[cursor].always * indexed
      ensures Stands(last, whole, always) && 0 !in cursors
      ensures Keeps(old(cursors), progress, cursors, progress, cursor)
      ensures AddsOnly(old(cursors), progress, cursors, progress, 0)
    {
      hide Stands, Keeps, AddsOnly, Tracks;
      Withdraws(cursors, progress, nextToken, cursor);
      last := cursors[cursor];
      whole, always := progress[cursor].visited, progress[cursor].always * indexed;
      StandsForFewer(last, whole, progress[cursor].always, always);
      RemovedIsSmaller(cursors, cursor);
      cursors := cursors - {cursor};
    }

    // The next page after `last`, and a cursor unless it is the final one.
    method Serve(ordered: seq<Key>, ghost indexed: set<Key>, last: Option<Key>, count: Option<nat>,
                 ghost visited: seq<Key>, ghost always: set<Key>)
      returns (next: nat, page: seq<Key>)
      requires Valid() && Lists(ordered, indexed, Less) && always <= indexed
      requires if last.None? then visited == [] else Stands(last.value, visited, always)
      modifies this`cursors, this`nextToken, this`progress
      ensures Valid() && Increasing(visited + page, Less) && forall k :: k in page ==> k in indexed
      ensures var rest := After(ordered, last);
        page == FirstOf(rest, Batch(count)) && (next == 0 <==> |rest| <= Batch(count))
      ensures next == 0 ==> forall k :: k in always ==> k in visited + page
      ensures next != 0 ==>
        && page != [] && next in cursors && cursors[next] == page[|page| - 1]
        && next in progress && progress[next] == Progress(visited + page, always)
      ensures |old(cursors)| < MAX_CURSORS ==> Keeps(old(cursors), old(progress), cursors, progress, 0)
      ensures AddsOnly(old(cursors), old(progress), cursors, progress, next)
    {
      hide Stands, Lists, Increasing, After, Keeps, AddsOnly, Tracks;
      NothingMoves(cursors, progress, nextToken);
      var batch := Batch(count);
      var rest := After(ordered, last);
      AfterIsTheRest(ordered, indexed, last);
      Continues(visited, always, last, rest, if |rest| > batch then batch else |rest|, indexed);
      page := FirstOf(rest, batch);
      assert page == rest[..|page|];
      next := 0;
      if |rest| > batch {
        next := Issue(page[|page| - 1], visited + page, always);
      }
    }

    // Hands out a new cursor, dropping an arbitrary old one if there are too many.
    method Issue(at: Key, ghost whole: seq<Key>, ghost always: set<Key>) returns (token: nat)
      requires Valid() && Stands(at, whole, always)
      modifies this`cursors, this`nextToken, this`progress
      ensures Valid() && token >= 1 && token !in old(cursors)
      ensures token in cursors && cursors[token] == at
      ensures token in progress && progress[token] == Progress(whole, always)
      ensures |old(cursors)| < MAX_CURSORS ==> Keeps(old(cursors), old(progress), cursors, progress, 0)
      ensures AddsOnly(old(cursors), old(progress), cursors, progress, token)
    {
      hide Stands, Tracks, Keeps, AddsOnly;
      token := nextToken;
      nextToken := nextToken + 1;
      if |cursors| >= MAX_CURSORS {
        var oldest :| oldest in cursors;
        RemovedIsSmaller(cursors, oldest);
        cursors := cursors - {oldest};
      }
      Issued(old(cursors), cursors, progress, token, at, Progress(whole, always));
      AddedIsLarger(cursors, token, at);
      cursors := cursors[token := at];
      progress := progress[token := Progress(whole, always)];
    }

    // Every outstanding cursor's iteration has returned what it should have by now.
    ghost predicate Replied()
      reads this
    {
      AllReplied(cursors, progress, replies)
    }

    lemma TokensArePositive()
      requires Valid()
      ensures 0 !in cursors
    {
      NothingMoves(cursors, progress, nextToken);
    }

    // One SCAN. `returned` is all the iteration has returned by now, and `steady` the keys
    // that matched and were indexed and live at each of its calls: nothing is returned
    // twice, and by the end of it every steady key has been returned.
    method Scan(ordered: seq<Key>, ghost indexed: set<Key>, cursor: nat, pattern: Option<bytes>, count: Option<nat>,
                data: Keys, now: u64)
      returns (next: nat, values: seq<Key>, ghost returned: seq<Key>, ghost steady: set<Key>)
      requires Valid() && Replied() && Lists(ordered, indexed, Less)
      modifies this
      ensures Valid() && Replied()
      ensures cursor != 0 && cursor !in old(cursors) ==> next == 0 && values == [] && cursors == old(cursors)
      ensures cursor == 0 ==> returned == values && steady == Wanted(indexed, pattern, data, now)
      ensures cursor != 0 && cursor in old(cursors) ==>
        && cursor in old(replies) && returned == old(replies)[cursor].returned + values
        && steady == old(replies)[cursor].steady * Wanted(indexed, pattern, data, now)
      ensures cursor == 0 || cursor in old(cursors) ==>
        && Increasing(returned, Less) && (forall k :: k in values ==> k in Wanted(indexed, pattern, data, now))
        && (next != 0 ==> next in cursors && next in replies && replies[next] == Answered(returned, steady))
        && (next == 0 ==> forall k :: k in steady ==> k in returned)
      ensures |values| <= if count.None? then 10 else if count.value == 0 then 1 else count.value
      ensures |old(cursors)| < MAX_CURSORS ==> Keeps(old(cursors), old(progress), cursors, progress, cursor)
      ensures forall t :: t in old(replies) && t != next ==> t in replies && replies[t] == old(replies)[t]
    {
      hide Answers, Lists, Increasing, After, Wanted, Shown, FirstOf, Stands, Tracks, PatternOf, ScanCursors.Valid;
      hide Keeps, AddsOnly, Batch;
      NothingShown(PatternOf(pattern), data, now);
      FewKeys(count);
      ghost var whole, always;
      var page;
      next, page, whole, always := Page(ordered, indexed, cursor, count);
      values := Filter(page, pattern, data, now);
      ShownAreFew(page, PatternOf(pattern), data, now);
      returned, steady := [], {};
      TokensArePositive();
      OldReplies(old(cursors), old(progress), replies, cursors, progress, next, cursor);
      hide AllReplied;
      if cursor == 0 || cursor in old(cursors) {
        ghost var before := if cursor == 0 then Progress([], indexed) else old(progress)[cursor];
        ghost var earlier := if cursor == 0 then Answered([], indexed) else old(replies)[cursor];
        if cursor == 0 { NothingAnswered(indexed); }
        returned := earlier.returned + values;
        steady := earlier.steady * Wanted(indexed, pattern, data, now);
        WantedAreIndexed(indexed, pattern, data, now);
        AnswersMore(before, earlier, page, pattern, data, now, indexed);
        if next != 0 {
          OneMoreReply(cursors, progress, replies, next, Answered(returned, steady));
          replies := replies[next := Answered(returned, steady)];
        } else {
          AllAnswered(Progress(whole, always), Answered(returned, steady));
        }
      }
    }

    // A client's whole iteration over a keyspace that stands still.
    method Iterate(ordered: seq<Key>, ghost indexed: set<Key>, count: Option<nat>)
      returns (visited: seq<Key>, calls: nat)
      requires Valid() && Lists(ordered, indexed, Less)
      modifies this
      ensures Valid() && visited == ordered && calls == Calls(|ordered|, Batch(count))
    {
      hide Stands, Lists, Increasing, After, FirstOf;
      ghost var n := Batch(count);
      ghost var whole, always;
      var cursor, page;
      cursor, page, whole, always := Page(ordered, indexed, 0, count);
      visited, calls := page, 1;
      Beginning(ordered);
      NextPage(ordered, indexed, [], None, n);
      while cursor != 0
        invariant Valid() && (cursor == 0 ==> visited == ordered && calls == Calls(|ordered|, n))
        invariant cursor != 0 ==>
          && cursor in cursors
          && var rest := After(ordered, Some(cursors[cursor]));
             visited + rest == ordered && calls + Calls(|rest|, n) == Calls(|ordered|, n)
        decreases if cursor == 0 then 0 else 1 + |ordered| - |visited|
      {
        NextPage(ordered, indexed, visited, Some(cursors[cursor]), n);
        cursor, page, whole, always := Page(ordered, indexed, cursor, count);
        visited, calls := visited + page, calls + 1;
      }
    }
  }

  // Pages of n keys for a listing, and one call even if there is nothing to visit.
  function Calls(keys: nat, n: nat): nat
    requires n > 0
  {
    if keys <= n then 1 else 1 + Calls(keys - n, n)
  }

  // That is the number of keys divided by n, rounded up.
  lemma {:induction false} CallsAreKeysByBatch(keys: nat, n: nat)
    requires n > 0
    ensures keys == 0 ==> Calls(keys, n) == 1
    ensures keys > 0 ==> n * (Calls(keys, n) - 1) < keys <= n * Calls(keys, n)
    decreases keys
  {
    if keys > n {
      CallsAreKeysByBatch(keys - n, n);
      var c := Calls(keys - n, n);
      assert n * (c + 1) == n * c + n && n * c == n * (c - 1) + n;
    }
  }

  lemma NextPage(ordered: seq<Key>, indexed: set<Key>, visited: seq<Key>, last: Option<Key>, n: nat)
    requires Lists(ordered, indexed, Less) && visited + After(ordered, last) == ordered && n > 0
    ensures var rest := After(ordered, last);
      var page := FirstOf(rest, n);
      if |rest| <= n then visited + page == ordered && Calls(|rest|, n) == 1
      else
        && page != [] && visited + page + After(ordered, Some(page[|page| - 1])) == ordered
        && Calls(|rest|, n) == 1 + Calls(|After(ordered, Some(page[|page| - 1]))|, n)
  {
    hide After, Lists;
    var rest := After(ordered, last);
    if |rest| > n {
      StaticScanEnds(ordered, indexed, last, n);
      assert rest[..n] + rest[n..] == rest;
      assert visited + rest[..n] + rest[n..] == visited + (rest[..n] + rest[n..]);
    }
  }

  lemma Beginning(ordered: seq<Key>)
    ensures After(ordered, None) == ordered && [] + ordered == ordered && forall page: seq<Key> :: [] + page == page
  {
  }

  function FirstOf(rest: seq<Key>, n: nat): seq<Key> {
    if |rest| > n then rest[..n] else rest
  }

  // All cursors but one are still there, and their iterations where they were.
  ghost predicate Keeps(before: map<nat, Key>, was: map<nat, Progress>, after: map<nat, Key>, later: map<nat, Progress>,
                        gone: nat)
  {
    forall t :: t in before && t != gone ==>
      t in after && after[t] == before[t] && t in was && t in later && later[t] == was[t]
  }

  // At most one cursor is new.
  ghost predicate AddsOnly(before: map<nat, Key>, was: map<nat, Progress>, after: map<nat, Key>,
                           later: map<nat, Progress>, added: nat)
  {
    forall t :: t in after && t != added ==> t in before && t in was && t in later && later[t] == was[t]
  }

  lemma NothingMoves(cursors: map<nat, Key>, progress: map<nat, Progress>, nextToken: nat)
    requires Tracks(cursors, progress, nextToken)
    ensures Keeps(cursors, progress, cursors, progress, 0) && AddsOnly(cursors, progress, cursors, progress, 0)
    ensures 0 !in cursors && forall cursor :: Keeps(cursors, progress, cursors, progress, cursor)
  {
  }

  lemma Withdraws(cursors: map<nat, Key>, progress: map<nat, Progress>, nextToken: nat, cursor: nat)
    requires Tracks(cursors, progress, nextToken) && cursor in cursors
    ensures cursor in progress && Stands(cursors[cursor], progress[cursor].visited, progress[cursor].always)
    ensures Tracks(cursors - {cursor}, progress, nextToken)
    ensures Keeps(cursors, progress, cursors - {cursor}, progress, cursor)
    ensures AddsOnly(cursors, progress, cursors - {cursor}, progress, 0) && 0 !in cursors
  {
    hide Stands;
  }

  lemma Issued(before: map<nat, Key>, held: map<nat, Key>, was: map<nat, Progress>, token: nat, at: Key, p: Progress)
    requires Tracks(before, was, token) && token >= 1 && Stands(at, p.visited, p.always)
    requires forall t :: t in held ==> t in before && held[t] == before[t]
    ensures var after, later := held[token := at], was[token := p];
      && token !in before && Tracks(after, later, token + 1) && AddsOnly(before, was, after, later, token)
      && (held == before ==> Keeps(before, was, after, later, 0))
  {
    hide Stands;
  }

  lemma KeepsOn(before: map<nat, Key>, held: map<nat, Key>, after: map<nat, Key>, was: map<nat, Progress>,
                later: map<nat, Progress>, cursor: nat, next: nat)
    requires Keeps(before, was, held, was, cursor) && AddsOnly(before, was, held, was, 0)
    requires 0 !in before && 0 !in held && AddsOnly(held, was, after, later, next)
    ensures Keeps(held, was, after, later, 0) ==> Keeps(before, was, after, later, cursor)
    ensures AddsOnly(before, was, after, later, next)
  {
  }

  // What an iteration has visited, and the keys indexed at each of its calls.
  datatype Progress = Progress(visited: seq<Key>, always: set<Key>)

  ghost predicate Tracks(cursors: map<nat, Key>, progress: map<nat, Progress>, nextToken: nat) {
    forall t :: t in cursors ==>
      1 <= t < nextToken && t in progress && Stands(cursors[t], progress[t].visited, progress[t].always)
  }

  lemma StandsForFewer(at: Key, visited: seq<Key>, always: set<Key>, fewer: set<Key>)
    requires Stands(at, visited, always) && fewer <= always
    ensures Stands(at, visited, fewer)
  {
  }

  // The cursor is the last key visited, and of the keys that were always there it has
  // passed exactly the visited ones.
  ghost predicate Stands(at: Key, visited: seq<Key>, always: set<Key>) {
    && Increasing(visited, Less)
    && visited != [] && visited[|visited| - 1] == at
    && forall k :: k in always ==> k in visited || Less(at, k)
  }

  lemma RemovedIsSmaller<K, V>(m: map<K, V>, k: K)
    requires k in m
    ensures |m - {k}| == |m| - 1
  {
    assert m.Keys == (m - {k}).Keys + {k};
  }

  lemma AddedIsLarger<K, V>(m: map<K, V>, k: K, v: V)
    requires k !in m
    ensures |m[k := v]| == |m| + 1
  {
    assert m[k := v].Keys == m.Keys + {k};
  }

  // Appending the next n keys to what was visited.
  lemma Continues(whole: seq<Key>, always: set<Key>, last: Option<Key>, rest: seq<Key>, n: nat, indexed: set<Key>)
    requires if last.None? then whole == [] else Stands(last.value, whole, always)
    requires always <= indexed && Increasing(rest, Less) && n <= |rest|
    requires forall k :: k in rest <==> k in indexed && (last.None? || Less(last.value, k))
    ensures Increasing(whole + rest[..n], Less)
    ensures n > 0 ==> Stands(rest[n - 1], whole + rest[..n], always)
    ensures n == |rest| ==> forall k :: k in always ==> k in whole + rest[..n]
  {
    LessIsStrictOrder();
    hide Less, StrictOrder;
    PrefixIncreases(rest, n);
    if last.Some? {
      assert forall k :: k in rest[..n] ==> Less(last.value, k);
      Appends(whole, last.value, rest[..n]);
    } else {
      assert whole + rest[..n] == rest[..n];
    }
    hide Increasing;
    if n > 0 { Passes(whole, always, last, rest, n, indexed); }
    if n == |rest| { ReachesAll(whole, always, last, rest, indexed); }
  }

  lemma PrefixIncreases(rest: seq<Key>, n: nat)
    requires Increasing(rest, Less) && n <= |rest|
    ensures Increasing(rest[..n], Less) && forall k :: k in rest[..n] ==> k in rest
  {
  }

  lemma ReachesAll(whole: seq<Key>, always: set<Key>, last: Option<Key>, rest: seq<Key>, indexed: set<Key>)
    requires if last.None? then whole == [] else Stands(last.value, whole, always)
    requires always <= indexed && forall k :: k in rest <==> k in indexed && (last.None? || Less(last.value, k))
    ensures forall k :: k in always ==> k in whole + rest[..|rest|]
  {
    hide Less, Increasing;
    assert rest[..|rest|] == rest;
  }

  lemma Appends(whole: seq<Key>, at: Key, more: seq<Key>)
    requires StrictOrder(Less) && Increasing(whole, Less) && Increasing(more, Less)
    requires whole != [] && whole[|whole| - 1] == at && forall k :: k in more ==> Less(at, k)
    ensures Increasing(whole + more, Less)
  {
    hide Less;
    forall i, j | 0 <= i < |whole| && 0 <= j < |more| ensures Less(whole[i], more[j]) {
      assert more[j] in more;
      assert whole[i] == at || Less(whole[i], at);
    }
  }

  lemma Passes(whole: seq<Key>, always: set<Key>, last: Option<Key>, rest: seq<Key>, n: nat, indexed: set<Key>)
    requires if last.None? then whole == [] else Stands(last.value, whole, always)
    requires always <= indexed && Increasing(rest, Less) && 0 < n <= |rest|
    requires forall k :: k in rest <==> k in indexed && (last.None? || Less(last.value, k))
    ensures forall k :: k in always ==> k in whole + rest[..n] || Less(rest[n - 1], k)
  {
    hide Less;
    forall k | k in always && k !in whole ensures k in rest[..n] || Less(rest[n - 1], k) {
      assert k in rest;
      var p :| 0 <= p < |rest| && rest[p] == k;
      if p < n { assert rest[..n][p] == k; }
    }
  }

  lemma RestAfter(rest: seq<Key>, n: nat, k: Key)
    requires StrictOrder(Less) && Increasing(rest, Less) && 0 < n <= |rest|
    ensures k in rest[n..] <==> k in rest && Less(rest[n - 1], k)
  {
    hide Less;
    if k in rest[n..] {
      var p :| 0 <= p < |rest| - n && rest[n..][p] == k;
      assert rest[p + n] == k && Less(rest[n - 1], rest[p + n]);
    }
    if k in rest && Less(rest[n - 1], k) {
      var p :| 0 <= p < |rest| && rest[p] == k;
      assert forall q :: 0 <= q < n - 1 ==> Less(rest[q], rest[n - 1]);
      assert rest[n..][p - n] == k;
    }
  }

  // On a keyspace that stands still every page but the last shortens what is left.
  lemma StaticScanEnds(ordered: seq<Key>, indexed: set<Key>, last: Option<Key>, n: nat)
    requires Lists(ordered, indexed, Less) && 0 < n <= |After(ordered, last)|
    ensures var rest := After(ordered, last);
      After(ordered, Some(rest[n - 1])) == rest[n..]
  {
    LessIsStrictOrder();
    hide Less, After;
    var rest := After(ordered, last);
    var at := rest[n - 1];
    AfterIsTheRest(ordered, indexed, last);
    AfterIsTheRest(ordered, indexed, Some(at));
    assert at in rest;
    var left := set k | k in indexed && Less(at, k);
    forall k ensures k in rest[n..] <==> k in left {
      RestAfter(rest, n, k);
    }
    ListingIsUnique(After(ordered, Some(at)), rest[n..], left, Less);
  }

  // ── The reply ───────────────────────────────────────────────────────────────

  ghost function Shown(page: seq<Key>, pattern: bytes, data: Keys, now: u64): seq<Key> {
    if page == [] then []
    else
      var n := |page| - 1;
      Shown(page[..n], pattern, data, now) +
      if Glob.ShadowedMatches(pattern, page[n]) && IsLive(data, page[n], now) then [page[n]] else []
  }

  lemma FewKeys(count: Option<nat>)
    ensures Batch(count) == if count.None? then 10 else if count.value == 0 then 1 else count.value
    ensures forall rest: seq<Key>, n: nat :: |FirstOf(rest, n)| <= n
  {
  }

  lemma {:induction false} ShownAreFew(page: seq<Key>, pattern: bytes, data: Keys, now: u64)
    ensures |Shown(page, pattern, data, now)| <= |page|
    decreases |page|
  {
    if page != [] { ShownAreFew(page[..|page| - 1], pattern, data, now); }
  }

  lemma NothingShown(pattern: bytes, data: Keys, now: u64)
    ensures Shown([], pattern, data, now) == []
  {
  }

  // The keys of a page that match and are live.
  method Filter(page: seq<Key>, pattern: Option<bytes>, data: Keys, now: u64) returns (values: seq<Key>)
    ensures values == Shown(page, PatternOf(pattern), data, now)
  {
    var p := PatternOf(pattern);
    values := [];
    for i := 0 to |page|
      invariant values == Shown(page[..i], p, data, now)
    {
      assert page[..i + 1][..i] == page[..i];
      var matches, steps := Glob.GlobMatch(p, page[i]);
      if matches && IsLive(data, page[i], now) {
        values := values + [page[i]];
      }
    }
    assert page[..|page|] == page;
  }

  // Each key of an iteration's pages is shown once if it matches and is live when its
  // page is served, and not at all otherwise.
  lemma {:induction false} ShownOnce(page: seq<Key>, pattern: bytes, data: Keys, now: u64)
    requires Increasing(page, Less)
    ensures Increasing(Shown(page, pattern, data, now), Less)
    ensures forall k :: k in Shown(page, pattern, data, now) <==>
      k in page && Glob.ShadowedMatches(pattern, k) && IsLive(data, k, now)
    decreases |page|
  {
    hide Glob.ShadowedMatches, IsLive, Less;
    if page != [] {
      var n := |page| - 1;
      ShownOnce(page[..n], pattern, data, now);
      assert page == page[..n] + [page[n]];
      AppendGreater(Shown(page[..n], pattern, data, now), page, n);
    }
  }

  lemma AppendGreater(shown: seq<Key>, page: seq<Key>, n: nat)
    requires Increasing(page, Less) && n < |page| && Increasing(shown, Less)
    requires forall k :: k in shown ==> k in page[..n]
    ensures Increasing(shown + [page[n]], Less)
  {
    hide Less;
    forall i | 0 <= i < |shown| ensures Less(shown[i], page[n]) {
      assert shown[i] in page[..n];
    }
  }

  function PatternOf(pattern: Option<bytes>): bytes {
    if pattern.None? then [Glob.STAR] else pattern.value
  }

  // The keys a call should show if it comes to them.
  ghost function Wanted(indexed: set<Key>, pattern: Option<bytes>, data: Keys, now: u64): set<Key> {
    set k | k in indexed && Glob.ShadowedMatches(PatternOf(pattern), k) && IsLive(data, k, now)
  }

  // What an iteration has returned, and the keys it wanted at each of its calls.
  datatype Answered = Answered(returned: seq<Key>, steady: set<Key>)

  // Of the visited keys those are returned that were wanted throughout, and no key twice.
  ghost predicate Answers(p: Progress, r: Answered) {
    && Increasing(r.returned, Less) && (forall k :: k in r.returned ==> k in p.visited)
    && r.steady <= p.always && forall k :: k in r.steady && k in p.visited ==> k in r.returned
  }

  ghost predicate AllReplied(cursors: map<nat, Key>, progress: map<nat, Progress>, replies: map<nat, Answered>) {
    forall t :: t in cursors ==> t in progress && t in replies && Answers(progress[t], replies[t])
  }

  lemma OldReplies(before: map<nat, Key>, was: map<nat, Progress>, replies: map<nat, Answered>, after: map<nat, Key>,
                   later: map<nat, Progress>, next: nat, cursor: nat)
    requires AllReplied(before, was, replies) && AddsOnly(before, was, after, later, next)
    ensures AllReplied(after - {next}, later, replies)
    ensures next !in after ==> AllReplied(after, later, replies)
    ensures cursor in before ==> cursor in was && cursor in replies && Answers(was[cursor], replies[cursor])
  {
    hide Answers;
  }

  lemma OneMoreReply(after: map<nat, Key>, later: map<nat, Progress>, replies: map<nat, Answered>, next: nat, r: Answered)
    requires AllReplied(after - {next}, later, replies) && next in later && Answers(later[next], r)
    ensures AllReplied(after, later, replies[next := r])
  {
    hide Answers;
  }

  lemma NothingAnswered(indexed: set<Key>)
    ensures Answers(Progress([], indexed), Answered([], indexed))
    ensures forall s: seq<Key> :: [] + s == s
    ensures indexed * indexed == indexed
  {
  }

  lemma WantedAreIndexed(indexed: set<Key>, pattern: Option<bytes>, data: Keys, now: u64)
    ensures indexed * Wanted(indexed, pattern, data, now) == Wanted(indexed, pattern, data, now)
  {
  }

  // One page more.
  lemma AnswersMore(p: Progress, r: Answered, page: seq<Key>, pattern: Option<bytes>, data: Keys, now: u64,
                    indexed: set<Key>)
    requires Answers(p, r) && Increasing(p.visited + page, Less) && forall k :: k in page ==> k in indexed
    ensures var values, wanted := Shown(page, PatternOf(pattern), data, now), Wanted(indexed, pattern, data, now);
      && Increasing(r.returned + values, Less)
      && Answers(Progress(p.visited + page, p.always * indexed), Answered(r.returned + values, r.steady * wanted))
      && forall k :: k in values ==> k in wanted
  {
    hide Less, IsLive, Glob.ShadowedMatches, PatternOf, Increasing, Shown;
    PagesIncrease(p.visited, page);
    ShownOnce(page, PatternOf(pattern), data, now);
    ReturnedIncrease(p.visited, page, r.returned, Shown(page, PatternOf(pattern), data, now));
  }

  lemma PagesIncrease(visited: seq<Key>, page: seq<Key>)
    requires Increasing(visited + page, Less)
    ensures Increasing(page, Less)
  {
    hide Less;
    var whole := visited + page;
    forall i, j | 0 <= i < j < |page| ensures Less(page[i], page[j]) {
      assert whole[|visited| + i] == page[i] && whole[|visited| + j] == page[j];
    }
  }

  lemma ReturnedIncrease(visited: seq<Key>, page: seq<Key>, returned: seq<Key>, values: seq<Key>)
    requires Increasing(visited + page, Less) && Increasing(returned, Less) && Increasing(values, Less)
    requires (forall k :: k in returned ==> k in visited) && forall k :: k in values ==> k in page
    ensures Increasing(returned + values, Less)
  {
    hide Less;
    var whole := visited + page;
    forall i, j | 0 <= i < |returned| && 0 <= j < |values| ensures Less(returned[i], values[j]) {
      assert returned[i] in visited && values[j] in page;
      var a :| 0 <= a < |visited| && visited[a] == returned[i];
      var b :| 0 <= b < |page| && page[b] == values[j];
      assert whole[a] == visited[a] && whole[|visited| + b] == page[b];
    }
  }

  // An iteration that has visited all keys that were always there returned all it wanted.
  lemma AllAnswered(p: Progress, r: Answered)
    requires Answers(p, r) && forall k :: k in p.always ==> k in p.visited
    ensures forall k :: k in r.steady ==> k in r.returned
  {
  }

  // Without MATCH the pattern is a lone star, so an iteration leaves out the live keys
  // of two bytes and more that begin with a star byte, and no others.
  lemma PlainScanShowsIff(page: seq<Key>, data: Keys, now: u64, k: Key)
    requires Increasing(page, Less)
    ensures k in Shown(page, [Glob.STAR], data, now) <==>
      k in page && IsLive(data, k, now) && !(|k| > 1 && k[0] == Glob.STAR)
  {
    ShownOnce(page, [Glob.STAR], data, now);
    Glob.LoneStarMatchesIff(k);
  }
}
