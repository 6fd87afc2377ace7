/**
 The watch hub: who is told about a change, by exact key (WATCH) or by a live query's
 pattern (QSUB), with the numbers of watched names mirrored beside the registries so
 that a write can skip them when nothing is watched.
 */
module Watch {
  import opened Bytes
  import opened Delivery
  import opened Mail
  import opened Registry
  import Glob
  import Resp

  datatype Change = Change(key: bytes, value: Resp.Value)

  // What a value costs.
  function HeapBytes(v: Resp.Value): nat
    decreases v
  {
    match v
    case SimpleString(text) => |text|
    case Error(text) => |text|
    case Integer(_) => 8
    case NullBulk => 0
    case BulkString(data) => |data|
    case NullArray => 0
    case Array(items) => HeapBytesOfAll(items)
    case Push(items) => HeapBytesOfAll(items)
    case Map(pairs) => HeapBytesOfPairs(pairs)
  }

  function HeapBytesOfAll(items: seq<Resp.Value>): nat
    decreases items
  {
    if items == [] then 0 else HeapBytes(items[0]) + HeapBytesOfAll(items[1..])
  }

  function HeapBytesOfPairs(pairs: seq<Resp.Pair>): nat
    decreases pairs
  {
    if pairs == [] then 0 else HeapBytesOfPair(pairs[0]) + HeapBytesOfPairs(pairs[1..])
  }

  function HeapBytesOfPair(pair: Resp.Pair): nat
    decreases pair
  {
    SaturatingAdd(HeapBytes(pair.key), HeapBytes(pair.val))
  }

  function Notice(sub: Subscriber, change: Change, overhead: nat): Letter {
    Letter(sub.tx, KeyChange(change.key, change.value),
           SaturatingAdd(SaturatingAdd(|change.key|, HeapBytes(change.value)), overhead))
  }

  function Notices(subs: seq<Subscriber>, change: Change, overhead: nat): (letters: seq<Letter>)
    ensures |letters| == |subs|
  {
    seq(|subs|, i requires 0 <= i < |subs| => Notice(subs[i], change, overhead))
  }

  // Everything a fan-out is given from outside.
  datatype Context = Context(start: Boxes, overhead: nat, others: nat -> seq<Happening>)

  // How far a fan-out got: the registry, and the letters posted so far.
  datatype Round = Round(lists: Lists, letters: seq<Letter>)

  ghost predicate Fine(r: Round, x: Context) {
    ListsHaveBoxes(r.lists, x.start) && Known(x.start, r.letters)
  }

  function Posts(r: Round, x: Context): Postings
    requires Known(x.start, r.letters)
  {
    Delivered(x.start, r.letters, x.others, 0)
  }

  // Tells one list of one change and keeps those that accepted.
  ghost function Told(r: Round, name: bytes, change: Change, x: Context): (after: Round)
    requires Fine(r, x)
    ensures Fine(after, x) && after.lists.Keys == r.lists.Keys
  {
    if name !in r.lists then r
    else
      var subs := r.lists[name];
      var all := r.letters + Notices(subs, change, x.overhead);
      var oks := Delivered(x.start, all, x.others, 0).oks[|r.letters|..];
      KeptIsSome(subs, oks);
      assert forall s :: s in subs ==> s.tx in x.start;
      Round(r.lists[name := Kept(subs, oks)], all)
  }

  ghost function ToldKey(r: Round, change: Change, x: Context): (after: Round)
    requires Fine(r, x)
    ensures Fine(after, x)
  {
    var told := Told(r, change.key, change, x);
    if HasEmpty(told.lists, change.key) then told.(lists := told.lists - {change.key}) else told
  }

  ghost function ToldKeys(r: Round, changes: seq<Change>, x: Context): (after: Round)
    requires Fine(r, x)
    ensures Fine(after, x)
  {
    if changes == [] then r
    else ToldKey(ToldKeys(r, changes[..|changes| - 1], x), changes[|changes| - 1], x)
  }

  ghost function ToldPattern(r: Round, pattern: bytes, changes: seq<Change>, x: Context): (after: Round)
    requires Fine(r, x)
    ensures Fine(after, x) && after.lists.Keys == r.lists.Keys
  {
    if changes == [] then r
    else
      var n := |changes| - 1;
      var before := ToldPattern(r, pattern, changes[..n], x);
      if Glob.ShadowedMatches(pattern, changes[n].key) then Told(before, pattern, changes[n], x) else before
  }

  ghost function ToldPatterns(r: Round, patterns: seq<bytes>, changes: seq<Change>, x: Context): (after: Round)
    requires Fine(r, x)
    ensures Fine(after, x) && after.lists.Keys == r.lists.Keys
  {
    if patterns == [] then r
    else ToldPattern(ToldPatterns(r, patterns[..|patterns| - 1], changes, x), patterns[|patterns| - 1], changes, x)
  }

  function NonEmpty(lists: Lists): Lists {
    map name | name in lists && lists[name] != [] :: lists[name]
  }

  // FLUSHDB tells each watched key it is gone, and drops no name.
  ghost function ToldFlushed(r: Round, names: seq<bytes>, x: Context): (after: Round)
    requires Fine(r, x)
    ensures Fine(after, x) && after.lists.Keys == r.lists.Keys
  {
    if names == [] then r
    else
      var n := |names| - 1;
      Told(ToldFlushed(r, names[..n], x), names[n], Change(names[n], Resp.NullBulk), x)
  }

  // A set in the order a loop happened to visit it.
  ghost predicate Visits(order: seq<bytes>, names: set<bytes>) {
    && (forall i, j :: 0 <= i < j < |order| ==> order[i] != order[j])
    && forall name :: name in order <==> name in names
  }

  // A connection's own record covers all its registrations.
  ghost predicate Covers(lists: Lists, conn: nat, mine: set<bytes>) {
    forall name, i :: name in lists && 0 <= i < |lists[name]| && lists[name][i].conn == conn ==> name in mine
  }

  class WatchHub {
    var watchers: Lists
    var watchedKeys: nat
    var queries: Lists
    var watchedPatterns: nat
    const post: Post
    const overhead: nat

    // The mirrored numbers are exact, and every sender has a mailbox within its bounds.
    ghost predicate Valid()
      reads this, post
    {
      && watchedKeys == |watchers| && watchedPatterns == |queries|
      && ListsHaveBoxes(watchers, post.boxes) && ListsHaveBoxes(queries, post.boxes) && AllValid(post.boxes)
    }

    constructor (post: Post, overhead: nat)
      requires AllValid(post.boxes)
      ensures Valid() && watchers == map[] && queries == map[]
      ensures this.post == post && this.overhead == overhead
    {
      watchers, watchedKeys, queries, watchedPatterns := map[], 0, map[], 0;
      this.post, this.overhead := post, overhead;
    }

    method Tell(lists: Lists, name: bytes, change: Change, ghost r: Round, ghost x: Context,
                others: nat -> seq<Happening>, sent: nat) returns (left: Lists, posted: nat)
      requires Fine(r, x) && r.lists == lists && sent == |r.letters| && x.others == others && x.overhead == overhead
      requires post.boxes == Posts(r, x).boxes && AllValid(post.boxes)
      modifies post
      ensures var after := Told(r, name, change, x);
        left == after.lists && post.boxes == Posts(after, x).boxes && posted == |after.letters|
      ensures AllValid(post.boxes)
    {
      left, posted := lists, sent;
      if name !in lists {
        return;
      }
      hide AllValid, Delivered;
      var subs := lists[name];
      ghost var oks := Posts(r, x).oks;
      var count, now := post.SendAll(Notices(subs, change, overhead), others, sent, x.start, r.letters, oks);
      assert (oks + now)[|oks|..] == now;
      left, posted := lists[name := Kept(subs, now)], sent + |subs|;
    }

    // Exact-key watchers of some changes; a key nobody is left on goes.
    method TellKeys(changes: seq<Change>, ghost x: Context, others: nat -> seq<Happening>)
      returns (posted: nat, ghost r: Round)
      requires Valid() && x == Context(post.boxes, overhead, others)
      modifies this`watchers, this`watchedKeys, post
      ensures Fine(Round(old(watchers), []), x) && r == ToldKeys(Round(old(watchers), []), changes, x)
      ensures watchers == r.lists && posted == |r.letters| && watchedKeys == |watchers|
      ensures post.boxes == Posts(r, x).boxes && AllValid(post.boxes)
    {
      hide AllValid, Delivered, Told;
      DeliveredNothing(x.start, others);
      r, posted := Round(watchers, []), 0;
      ghost var start := r;
      if watchedKeys > 0 {
        for i := 0 to |changes|
          invariant watchers == r.lists && posted == |r.letters| && Fine(r, x) && Fine(start, x)
          invariant r == ToldKeys(start, changes[..i], x)
          invariant post.boxes == Posts(r, x).boxes && AllValid(post.boxes)
        {
          assert changes[..i + 1][..i] == changes[..i];
          var key := changes[i].key;
          watchers, posted := Tell(watchers, key, changes[i], r, x, others, posted);
          if key in watchers && watchers[key] == [] {
            watchers := watchers - {key};
          }
          r := ToldKey(r, changes[i], x);
        }
        assert changes[..|changes|] == changes;
        watchedKeys := |watchers|;
      } else {
        NobodyToTell(start, changes, x);
      }
    }

    method TellPattern(pattern: bytes, changes: seq<Change>, ghost r: Round, ghost x: Context,
                       others: nat -> seq<Happening>, sent: nat) returns (posted: nat)
      requires Fine(r, x) && r.lists == queries && sent == |r.letters| && x.others == others && x.overhead == overhead
      requires post.boxes == Posts(r, x).boxes && AllValid(post.boxes)
      modifies this`queries, post
      ensures var after := ToldPattern(r, pattern, changes, x);
        queries == after.lists && post.boxes == Posts(after, x).boxes && posted == |after.letters|
      ensures AllValid(post.boxes)
    {
      hide AllValid, Delivered, Told;
      posted := sent;
      ghost var now := r;
      for i := 0 to |changes|
        invariant Fine(now, x) && now == ToldPattern(r, pattern, changes[..i], x)
        invariant queries == now.lists && posted == |now.letters|
        invariant post.boxes == Posts(now, x).boxes && AllValid(post.boxes)
      {
        assert changes[..i + 1][..i] == changes[..i];
        var matched, _ := Glob.GlobMatch(pattern, changes[i].key);
        if matched {
          queries, posted := Tell(queries, pattern, changes[i], now, x, others, posted);
          now := Told(now, pattern, changes[i], x);
        }
      }
      assert changes[..|changes|] == changes;
    }

    // Live queries, in any order; afterwards the patterns nobody is left on go.
    method TellQueries(changes: seq<Change>, ghost start: Round, ghost x: Context, others: nat -> seq<Happening>,
                       sent: nat) returns (ghost r: Round, ghost order: seq<bytes>)
      requires Fine(start, x) && start.lists == queries && sent == |start.letters|
      requires x.others == others && x.overhead == overhead && watchedPatterns == |queries|
      requires post.boxes == Posts(start, x).boxes && AllValid(post.boxes)
      modifies this`queries, this`watchedPatterns, post
      ensures Visits(order, old(queries).Keys) && r == ToldPatterns(start, order, changes, x)
      ensures queries == NonEmpty(r.lists) && watchedPatterns == |queries|
      ensures post.boxes == Posts(r, x).boxes && AllValid(post.boxes)
    {
      hide AllValid, Delivered, Told, ToldPattern;
      r, order := start, [];
      if watchedPatterns == 0 {
        assert queries == map[];
        return;
      }
      VisitsNone(queries.Keys);
      hide Visits, NonEmpty, Known, ListsHaveBoxes, Posts, ToldPatterns;
      var todo, posted := queries.Keys, sent;
      while todo != {}
        invariant Fine(r, x) && r == ToldPatterns(start, order, changes, x)
        invariant queries == r.lists && posted == |r.letters|
        invariant Visits(order, old(queries).Keys - todo) && todo <= old(queries).Keys
        invariant post.boxes == Posts(r, x).boxes && AllValid(post.boxes)
        decreases todo
      {
        var pattern :| pattern in todo;
        posted := TellPattern(pattern, changes, r, x, others, posted);
        r := ToldPattern(r, pattern, changes, x);
        NextPattern(start, order, pattern, changes, x);
        VisitsMore(order, old(queries).Keys, todo, pattern);
        order := order + [pattern];
        todo := todo - {pattern};
      }
      assert old(queries).Keys - {} == old(queries).Keys;
      queries := NonEmpty(queries);
      watchedPatterns := |queries|;
    }

    // One batch of changes: exact-key watchers first, then the live queries.
    method FanOut(changes: seq<Change>, others: nat -> seq<Happening>)
      returns (ghost byKey: Round, ghost told: Round, ghost order: seq<bytes>)
      requires Valid()
      modifies this, post
      ensures Valid() && NobodyMissing(queries) && (NobodyMissing(old(watchers)) ==> NobodyMissing(watchers))
      ensures var x := Context(old(post.boxes), overhead, others);
        && Fine(Round(old(watchers), []), x) && byKey == ToldKeys(Round(old(watchers), []), changes, x)
        && Fine(Round(old(queries), byKey.letters), x) && Visits(order, old(queries).Keys)
        && told == ToldPatterns(Round(old(queries), byKey.letters), order, changes, x)
        && watchers == byKey.lists && queries == NonEmpty(told.lists) && post.boxes == Posts(told, x).boxes
    {
      hide AllValid, Delivered, ToldPatterns, ToldKeys, NobodyMissing, ListsHaveBoxes, NonEmpty, Known, Visits, Posts;
      ghost var x := Context(post.boxes, overhead, others);
      var posted;
      posted, byKey := TellKeys(changes, x, others);
      if NobodyMissing(old(watchers)) { KeysKeepNobodyMissing(Round(old(watchers), []), changes, x); }
      SamePosts(byKey, queries, x);
      told, order := TellQueries(changes, Round(queries, byKey.letters), x, others, posted);
      RoundHasBoxes(byKey.lists, told, x);
    }

    // FLUSHDB: each watched key is told individually, and keeps its list even if nobody
    // is left on it.
    method TellFlushed(names: seq<bytes>, ghost x: Context, others: nat -> seq<Happening>)
      returns (posted: nat, ghost r: Round)
      requires Valid() && x == Context(post.boxes, overhead, others)
      modifies this`watchers, this`watchedKeys, post
      ensures Fine(Round(old(watchers), []), x) && r == ToldFlushed(Round(old(watchers), []), names, x)
      ensures watchers == r.lists && posted == |r.letters| && watchedKeys == |watchers|
      ensures post.boxes == Posts(r, x).boxes && AllValid(post.boxes)
    {
      hide AllValid, Delivered, Told;
      DeliveredNothing(x.start, others);
      r, posted := Round(watchers, []), 0;
      ghost var start := r;
      if watchedKeys > 0 && names != [] {
        for i := 0 to |names|
          invariant watchers == r.lists && posted == |r.letters| && Fine(r, x) && Fine(start, x)
          invariant r == ToldFlushed(start, names[..i], x)
          invariant post.boxes == Posts(r, x).boxes && AllValid(post.boxes)
        {
          assert names[..i + 1][..i] == names[..i];
          var change := Change(names[i], Resp.NullBulk);
          watchers, posted := Tell(watchers, names[i], change, r, x, others, posted);
          r := Told(r, names[i], change, x);
        }
        assert names[..|names|] == names;
        watchedKeys := |watchers|;
      } else {
        NobodyToFlush(start, names, x);
      }
    }

    // And each live query once, with its own pattern for a key.
    method TellSentinels(ghost start: Round, ghost x: Context, others: nat -> seq<Happening>, sent: nat)
      returns (ghost r: Round, ghost order: seq<bytes>)
      requires Fine(start, x) && start.lists == queries && sent == |start.letters|
      requires x.others == others && x.overhead == overhead && watchedPatterns == |queries|
      requires post.boxes == Posts(start, x).boxes && AllValid(post.boxes)
      modifies this`queries, this`watchedPatterns, post
      ensures Visits(order, old(queries).Keys) && r == ToldFlushed(start, order, x)
      ensures queries == NonEmpty(r.lists) && watchedPatterns == |queries|
      ensures post.boxes == Posts(r, x).boxes && AllValid(post.boxes)
    {
      hide AllValid, Delivered, Told;
      r, order := start, [];
      if watchedPatterns == 0 {
        assert queries == map[];
        return;
      }
      VisitsNone(queries.Keys);
      hide Visits, NonEmpty, Known, ListsHaveBoxes, Posts, ToldFlushed;
      var todo, posted := queries.Keys, sent;
      while todo != {}
        invariant Fine(r, x) && r == ToldFlushed(start, order, x)
        invariant queries == r.lists && posted == |r.letters|
        invariant Visits(order, old(queries).Keys - todo) && todo <= old(queries).Keys
        invariant post.boxes == Posts(r, x).boxes && AllValid(post.boxes)
        decreases todo
      {
        var pattern :| pattern in todo;
        var change := Change(pattern, Resp.NullBulk);
        queries, posted := Tell(queries, pattern, change, r, x, others, posted);
        r := Told(r, pattern, change, x);
        NextFlushed(start, order, pattern, x);
        VisitsMore(order, old(queries).Keys, todo, pattern);
        order := order + [pattern];
        todo := todo - {pattern};
      }
      assert old(queries).Keys - {} == old(queries).Keys;
      queries := NonEmpty(queries);
      watchedPatterns := |queries|;
    }

    method NotifyFlushdb(watchedBefore: seq<bytes>, others: nat -> seq<Happening>)
      returns (ghost byKey: Round, ghost told: Round, ghost order: seq<bytes>)
      requires Valid()
      modifies this, post
      ensures Valid() && NobodyMissing(queries)
      ensures var x := Context(old(post.boxes), overhead, others);
        && Fine(Round(old(watchers), []), x) && byKey == ToldFlushed(Round(old(watchers), []), watchedBefore, x)
        && Fine(Round(old(queries), byKey.letters), x) && Visits(order, old(queries).Keys)
        && told == ToldFlushed(Round(old(queries), byKey.letters), order, x)
        && watchers == byKey.lists && queries == NonEmpty(told.lists) && post.boxes == Posts(told, x).boxes
    {
      hide AllValid, Delivered, ToldFlushed, NobodyMissing, ListsHaveBoxes, NonEmpty, Known, Visits, Posts;
      ghost var x := Context(post.boxes, overhead, others);
      var posted;
      posted, byKey := TellFlushed(watchedBefore, x, others);
      SamePosts(byKey, queries, x);
      told, order := TellSentinels(Round(queries, byKey.letters), x, others, posted);
      RoundHasBoxes(byKey.lists, told, x);
    }

    // WATCH, refused as a whole when it could take the connection over its limit.
    method Watch(conn: nat, tx: Tx, keys: seq<bytes>, mine: set<bytes>, max: nat)
      returns (ok: bool, now: set<bytes>)
      requires Valid() && tx in post.boxes
      modifies this`watchers, this`watchedKeys
      ensures Valid()
      ensures ok <==> |mine| + CountNot(keys, mine) <= max
      ensures !ok ==> watchers == old(watchers) && now == mine
      ensures ok ==> now == mine + Names(keys) && Joined(old(watchers), watchers, Names(keys) - mine, Subscriber(conn, tx))
    {
      hide AllValid, ListOf, Joined, Names, ListsHaveBoxes;
      ok, now := |mine| + CountNot(keys, mine) <= max, mine;
      if !ok {
        return;
      }
      var sub := Subscriber(conn, tx);
      JoinedNobody(watchers, sub);
      NamesNone(keys);
      assert now - mine == {};
      for i := 0 to |keys|
        invariant now == mine + Names(keys[..i])
        invariant Joined(old(watchers), watchers, now - mine, sub)
      {
        NamesMore(keys, i);
        var key := keys[i];
        if key !in now {
          JoinedMore(old(watchers), watchers, now - mine, key, sub);
          now := now + {key};
          watchers := watchers[key := ListOf(watchers, key) + [sub]];
          assert now - mine == now - {key} - mine + {key};
        }
      }
      assert keys[..|keys|] == keys && now - mine == Names(keys) - mine;
      JoinedHasBoxes(old(watchers), watchers, now - mine, sub, post.boxes);
      watchedKeys := |watchers|;
    }

    // Drains a connection's record, in any order.
    method LeaveAll(lists: Lists, conn: nat, mine: set<bytes>) returns (left: Lists, ghost order: seq<bytes>)
      ensures left == UnsubscribedEach(lists, order, conn) && Visits(order, mine)
    {
      left, order := lists, [];
      var todo := mine;
      while todo != {}
        invariant left == UnsubscribedEach(lists, order, conn)
        invariant todo <= mine && Visits(order, mine - todo)
        decreases todo
      {
        var name :| name in todo;
        if name in left {
          var subs := Retain(left[name], conn);
          left := if subs == [] then left - {name} else left[name := subs];
        }
        assert (order + [name])[..|order|] == order;
        VisitsMore(order, mine, todo, name);
        order := order + [name];
        todo := todo - {name};
      }
      assert mine - {} == mine;
    }

    // At every transaction boundary and when the connection closes.
    method UnregisterAllWatches(conn: nat, mine: set<bytes>) returns (now: set<bytes>)
      requires Valid()
      modifies this
      ensures Valid() && queries == old(queries) && now == {}
      ensures Unregistered(old(watchers), watchers, mine, conn)
      ensures Covers(old(watchers), conn, mine) ==> Covers(watchers, conn, {})
      ensures Covers(old(watchers), conn, mine) && NobodyMissing(old(watchers)) ==>
        watchers == WithoutConn(old(watchers), conn)
    {
      hide AllValid;
      now := {};
      if mine == {} {
        LeavingNothing(watchers, conn);
        return;
      }
      ghost var order;
      watchers, order := LeaveAll(watchers, conn, mine);
      LeavingAll(old(watchers), order, mine, conn, post.boxes);
      watchedKeys := |watchers|;
    }

    method UnregisterAllQsubs(conn: nat, mine: set<bytes>) returns (now: set<bytes>)
      requires Valid()
      modifies this
      ensures Valid() && watchers == old(watchers) && now == {}
      ensures Unregistered(old(queries), queries, mine, conn)
      ensures Covers(old(queries), conn, mine) ==> Covers(queries, conn, {})
      ensures Covers(old(queries), conn, mine) && NobodyMissing(old(queries)) ==>
        queries == WithoutConn(old(queries), conn)
    {
      hide AllValid;
      now := {};
      if mine == {} {
        LeavingNothing(queries, conn);
        return;
      }
      ghost var order;
      queries, order := LeaveAll(queries, conn, mine);
      LeavingAll(old(queries), order, mine, conn, post.boxes);
      watchedPatterns := |queries|;
    }
  }

  function CountNot(keys: seq<bytes>, mine: set<bytes>): nat {
    if keys == [] then 0 else (if keys[0] in mine then 0 else 1) + CountNot(keys[1..], mine)
  }

  ghost function Names(keys: seq<bytes>): set<bytes> {
    set k | k in keys
  }

  // The subscriber joined the lists of these names, and nothing else changed.
  ghost predicate Joined(before: Lists, after: Lists, names: set<bytes>, sub: Subscriber) {
    && after.Keys == before.Keys + names
    && forall name :: ListOf(after, name) == ListOf(before, name) + if name in names then [sub] else []
  }

  lemma JoinedMore(before: Lists, mid: Lists, names: set<bytes>, key: bytes, sub: Subscriber)
    requires Joined(before, mid, names, sub) && key !in names
    ensures Joined(before, mid[key := ListOf(mid, key) + [sub]], names + {key}, sub)
  {
    var after := mid[key := ListOf(mid, key) + [sub]];
    forall name ensures ListOf(after, name) == ListOf(before, name) + if name in names + {key} then [sub] else [] {
      assert ListOf(mid, name) == ListOf(before, name) + if name in names then [sub] else [];
    }
  }

  lemma JoinedNobody(lists: Lists, sub: Subscriber)
    ensures Joined(lists, lists, {}, sub)
  {
  }

  lemma JoinedHasBoxes(before: Lists, after: Lists, names: set<bytes>, sub: Subscriber, boxes: Boxes)
    requires Joined(before, after, names, sub) && ListsHaveBoxes(before, boxes) && sub.tx in boxes
    ensures ListsHaveBoxes(after, boxes)
  {
    forall name, i | name in after && 0 <= i < |after[name]| ensures after[name][i].tx in boxes {
      assert ListOf(after, name) == ListOf(before, name) + if name in names then [sub] else [];
    }
  }

  lemma NamesNone(keys: seq<bytes>)
    ensures Names(keys[..0]) == {}
  {
  }

  lemma NamesMore(keys: seq<bytes>, i: nat)
    requires i < |keys|
    ensures Names(keys[..i + 1]) == Names(keys[..i]) + {keys[i]}
  {
    assert keys[..i + 1] == keys[..i] + [keys[i]];
  }

  // The connection's registrations under these names are gone, everyone else's are as
  // they were, and no name it left has an empty list.
  ghost predicate Unregistered(before: Lists, after: Lists, mine: set<bytes>, conn: nat) {
    forall name :: LeftThis(before, after, name in mine, conn, name)
  }

  lemma LeavingNothing(lists: Lists, conn: nat)
    ensures Unregistered(lists, lists, {}, conn)
    ensures NobodyMissing(lists) && Covers(lists, conn, {}) ==> lists == WithoutConn(lists, conn)
  {
    if NobodyMissing(lists) && Covers(lists, conn, {}) {
      LeavingOneByOne(lists, [], conn);
    }
  }

  lemma LeavingAll(lists: Lists, order: seq<bytes>, mine: set<bytes>, conn: nat, boxes: Boxes)
    requires Visits(order, mine)
    ensures var after := UnsubscribedEach(lists, order, conn);
      && Unregistered(lists, after, mine, conn)
      && (ListsHaveBoxes(lists, boxes) ==> ListsHaveBoxes(after, boxes))
      && (Covers(lists, conn, mine) ==> Covers(after, conn, {}))
      && (Covers(lists, conn, mine) && NobodyMissing(lists) ==> after == WithoutConn(lists, conn))
  {
    var after := UnsubscribedEach(lists, order, conn);
    EachLeaves(lists, order, conn);
    forall name ensures LeftThis(lists, after, name in mine, conn, name) {
      assert LeftThis(lists, after, name in order, conn, name);
    }
    forall name, i | name in after && 0 <= i < |after[name]|
      ensures after[name][i] in ListOf(lists, name) && (name in mine ==> after[name][i].conn != conn)
    {
      assert LeftThis(lists, after, name in mine, conn, name);
      OthersAreSome(ListOf(lists, name), conn);
    }
    if Covers(lists, conn, mine) && NobodyMissing(lists) {
      LeavingOneByOne(lists, order, conn);
    }
  }

  lemma VisitsNone(all: set<bytes>)
    ensures Visits([], all - all)
  {
  }

  lemma VisitsMore(order: seq<bytes>, all: set<bytes>, todo: set<bytes>, name: bytes)
    requires Visits(order, all - todo) && name in todo && todo <= all
    ensures Visits(order + [name], all - (todo - {name}))
  {
  }

  lemma {:induction false} KeysKeepNobodyMissing(r: Round, changes: seq<Change>, x: Context)
    requires Fine(r, x) && NobodyMissing(r.lists)
    ensures NobodyMissing(ToldKeys(r, changes, x).lists)
  {
    if changes != [] {
      KeysKeepNobodyMissing(r, changes[..|changes| - 1], x);
    }
  }

  lemma NextPattern(r: Round, order: seq<bytes>, pattern: bytes, changes: seq<Change>, x: Context)
    requires Fine(r, x)
    ensures ToldPatterns(r, order + [pattern], changes, x) ==
      ToldPattern(ToldPatterns(r, order, changes, x), pattern, changes, x)
  {
    assert (order + [pattern])[..|order|] == order;
    hide ToldPattern;
  }

  lemma NextFlushed(r: Round, order: seq<bytes>, name: bytes, x: Context)
    requires Fine(r, x)
    ensures ToldFlushed(r, order + [name], x) == Told(ToldFlushed(r, order, x), name, Change(name, Resp.NullBulk), x)
  {
    assert (order + [name])[..|order|] == order;
    hide Told;
  }

  lemma SamePosts(r: Round, lists: Lists, x: Context)
    requires Known(x.start, r.letters)
    ensures Posts(Round(lists, r.letters), x) == Posts(r, x)
  {
  }

  lemma RoundHasBoxes(lists: Lists, r: Round, x: Context)
    requires Fine(r, x) && ListsHaveBoxes(lists, x.start)
    ensures ListsHaveBoxes(lists, Posts(r, x).boxes)
    ensures ListsHaveBoxes(NonEmpty(r.lists), Posts(r, x).boxes) && NobodyMissing(NonEmpty(r.lists))
  {
  }

  // Nobody watches, nobody is told: a fan-out over an empty registry does nothing.
  lemma {:induction false} NobodyToTell(r: Round, changes: seq<Change>, x: Context)
    requires Fine(r, x) && r.lists == map[]
    ensures ToldKeys(r, changes, x) == r
  {
    if changes != [] {
      NobodyToTell(r, changes[..|changes| - 1], x);
    }
  }

  lemma {:induction false} NobodyToFlush(r: Round, names: seq<bytes>, x: Context)
    requires Fine(r, x) && (r.lists == map[] || names == [])
    ensures ToldFlushed(r, names, x) == r
  {
    if names != [] {
      NobodyToFlush(r, names[..|names| - 1], x);
    }
  }

  // A value costs no more than twice its serialized size, so the cost of a value that
  // arrived in a frame is far from the width of the counter.
  lemma {:induction false} HeapBytesAreModest(v: Resp.Value)
    ensures HeapBytes(v) <= 2 * |Resp.Serialize(v)|
    decreases v
  {
    match v {
      case Array(items) => HeapBytesOfAllAreModest(items);
      case Push(items) => HeapBytesOfAllAreModest(items);
      case Map(pairs) => HeapBytesOfPairsAreModest(pairs);
      case _ =>
    }
  }

  lemma {:induction false} HeapBytesOfAllAreModest(items: seq<Resp.Value>)
    ensures HeapBytesOfAll(items) <= 2 * |Resp.SerializeAll(items)|
    decreases items
  {
    if items != [] {
      HeapBytesAreModest(items[0]);
      HeapBytesOfAllAreModest(items[1..]);
    }
  }

  lemma {:induction false} HeapBytesOfPairsAreModest(pairs: seq<Resp.Pair>)
    ensures HeapBytesOfPairs(pairs) <= 2 * |Resp.SerializePairs(pairs)|
    decreases pairs
  {
    if pairs != [] {
      HeapBytesOfPairIsModest(pairs[0]);
      HeapBytesOfPairsAreModest(pairs[1..]);
    }
  }

  lemma {:induction false} HeapBytesOfPairIsModest(pair: Resp.Pair)
    ensures HeapBytesOfPair(pair) <= 2 * |Resp.SerializePair(pair)|
    decreases pair
  {
    HeapBytesAreModest(pair.key);
    HeapBytesAreModest(pair.val);
  }

  // The values inside a value that contain no others.
  function Leaves(v: Resp.Value): seq<Resp.Value>
    decreases v
  {
    match v
    case Array(items) => LeavesOfAll(items)
    case Push(items) => LeavesOfAll(items)
    case Map(pairs) => LeavesOfPairs(pairs)
    case _ => [v]
  }

  function LeavesOfAll(items: seq<Resp.Value>): seq<Resp.Value>
    decreases items
  {
    if items == [] then [] else Leaves(items[0]) + LeavesOfAll(items[1..])
  }

  function LeavesOfPairs(pairs: seq<Resp.Pair>): seq<Resp.Value>
    decreases pairs
  {
    if pairs == [] then [] else LeavesOfPair(pairs[0]) + LeavesOfPairs(pairs[1..])
  }

  function LeavesOfPair(pair: Resp.Pair): seq<Resp.Value>
    decreases pair
  {
    Leaves(pair.key) + Leaves(pair.val)
  }

  // Their bytes: the text or the data, eight for an integer.
  function BytesOf(leaves: seq<Resp.Value>): nat {
    if leaves == [] then 0
    else
      var v := leaves[0];
      BytesOf(leaves[1..]) +
      if v.SimpleString? || v.Error? then |v.text| else if v.BulkString? then |v.data| else if v.Integer? then 8 else 0
  }

  lemma {:induction false} BytesOfTwo(a: seq<Resp.Value>, b: seq<Resp.Value>)
    ensures BytesOf(a + b) == BytesOf(a) + BytesOf(b)
    decreases |a|
  {
    if a == [] {
      assert a + b == b;
    } else {
      assert (a + b)[1..] == a[1..] + b;
      BytesOfTwo(a[1..], b);
    }
  }

  // A value that can arrive costs exactly the bytes of its leaves.
  lemma {:induction false} HeapBytesAreLeaves(v: Resp.Value)
    requires 2 * |Resp.Serialize(v)| < WORD
    ensures HeapBytes(v) == BytesOf(Leaves(v))
    decreases v
  {
    match v {
      case Array(items) => HeapBytesOfAllAreLeaves(items);
      case Push(items) => HeapBytesOfAllAreLeaves(items);
      case Map(pairs) => HeapBytesOfPairsAreLeaves(pairs);
      case _ => assert [v][1..] == [];
    }
  }

  lemma {:induction false} HeapBytesOfAllAreLeaves(items: seq<Resp.Value>)
    requires 2 * |Resp.SerializeAll(items)| < WORD
    ensures HeapBytesOfAll(items) == BytesOf(LeavesOfAll(items))
    decreases items
  {
    if items != [] {
      HeapBytesAreLeaves(items[0]);
      HeapBytesOfAllAreLeaves(items[1..]);
      BytesOfTwo(Leaves(items[0]), LeavesOfAll(items[1..]));
    }
  }

  lemma {:induction false} HeapBytesOfPairsAreLeaves(pairs: seq<Resp.Pair>)
    requires 2 * |Resp.SerializePairs(pairs)| < WORD
    ensures HeapBytesOfPairs(pairs) == BytesOf(LeavesOfPairs(pairs))
    decreases pairs
  {
    if pairs != [] {
      HeapBytesOfPairAreLeaves(pairs[0]);
      HeapBytesOfPairsAreLeaves(pairs[1..]);
      BytesOfTwo(LeavesOfPair(pairs[0]), LeavesOfPairs(pairs[1..]));
    }
  }

  lemma {:induction false} HeapBytesOfPairAreLeaves(pair: Resp.Pair)
    requires 2 * |Resp.SerializePair(pair)| < WORD
    ensures HeapBytesOfPair(pair) == BytesOf(LeavesOfPair(pair))
    decreases pair
  {
    HeapBytesAreLeaves(pair.key);
    HeapBytesAreLeaves(pair.val);
    HeapBytesAreModest(pair.key);
    HeapBytesAreModest(pair.val);
    BytesOfTwo(Leaves(pair.key), Leaves(pair.val));
  }

  // So a notice of a change tells key and value, to one subscriber each, and is charged
  // for the key, those leaves and the fixed overhead.
  lemma NoticesCarryTheChange(subs: seq<Subscriber>, change: Change, overhead: nat, i: nat)
    requires i < |subs| && 2 * |Resp.Serialize(change.value)| < WORD
    ensures var cost := |change.key| + BytesOf(Leaves(change.value)) + overhead;
      Notices(subs, change, overhead)[i] ==
        Letter(subs[i].tx, KeyChange(change.key, change.value), if cost < WORD then cost else WORD - 1)
  {
    HeapBytesAreLeaves(change.value);
  }

  // ── Who is told ─────────────────────────────────────────────────────────────

  // Every mailbox accepts exactly the accepted notices to it, in order, within bounds.
  lemma FanOutIsExact(r: Round, x: Context)
    requires Known(x.start, r.letters) && AllValid(x.start)
    ensures var p := Posts(r, x); AllValid(p.boxes) && Accepts(x.start, p.boxes, r.letters, p.oks)
  {
    DeliveredIsExact(x.start, r.letters, x.others, 0);
  }

  function AllNotices(lists: Lists, changes: seq<Change>, overhead: nat): seq<Letter> {
    if changes == [] then []
    else
      var n := |changes| - 1;
      AllNotices(lists, changes[..n], overhead) + Notices(ListOf(lists, changes[n].key), changes[n], overhead)
  }

  ghost predicate DistinctKeys(changes: seq<Change>) {
    forall i, j :: 0 <= i < j < |changes| ==> changes[i].key != changes[j].key
  }

  predicate Changes(changes: seq<Change>, name: bytes) {
    exists i :: 0 <= i < |changes| && changes[i].key == name
  }

  // Keys that did not change keep their watchers.
  lemma {:induction false} OtherKeysKeepTheirs(r: Round, changes: seq<Change>, x: Context, name: bytes)
    requires Fine(r, x) && !Changes(changes, name)
    ensures ListOf(ToldKeys(r, changes, x).lists, name) == ListOf(r.lists, name)
  {
    if changes != [] {
      var n := |changes| - 1;
      assert changes[n].key != name;
      assert forall i :: 0 <= i < n ==> changes[..n][i] == changes[i];
      OtherKeysKeepTheirs(r, changes[..n], x, name);
      OneKeyChanges(ToldKeys(r, changes[..n], x), changes[n], x, name);
      hide ToldKey;
    }
  }

  // Between two mentions of a key nothing happens to its watchers.
  lemma {:induction false} UntilTheNextMention(r: Round, changes: seq<Change>, x: Context, h: nat, i: nat, name: bytes)
    requires Fine(r, x) && h <= i <= |changes| && forall k :: h <= k < i ==> changes[k].key != name
    ensures ListOf(ToldKeys(r, changes[..i], x).lists, name) == ListOf(ToldKeys(r, changes[..h], x).lists, name)
    decreases i
  {
    if h < i {
      UntilTheNextMention(r, changes, x, h, i - 1, name);
      assert changes[..i][..i - 1] == changes[..i - 1] && changes[..i][i - 1] == changes[i - 1];
      OneKeyChanges(ToldKeys(r, changes[..i - 1], x), changes[i - 1], x, name);
      hide ToldKey;
    }
  }

  lemma {:induction false} LettersGrow(r: Round, changes: seq<Change>, x: Context, i: nat)
    requires Fine(r, x) && i <= |changes|
    ensures ToldKeys(r, changes[..i], x).letters <= ToldKeys(r, changes, x).letters
    decreases |changes|
  {
    var n := |changes| - 1;
    if i <= n {
      LettersGrow(r, changes[..n], x, i);
      assert changes[..n][..i] == changes[..i];
      OneKeyIsTold(ToldKeys(r, changes[..n], x), changes[n], x);
      hide ToldKey;
    } else {
      assert changes[..i] == changes;
    }
  }

  lemma KeyLeftWithSurvivors(r: Round, change: Change, x: Context)
    requires Fine(r, x)
    ensures var told, subs := ToldKey(r, change, x), ListOf(r.lists, change.key);
      && |told.letters| == |r.letters| + |subs|
      && ListOf(told.lists, change.key) == Kept(subs, Posts(told, x).oks[|r.letters|..])
  {
    hide Delivered;
    OneKeyIsTold(r, change, x);
    if change.key !in r.lists {
      assert Kept<Subscriber>([], []) == [];
    }
  }

  // Whatever keys a batch repeats: each mention tells, in order, those its key has left
  // by then, and leaves those that accepted.
  lemma EachMentionTells(r: Round, changes: seq<Change>, x: Context, i: nat)
    requires Fine(r, x) && i < |changes|
    ensures var before, told := ToldKeys(r, changes[..i], x), ToldKeys(r, changes[..i + 1], x);
      var subs := ListOf(before.lists, changes[i].key);
      && told.letters == before.letters + Notices(subs, changes[i], x.overhead)
      && told.letters <= ToldKeys(r, changes, x).letters
      && ListOf(told.lists, changes[i].key) == Kept(subs, Posts(told, x).oks[|before.letters|..])
  {
    var some := changes[..i + 1];
    assert some[..i] == changes[..i] && some[i] == changes[i];
    LettersGrow(r, changes, x, i + 1);
    hide ToldKey, Delivered, Notices, Kept, ListOf;
    OneKeyIsTold(ToldKeys(r, changes[..i], x), changes[i], x);
    KeyLeftWithSurvivors(ToldKeys(r, changes[..i], x), changes[i], x);
  }

  // And those a mention finds are those the mention before it left, or all the watchers
  // of the key if it is the first.
  lemma MentionFindsSurvivors(r: Round, changes: seq<Change>, x: Context, h: nat, i: nat)
    requires Fine(r, x) && h <= i < |changes| && forall k :: h <= k < i ==> changes[k].key != changes[i].key
    requires h == 0 || changes[h - 1].key == changes[i].key
    ensures ListOf(ToldKeys(r, changes[..i], x).lists, changes[i].key) ==
      ListOf((if h == 0 then r else ToldKeys(r, changes[..h], x)).lists, changes[i].key)
  {
    UntilTheNextMention(r, changes, x, h, i, changes[i].key);
    if h == 0 { assert changes[..0] == []; }
  }

  // Among the answers to a list, which begin at some place, there is a yes for s.
  ghost predicate SaidYes(subs: seq<Subscriber>, oks: seq<bool>, at: nat, s: Subscriber) {
    exists p :: 0 <= p < |subs| && subs[p] == s && at + p < |oks| && oks[at + p]
  }

  lemma KeptSaidYes(subs: seq<Subscriber>, oks: seq<bool>, at: nat, s: Subscriber)
    requires |oks| == at + |subs|
    ensures s in Kept(subs, oks[at..]) <==> SaidYes(subs, oks, at, s)
  {
    KeptIff(subs, oks[at..], s);
    hide Kept;
    if s in Kept(subs, oks[at..]) {
      var p :| 0 <= p < |subs| && subs[p] == s && oks[at..][p];
      assert oks[at + p];
    }
    if SaidYes(subs, oks, at, s) {
      var p :| 0 <= p < |subs| && subs[p] == s && at + p < |oks| && oks[at + p];
      assert oks[at..][p];
    }
  }

  // A mention's send to a watcher was accepted.
  ghost predicate Took(r: Round, changes: seq<Change>, x: Context, i: nat, s: Subscriber)
    requires Fine(r, x) && i < |changes|
  {
    var before, told := ToldKeys(r, changes[..i], x), ToldKeys(r, changes[..i + 1], x);
    SaidYes(ListOf(before.lists, changes[i].key), Posts(told, x).oks, |before.letters|, s)
  }

  lemma StaysIffYes(r: Round, change: Change, x: Context, s: Subscriber)
    requires Fine(r, x)
    ensures var told := ToldKey(r, change, x);
      s in ListOf(told.lists, change.key) <==> SaidYes(ListOf(r.lists, change.key), Posts(told, x).oks, |r.letters|, s)
  {
    hide ListsHaveBoxes, Known, Delivered, Kept, ListOf, SaidYes, ToldKey;
    KeyLeftWithSurvivors(r, change, x);
    KeptSaidYes(ListOf(r.lists, change.key), Posts(ToldKey(r, change, x), x).oks, |r.letters|, s);
  }

  lemma StaysIffTook(r: Round, changes: seq<Change>, x: Context, i: nat, s: Subscriber)
    requires Fine(r, x) && i < |changes|
    ensures s in ListOf(ToldKeys(r, changes[..i + 1], x).lists, changes[i].key) <==> Took(r, changes, x, i, s)
  {
    hide ListsHaveBoxes, Known, Delivered, Kept, ListOf, SaidYes, ToldKey;
    var some := changes[..i + 1];
    assert some[..i] == changes[..i] && some[i] == changes[i];
    StaysIffYes(ToldKeys(r, changes[..i], x), changes[i], x, s);
  }

  // A mention tells exactly the watchers of its key that took every mention before it.
  lemma {:induction false} ToldIffTookAll(r: Round, changes: seq<Change>, x: Context, i: nat, name: bytes, s: Subscriber)
    requires Fine(r, x) && i <= |changes|
    ensures s in ListOf(ToldKeys(r, changes[..i], x).lists, name) <==>
      s in ListOf(r.lists, name) && forall h :: 0 <= h < i && changes[h].key == name ==> Took(r, changes, x, h, s)
    decreases i
  {
    hide Fine, ListOf, Took, ToldKeys, Delivered;
    if i == 0 {
      ToldNothing(r, changes, x);
    } else {
      ToldIffTookAll(r, changes, x, i - 1, name, s);
      if changes[i - 1].key == name {
        StaysIffTook(r, changes, x, i - 1, s);
        if Took(r, changes, x, i - 1, s) { TookWasThere(r, changes, x, i - 1, s); }
      } else {
        UntilTheNextMention(r, changes, x, i - 1, i, name);
      }
    }
  }

  lemma ToldNothing(r: Round, changes: seq<Change>, x: Context)
    requires Fine(r, x)
    ensures ToldKeys(r, changes[..0], x) == r
  {
  }

  lemma TookWasThere(r: Round, changes: seq<Change>, x: Context, i: nat, s: Subscriber)
    requires Fine(r, x) && i < |changes| && Took(r, changes, x, i, s)
    ensures s in ListOf(ToldKeys(r, changes[..i], x).lists, changes[i].key)
  {
    hide Fine, ListOf, ToldKeys, Delivered;
  }

  // The notices of a batch: those each mention sends to whom its key has left by then.
  ghost function BatchNotices(r: Round, changes: seq<Change>, x: Context): seq<Letter>
    requires Fine(r, x)
  {
    if changes == [] then []
    else
      var n := |changes| - 1;
      BatchNotices(r, changes[..n], x) +
      Notices(ListOf(ToldKeys(r, changes[..n], x).lists, changes[n].key), changes[n], x.overhead)
  }

  // A batch sends those and no others; if it names each key once, they go to every watcher
  // of every changed key, however many are dropped on the way.
  lemma {:induction false} EveryWatcherIsTold(r: Round, changes: seq<Change>, x: Context)
    requires Fine(r, x)
    ensures ToldKeys(r, changes, x).letters == r.letters + BatchNotices(r, changes, x)
    ensures DistinctKeys(changes) ==> BatchNotices(r, changes, x) == AllNotices(r.lists, changes, x.overhead)
  {
    if changes == [] {
      assert r.letters + [] == r.letters;
    } else {
      var n := |changes| - 1;
      LastOfBatch(r, changes, x);
      hide ToldKeys, AllNotices, BatchNotices, ToldKey, ListOf, Notices;
      EveryWatcherIsTold(r, changes[..n], x);
      if DistinctKeys(changes) { OtherKeysKeepTheirs(r, changes[..n], x, changes[n].key); }
      var mid := ToldKeys(r, changes[..n], x);
      OneKeyIsTold(mid, changes[n], x);
      Joining(r.letters, BatchNotices(r, changes[..n], x),
              Notices(ListOf(mid.lists, changes[n].key), changes[n], x.overhead));
    }
  }

  lemma LastOfBatch(r: Round, changes: seq<Change>, x: Context)
    requires Fine(r, x) && changes != []
    ensures var n := |changes| - 1;
      var mid := ToldKeys(r, changes[..n], x);
      && ToldKeys(r, changes, x) == ToldKey(mid, changes[n], x)
      && BatchNotices(r, changes, x) ==
           BatchNotices(r, changes[..n], x) + Notices(ListOf(mid.lists, changes[n].key), changes[n], x.overhead)
      && AllNotices(r.lists, changes, x.overhead) ==
           AllNotices(r.lists, changes[..n], x.overhead) +
           Notices(ListOf(r.lists, changes[n].key), changes[n], x.overhead)
  {
  }

  lemma Joining<T>(a: seq<T>, b: seq<T>, c: seq<T>)
    ensures a + b + c == a + (b + c)
  {
  }

  lemma ToldOne(r: Round, name: bytes, change: Change, x: Context)
    requires Fine(r, x)
    ensures var told, subs := Told(r, name, change, x), ListOf(r.lists, name);
      && told.letters == r.letters + Notices(subs, change, x.overhead)
      && |told.letters| == |r.letters| + |subs|
      && ListOf(told.lists, name) == Kept(subs, Posts(told, x).oks[|r.letters|..])
      && forall other :: other != name ==> ListOf(told.lists, other) == ListOf(r.lists, other)
  {
    hide Delivered;
    if name !in r.lists {
      assert Kept<Subscriber>([], []) == [];
      assert r.letters + [] == r.letters;
    }
  }

  // A live query's subscriber accepted the notice of a change.
  ghost predicate QueryTook(r: Round, pattern: bytes, changes: seq<Change>, x: Context, i: nat, s: Subscriber)
    requires Fine(r, x) && i < |changes|
  {
    var before, told := ToldPattern(r, pattern, changes[..i], x), ToldPattern(r, pattern, changes[..i + 1], x);
    SaidYes(ListOf(before.lists, pattern), Posts(told, x).oks, |before.letters|, s)
  }

  lemma QueryStep(r: Round, pattern: bytes, changes: seq<Change>, x: Context, i: nat, s: Subscriber)
    requires Fine(r, x) && i < |changes|
    ensures var before, told := ToldPattern(r, pattern, changes[..i], x), ToldPattern(r, pattern, changes[..i + 1], x);
      if Glob.ShadowedMatches(pattern, changes[i].key) then
        && told.letters == before.letters + Notices(ListOf(before.lists, pattern), changes[i], x.overhead)
        && (s in ListOf(told.lists, pattern) <==> QueryTook(r, pattern, changes, x, i, s))
        && (QueryTook(r, pattern, changes, x, i, s) ==> s in ListOf(before.lists, pattern))
      else told == before
  {
    hide ListsHaveBoxes, Known, Delivered, Kept, ListOf, Told, Glob.ShadowedMatches;
    var some := changes[..i + 1];
    assert some[..i] == changes[..i] && some[i] == changes[i];
    var before := ToldPattern(r, pattern, changes[..i], x);
    ToldOne(before, pattern, changes[i], x);
    var told := Told(before, pattern, changes[i], x);
    KeptSaidYes(ListOf(before.lists, pattern), Posts(told, x).oks, |before.letters|, s);
  }

  // A live query is told of exactly the changes whose keys match, and of such a change
  // exactly those subscribers that accepted every one before it.
  lemma {:induction false} QueryToldIffTookAll(r: Round, pattern: bytes, changes: seq<Change>, x: Context, i: nat,
                                               s: Subscriber)
    requires Fine(r, x) && i <= |changes|
    ensures s in ListOf(ToldPattern(r, pattern, changes[..i], x).lists, pattern) <==>
      && s in ListOf(r.lists, pattern)
      && forall h :: 0 <= h < i && Glob.ShadowedMatches(pattern, changes[h].key) ==>
           QueryTook(r, pattern, changes, x, h, s)
    ensures i < |changes| ==>
      ToldPattern(r, pattern, changes[..i + 1], x).letters ==
      ToldPattern(r, pattern, changes[..i], x).letters +
        if Glob.ShadowedMatches(pattern, changes[i].key)
        then Notices(ListOf(ToldPattern(r, pattern, changes[..i], x).lists, pattern), changes[i], x.overhead) else []
    decreases i
  {
    hide Fine, ListOf, QueryTook, Delivered, Glob.ShadowedMatches, Notices;
    if i > 0 {
      QueryToldIffTookAll(r, pattern, changes, x, i - 1, s);
      QueryStep(r, pattern, changes, x, i - 1, s);
      hide ToldPattern;
    } else {
      assert changes[..0] == [];
    }
    if i < |changes| {
      QueryStep(r, pattern, changes, x, i, s);
      NoMore(ToldPattern(r, pattern, changes[..i], x).letters);
    }
  }

  lemma NoMore<T>(a: seq<T>)
    ensures a + [] == a
  {
  }

  lemma OneKeyIsTold(r: Round, change: Change, x: Context)
    requires Fine(r, x)
    ensures ToldKey(r, change, x).letters == r.letters + Notices(ListOf(r.lists, change.key), change, x.overhead)
  {
    hide Delivered, Kept;
  }

  lemma OneKeyChanges(r: Round, change: Change, x: Context, name: bytes)
    requires Fine(r, x) && name != change.key
    ensures ListOf(ToldKey(r, change, x).lists, name) == ListOf(r.lists, name)
  {
    hide Delivered, Kept;
  }

  lemma UndoneAt(before: Lists, during: Lists, after: Lists, names: set<bytes>, sub: Subscriber, name: bytes)
    requires NobodyMissing(before) && Covers(before, sub.conn, {}) && during.Keys == before.Keys + names
    requires ListOf(during, name) == ListOf(before, name) + if name in names then [sub] else []
    requires LeftThis(during, after, name in names, sub.conn, name)
    ensures ListOf(after, name) == ListOf(before, name) && !HasEmpty(after, name)
  {
    if name in names {
      var subs := ListOf(before, name);
      assert (subs + [sub])[..|subs|] == subs;
      OthersOfNone(subs, sub.conn);
    } else {
      assert ListOf(before, name) + [] == ListOf(before, name);
    }
  }

  // Watching some keys and unregistering again leaves the registry as it was.
  lemma UnregisterUndoesWatch(before: Lists, during: Lists, after: Lists, names: set<bytes>, sub: Subscriber)
    requires NobodyMissing(before) && Covers(before, sub.conn, {}) && Joined(before, during, names, sub)
    requires Unregistered(during, after, names, sub.conn)
    ensures after == before
  {
    hide Covers, LeftThis, ListOf;
    forall name ensures ListOf(after, name) == ListOf(before, name) && !HasEmpty(after, name) {
      UndoneAt(before, during, after, names, sub, name);
    }
    assert forall name :: name in after ==> !HasEmpty(after, name);
    SameLists(after, before);
  }

  // ── A connection's record covers its registrations ──────────────────────────

  // Fan-outs drop registrations and never make one.
  ghost predicate OnlyDrops(before: Lists, after: Lists) {
    forall name, i :: name in after && 0 <= i < |after[name]| ==> after[name][i] in ListOf(before, name)
  }

  lemma DropsTwice(before: Lists, mid: Lists, after: Lists)
    requires OnlyDrops(before, mid) && OnlyDrops(mid, after)
    ensures OnlyDrops(before, after)
  {
    forall name, i | name in after && 0 <= i < |after[name]| ensures after[name][i] in ListOf(before, name) {
      assert after[name][i] in ListOf(mid, name);
    }
  }

  lemma ToldOnlyDrops(r: Round, name: bytes, change: Change, x: Context)
    requires Fine(r, x)
    ensures OnlyDrops(r.lists, Told(r, name, change, x).lists)
  {
    if name in r.lists {
      var oks := Delivered(x.start, r.letters + Notices(r.lists[name], change, x.overhead), x.others, 0).oks;
      KeptIsSome(r.lists[name], oks[|r.letters|..]);
      hide Delivered, Kept;
    }
  }

  lemma {:induction false} KeysOnlyDrop(r: Round, changes: seq<Change>, x: Context)
    requires Fine(r, x)
    ensures OnlyDrops(r.lists, ToldKeys(r, changes, x).lists)
  {
    if changes != [] {
      var n := |changes| - 1;
      var mid := ToldKeys(r, changes[..n], x);
      KeysOnlyDrop(r, changes[..n], x);
      ToldOnlyDrops(mid, changes[n].key, changes[n], x);
      hide Told;
      DropsTwice(r.lists, mid.lists, ToldKey(mid, changes[n], x).lists);
    }
  }

  lemma {:induction false} PatternOnlyDrops(r: Round, pattern: bytes, changes: seq<Change>, x: Context)
    requires Fine(r, x)
    ensures OnlyDrops(r.lists, ToldPattern(r, pattern, changes, x).lists)
  {
    if changes != [] {
      var n := |changes| - 1;
      var mid := ToldPattern(r, pattern, changes[..n], x);
      PatternOnlyDrops(r, pattern, changes[..n], x);
      hide Told, Glob.ShadowedMatches;
      ToldOnlyDrops(mid, pattern, changes[n], x);
      DropsTwice(r.lists, mid.lists, Told(mid, pattern, changes[n], x).lists);
    }
  }

  lemma {:induction false} PatternsOnlyDrop(r: Round, patterns: seq<bytes>, changes: seq<Change>, x: Context)
    requires Fine(r, x)
    ensures OnlyDrops(r.lists, ToldPatterns(r, patterns, changes, x).lists)
  {
    if patterns != [] {
      var n := |patterns| - 1;
      var mid := ToldPatterns(r, patterns[..n], changes, x);
      PatternsOnlyDrop(r, patterns[..n], changes, x);
      hide ToldPattern;
      PatternOnlyDrops(mid, patterns[n], changes, x);
      DropsTwice(r.lists, mid.lists, ToldPattern(mid, patterns[n], changes, x).lists);
    }
  }

  lemma {:induction false} FlushOnlyDrops(r: Round, names: seq<bytes>, x: Context)
    requires Fine(r, x)
    ensures OnlyDrops(r.lists, ToldFlushed(r, names, x).lists)
  {
    if names != [] {
      var n := |names| - 1;
      var mid := ToldFlushed(r, names[..n], x);
      FlushOnlyDrops(r, names[..n], x);
      hide Told;
      ToldOnlyDrops(mid, names[n], Change(names[n], Resp.NullBulk), x);
      DropsTwice(r.lists, mid.lists, Told(mid, names[n], Change(names[n], Resp.NullBulk), x).lists);
    }
  }

  // So a connection's record goes on covering its registrations: across fan-outs and
  // flushes, across its own WATCH, and across what other connections do.
  lemma RecordKeepsCovering(before: Lists, after: Lists, conn: nat, mine: set<bytes>)
    requires Covers(before, conn, mine) && (OnlyDrops(before, after) || exists other, names ::
      other != conn && Unregistered(before, after, names, other))
    ensures Covers(after, conn, mine)
  {
    if !OnlyDrops(before, after) {
      var other, names :| other != conn && Unregistered(before, after, names, other);
      forall name, i | name in after && 0 <= i < |after[name]| ensures after[name][i] in ListOf(before, name) {
        assert LeftThis(before, after, name in names, other, name);
        OthersAreSome(ListOf(before, name), other);
      }
    }
  }

  lemma JoiningKeepsCovering(before: Lists, after: Lists, names: set<bytes>, sub: Subscriber, conn: nat, mine: set<bytes>)
    requires Covers(before, conn, mine) && Joined(before, after, names, sub)
    ensures Covers(after, conn, if sub.conn == conn then mine + names else mine)
  {
    forall name, i | name in after && 0 <= i < |after[name]| && after[name][i].conn == conn
      ensures name in mine || (sub.conn == conn && name in names)
    {
      assert ListOf(after, name) == ListOf(before, name) + if name in names then [sub] else [];
    }
  }

  // ── FLUSHDB ─────────────────────────────────────────────────────────────────

  lemma {:induction false} KeptNobodyIff<T>(subs: seq<T>, oks: seq<bool>)
    requires |oks| == |subs|
    ensures Kept(subs, oks) == [] <==> forall i :: 0 <= i < |oks| ==> !oks[i]
  {
    if subs != [] {
      var n := |subs| - 1;
      KeptNobodyIff(subs[..n], oks[..n]);
      assert forall i :: 0 <= i < n ==> oks[..n][i] == oks[i];
    }
  }

  // The flush notice leaves a name with an empty list exactly when no watcher on it
  // could be told; every other fan-out removes the name then.
  lemma FlushLeavesEmptyIff(r: Round, name: bytes, x: Context)
    requires Fine(r, x) && name in r.lists
    ensures var after := Told(r, name, Change(name, Resp.NullBulk), x);
      HasEmpty(after.lists, name) <==>
        forall i :: |r.letters| <= i < |after.letters| ==> !Posts(after, x).oks[i]
  {
    var after := Told(r, name, Change(name, Resp.NullBulk), x);
    var oks := Posts(after, x).oks[|r.letters|..];
    hide Delivered;
    KeptNobodyIff(r.lists[name], oks);
    forall i | |r.letters| <= i < |after.letters| ensures Posts(after, x).oks[i] == oks[i - |r.letters|] {}
    forall i | 0 <= i < |oks| ensures oks[i] == Posts(after, x).oks[|r.letters| + i] {}
  }

  // Whether the mailbox of the i-th letter has room when its turn comes.
  ghost predicate RoomInTurn(r: Round, x: Context, i: nat)
    requires Known(x.start, r.letters) && i < |r.letters|
  {
    var mid := Meanwhile(Delivered(x.start, r.letters[..i], x.others, 0).boxes, x.others(i));
    r.letters[i].to in mid && HasRoom(mid[r.letters[i].to], r.letters[i].bytes)
  }

  lemma AcceptedInTurn(r: Round, x: Context, i: nat)
    requires Known(x.start, r.letters) && AllValid(x.start) && i < |r.letters|
    ensures Posts(r, x).oks[i] <==> RoomInTurn(r, x, i)
  {
    hide AllValid, HasRoom, Meanwhile, Delivered;
    AcceptedIffRoom(x.start, r.letters, x.others, 0, i);
  }

  lemma SameTurn(r: Round, later: Round, x: Context, i: nat)
    requires Known(x.start, r.letters) && Known(x.start, later.letters) && r.letters <= later.letters && i < |r.letters|
    ensures RoomInTurn(later, x, i) <==> RoomInTurn(r, x, i)
  {
    assert later.letters[..i] == r.letters[..i];
    hide HasRoom, Meanwhile, Delivered;
  }

  lemma FlushTells(r: Round, names: seq<bytes>, x: Context, j: nat, name: bytes)
    requires Fine(r, x) && j < |names|
    ensures var before, told := ToldFlushed(r, names[..j], x), ToldFlushed(r, names[..j + 1], x);
      && told == Told(before, names[j], Change(names[j], Resp.NullBulk), x)
      && (name != names[j] ==> ListOf(told.lists, name) == ListOf(before.lists, name))
  {
    assert names[..j + 1][..j] == names[..j] && names[..j + 1][j] == names[j];
    hide Delivered, Kept;
  }

  // A name is not touched by a stretch of the flush that does not mention it.
  lemma {:induction false} FlushSpares(r: Round, names: seq<bytes>, x: Context, h: nat, j: nat, name: bytes)
    requires Fine(r, x) && h <= j <= |names| && forall k :: h <= k < j ==> names[k] != name
    ensures var before, after := ToldFlushed(r, names[..h], x), ToldFlushed(r, names[..j], x);
      ListOf(after.lists, name) == ListOf(before.lists, name) && before.letters <= after.letters
    decreases j
  {
    hide Told, ToldFlushed, ListOf, Notices;
    if h < j {
      FlushSpares(r, names, x, h, j - 1, name);
      FlushTells(r, names, x, j - 1, name);
      ToldAdds(ToldFlushed(r, names[..j - 1], x), names[j - 1], Change(names[j - 1], Resp.NullBulk), x);
    }
  }

  lemma ToldAdds(r: Round, name: bytes, change: Change, x: Context)
    requires Fine(r, x)
    ensures Told(r, name, change, x).letters == r.letters + Notices(ListOf(r.lists, name), change, x.overhead)
  {
    hide Delivered, Kept;
  }

  // A whole flush over distinct names: each watcher of a name is sent one notice, and
  // the name is left with an empty list iff none of them has room when its turn comes.
  lemma FlushEmptiesIff(r: Round, names: seq<bytes>, x: Context, j: nat)
    requires Fine(r, x) && AllValid(x.start) && j < |names| && names[j] in r.lists
    requires forall h, k :: 0 <= h < k < |names| ==> names[h] != names[k]
    ensures var after, lo := ToldFlushed(r, names, x), |ToldFlushed(r, names[..j], x).letters|;
      var hi := lo + |r.lists[names[j]]|;
      && hi <= |after.letters|
      && after.letters[lo..hi] == Notices(r.lists[names[j]], Change(names[j], Resp.NullBulk), x.overhead)
      && (HasEmpty(after.lists, names[j]) <==> forall i :: lo <= i < hi ==> !RoomInTurn(after, x, i))
  {
    hide Told, ToldFlushed, Delivered, AllValid, HasRoom, Meanwhile, Notices, ListsHaveBoxes, Known, RoomInTurn;
    var name := names[j];
    var change := Change(name, Resp.NullBulk);
    assert names[..0] == [] && names[..|names|] == names;
    var start := FlushFromNothing(r, names, x);
    var before, told, after := ToldFlushed(r, names[..j], x), ToldFlushed(r, names[..j + 1], x), ToldFlushed(r, names, x);
    FlushSpares(r, names, x, 0, j, name);
    FlushTells(r, names, x, j, name);
    ToldAdds(before, name, change, x);
    FlushSpares(r, names, x, j + 1, |names|, name);
    FlushLeavesEmptyIff(before, name, x);
    var lo, hi := |before.letters|, |told.letters|;
    forall i | lo <= i < hi ensures Posts(told, x).oks[i] <==> RoomInTurn(after, x, i) {
      AcceptedInTurn(told, x, i);
      SameTurn(told, after, x, i);
    }
    assert after.letters[..hi] == told.letters;
  }

  lemma FlushFromNothing(r: Round, names: seq<bytes>, x: Context) returns (start: Round)
    requires Fine(r, x)
    ensures start == r == ToldFlushed(r, names[..0], x) && ToldFlushed(r, names, x).lists.Keys == r.lists.Keys
  {
    start := r;
  }

  lemma ClosedRefuses(b: Mailbox, letter: Letter, others: nat -> seq<Happening>)
    requires Valid(b) && !b.open && letter.to == 0 && others(0) == []
    ensures Delivered(map[0 := b], [letter], others, 0).oks == [false]
  {
    var start: Boxes := map[0 := b];
    DeliveredOne(start, letter, others);
    assert Meanwhile(start, []) == start && AllValid(start);
    hide Posted, Valid, Meanwhile, Accepts, Delivered;
    PostedIsExact(start, letter, []);
    assert !HasRoom(b, letter.bytes);
  }

  lemma DeliveredOne(start: Boxes, letter: Letter, others: nat -> seq<Happening>)
    requires letter.to in start
    ensures Delivered(start, [letter], others, 0).oks == [Posted(start, letter, others(0)).ok]
  {
    hide Posted;
    assert [letter][..0] == [];
    assert Delivered(start, [], others, 0) == Postings(start, []);
  }

  // One watcher whose receiver is gone: the registry keeps the name with nobody on it.
  lemma FlushCanLeaveEmpty(b: Mailbox, name: bytes, overhead: nat)
    requires Valid(b) && !b.open
    ensures var x := Context(map[0 := b], overhead, i => []);
      var r := Round(map[name := [Subscriber(1, 0)]], []);
      Fine(r, x) && HasEmpty(ToldFlushed(r, [name], x).lists, name)
  {
    var x := Context(map[0 := b], overhead, i => []);
    var sub, change := Subscriber(1, 0), Change(name, Resp.NullBulk);
    var r := Round(map[name := [sub]], []);
    ClosedRefuses(b, Notice(sub, change, overhead), x.others);
    hide Delivered, Valid;
    assert [name][..0] == [] && ToldFlushed(r, [], x) == r;
    assert [] + Notices([sub], change, overhead) == [Notice(sub, change, overhead)];
    KeptNobodyIff([sub], [false]);
    hide Kept;
    assert Told(r, name, change, x).lists[name] == Kept([sub], [false][0..]);
  }
}
