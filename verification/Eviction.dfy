/**
 Which keys an eviction policy can take: of one eviction, of a row of them, and of an
 eviction that looks at every candidate.

 The sample is arbitrary, so what is proved is what some sample, or every sample, allows.
 Among keys of equal weight either may go.
 */
module Eviction {
  import opened Bytes
  import opened Keyspace
  import opened Store

  type Key = Keyspace.Key

  // ── One eviction ────────────────────────────────────────────────────────────

  ghost function Lighter(policy: EvictionPolicy, seen: Keys, now: u64, k: Key): set<Key>
    requires k in seen
  {
    set x | x in seen && x in EligibleIn(policy, seen) && Weight(policy, seen[x], now) < Weight(policy, seen[k], now)
  }

  // The other keys that do not go before it.
  ghost function NotLighter(policy: EvictionPolicy, seen: Keys, now: u64, k: Key): set<Key>
    requires k in seen
  {
    set x | x in seen && x in EligibleIn(policy, seen) && x != k &&
            Weight(policy, seen[x], now) >= Weight(policy, seen[k], now)
  }

  lemma EligibleSplits(policy: EvictionPolicy, seen: Keys, now: u64, k: Key)
    requires k in EligibleIn(policy, seen)
    ensures k in seen
    ensures EligibleIn(policy, seen) == Lighter(policy, seen, now, k) + NotLighter(policy, seen, now, k) + {k}
    ensures |EligibleIn(policy, seen)| == |Lighter(policy, seen, now, k)| + |NotLighter(policy, seen, now, k)| + 1
  {
    hide Weight;
    var l, n := Lighter(policy, seen, now, k), NotLighter(policy, seen, now, k);
    assert EligibleIn(policy, seen) == l + n + {k};
    assert l !! n && k !in l + n;
  }

  lemma {:induction false} PartOfSize<T>(s: set<T>, n: nat) returns (part: set<T>)
    requires n <= |s|
    ensures part <= s && |part| == n
    decreases n
  {
    if n == 0 {
      part := {};
    } else {
      var x :| x in s;
      part := PartOfSize(s - {x}, n - 1);
      part := part + {x};
    }
  }

  // A key may be the next to go iff nothing is lighter, or enough others to fill a sample
  // are not.
  lemma MayGoIff(policy: EvictionPolicy, sampleSize: nat, seen: Keys, now: u64, k: Key)
    requires sampleSize >= 1
    ensures MayGo(policy, sampleSize, seen, now, k) <==>
      && k in EligibleIn(policy, seen) && k in seen
      && (Lighter(policy, seen, now, k) == {} || |NotLighter(policy, seen, now, k)| >= Want(policy, sampleSize) - 1)
  {
    if MayGo(policy, sampleSize, seen, now, k) {
      GoneWasAllowed(policy, sampleSize, seen, now, k);
    }
    if k in EligibleIn(policy, seen) && k in seen &&
       (Lighter(policy, seen, now, k) == {} || |NotLighter(policy, seen, now, k)| >= Want(policy, sampleSize) - 1)
    {
      AllowedMayGo(policy, sampleSize, seen, now, k);
    }
  }

  lemma GoneWasAllowed(policy: EvictionPolicy, sampleSize: nat, seen: Keys, now: u64, k: Key)
    requires sampleSize >= 1 && MayGo(policy, sampleSize, seen, now, k)
    ensures k in EligibleIn(policy, seen) && k in seen
    ensures Lighter(policy, seen, now, k) == {} || |NotLighter(policy, seen, now, k)| >= Want(policy, sampleSize) - 1
  {
    hide Weight, EligibleIn, Want;
    var eligible, want := EligibleIn(policy, seen), Want(policy, sampleSize);
    var sample :| SampleOf(sample, eligible, want) && LeastOf(policy, seen, now, sample, k);
    EligibleSplits(policy, seen, now, k);
    var others := NotLighter(policy, seen, now, k);
    SubsetIsSmaller(sample, others + {k});
    assert |others + {k}| == |others| + 1;
  }

  lemma AllowedMayGo(policy: EvictionPolicy, sampleSize: nat, seen: Keys, now: u64, k: Key)
    requires sampleSize >= 1 && k in EligibleIn(policy, seen) && k in seen
    requires Lighter(policy, seen, now, k) == {} || |NotLighter(policy, seen, now, k)| >= Want(policy, sampleSize) - 1
    ensures MayGo(policy, sampleSize, seen, now, k)
  {
    hide Weight, EligibleIn, Lighter, NotLighter, LeastOf;
    EligibleSplits(policy, seen, now, k);
    var eligible, want := EligibleIn(policy, seen), Want(policy, sampleSize);
    var take := if want < |eligible| then want else |eligible|;
    var part := PartOfSize(NotLighter(policy, seen, now, k), take - 1);
    LeastBesideOthers(policy, seen, now, part, k);
    assert |part + {k}| == take;
    assert SampleOf(part + {k}, eligible, want);
  }

  lemma LeastBesideOthers(policy: EvictionPolicy, seen: Keys, now: u64, part: set<Key>, k: Key)
    requires k in seen && part <= NotLighter(policy, seen, now, k)
    ensures LeastOf(policy, seen, now, part + {k}, k) && k !in part
  {
    hide Weight, EligibleIn;
  }

  lemma {:induction false} Lightest(policy: EvictionPolicy, seen: Keys, now: u64, some: set<Key>) returns (k: Key)
    requires some != {} && some <= seen.Keys
    ensures k in some && forall x :: x in some ==> Weight(policy, seen[k], now) <= Weight(policy, seen[x], now)
    decreases |some|
  {
    hide Weight;
    var x :| x in some;
    if some == {x} {
      k := x;
    } else {
      k := Lightest(policy, seen, now, some - {x});
      if Weight(policy, seen[x], now) < Weight(policy, seen[k], now) { k := x; }
    }
  }

  // ── A row of evictions ──────────────────────────────────────────────────────

  lemma EligibleOfRest(policy: EvictionPolicy, seen: Keys, gone: set<Key>)
    ensures EligibleIn(policy, seen - gone) == EligibleIn(policy, seen) - gone
    ensures EligibleIn(policy, seen) <= seen.Keys
  {
  }

  lemma OthersOfRest(policy: EvictionPolicy, seen: Keys, gone: set<Key>, now: u64, k: Key)
    requires k in seen && k !in gone
    ensures Lighter(policy, seen - gone, now, k) == Lighter(policy, seen, now, k) - gone
    ensures NotLighter(policy, seen - gone, now, k) == NotLighter(policy, seen, now, k) - gone
  {
    EligibleOfRest(policy, seen, gone);
    hide EligibleIn, Weight;
  }

  lemma {:induction false} GoesAt(policy: EvictionPolicy, sampleSize: nat, seen: Keys, now: u64, evicted: seq<Key>,
                                  t: nat)
    requires t < |evicted| && Goes(policy, sampleSize, seen, now, evicted)
    ensures MayGo(policy, sampleSize, seen - Listed(evicted[..t]), now, evicted[t])
    decreases |evicted|
  {
    hide MayGo, Listed;
    var n := |evicted| - 1;
    if t < n {
      GoesAt(policy, sampleSize, seen, now, evicted[..n], t);
      assert evicted[..n][..t] == evicted[..t];
    }
  }

  // ── What the weights mean ───────────────────────────────────────────────────

  ghost predicate Dead(e: Entry, now: u64) {
    e.expiresAt.Some? && e.expiresAt.value <= now
  }

  // Which of two candidates a policy prefers to lose: an expired one to any that is not,
  // then under the LRU policies the longer unused, under VolatileTtl the earlier deadline.
  // An entry last used at time 0 counts as old as an expired one.
  ghost predicate Sooner(policy: EvictionPolicy, a: Entry, b: Entry, now: u64) {
    !Dead(b, now) &&
    match policy
    case AllKeysLru => b.lastAccess > 0 && (Dead(a, now) || a.lastAccess < b.lastAccess)
    case VolatileLru => b.lastAccess > 0 && (Dead(a, now) || a.lastAccess < b.lastAccess)
    case VolatileTtl =>
      b.expiresAt.Some? && (Dead(a, now) || a.expiresAt.None? || a.expiresAt.value < b.expiresAt.value)
    case _ => false
  }

  lemma LighterIsSooner(policy: EvictionPolicy, a: Entry, b: Entry, now: u64)
    ensures Weight(policy, a, now) < Weight(policy, b, now) <==> Sooner(policy, a, b, now)
  {
  }

  // The keys a policy may take, spelled out.
  ghost function Candidates(policy: EvictionPolicy, seen: Keys): set<Key> {
    match policy
    case NoEviction => {}
    case AllKeysLru => seen.Keys
    case AllKeysRandom => seen.Keys
    case VolatileLru => set k | k in seen && seen[k].expiresAt.Some?
    case VolatileTtl => set k | k in seen && seen[k].expiresAt.Some?
  }

  lemma EligibleAreCandidates(policy: EvictionPolicy, seen: Keys)
    ensures EligibleIn(policy, seen) == Candidates(policy, seen) && Candidates(policy, seen) <= seen.Keys
  {
  }

  // The victim of a sample that covers the candidates, in terms of entries and time: of
  // the candidates, one than which no other goes sooner. The random policy takes any.
  lemma VictimIs(policy: EvictionPolicy, sampleSize: nat, seen: Keys, now: u64, k: Key)
    requires sampleSize >= 1 && |Candidates(policy, seen)| <= sampleSize
    ensures MayGo(policy, sampleSize, seen, now, k) <==>
      && k in Candidates(policy, seen) && k in seen
      && forall x :: x in Candidates(policy, seen) && x in seen ==> !Sooner(policy, seen[x], seen[k], now)
  {
    EligibleAreCandidates(policy, seen);
    hide EligibleIn, Candidates, MayGo, Weight, Sooner;
    MayGoIff(policy, sampleSize, seen, now, k);
    if k in Candidates(policy, seen) && k in seen {
      forall x | x in Candidates(policy, seen) && x in seen
        ensures Sooner(policy, seen[x], seen[k], now) <==> x in Lighter(policy, seen, now, k)
      {
        LighterIsSooner(policy, seen[x], seen[k], now);
      }
      EnoughAreLeft(policy, sampleSize, seen, now, k);
      if Lighter(policy, seen, now, k) != {} { var x :| x in Lighter(policy, seen, now, k); }
    }
  }

  // A sample that covers everything is not filled by the heavier ones alone, except that a
  // sample of one always is.
  lemma EnoughAreLeft(policy: EvictionPolicy, sampleSize: nat, seen: Keys, now: u64, k: Key)
    requires k in EligibleIn(policy, seen) && k in seen && |EligibleIn(policy, seen)| <= sampleSize
    ensures |NotLighter(policy, seen, now, k)| >= Want(policy, sampleSize) - 1 ==>
      Lighter(policy, seen, now, k) == {}
  {
    EligibleSplits(policy, seen, now, k);
    if policy.AllKeysRandom? { assert Lighter(policy, seen, now, k) == {}; }
    hide EligibleIn, Weight;
  }

  // With a sample of everything nothing goes before what goes sooner: neither before what
  // goes later nor before what stays.
  lemma LightestFirst(policy: EvictionPolicy, sampleSize: nat, seen: Keys, now: u64, evicted: seq<Key>, t: nat, x: Key)
    requires sampleSize >= 1 && |Candidates(policy, seen)| <= sampleSize
    requires Goes(policy, sampleSize, seen, now, evicted) && t < |evicted|
    requires x in Candidates(policy, seen) && x !in evicted[..t]
    ensures x in seen && evicted[t] in Candidates(policy, seen) && evicted[t] in seen
    ensures !Sooner(policy, seen[x], seen[evicted[t]], now)
  {
    var gone, k := Listed(evicted[..t]), evicted[t];
    GoesAt(policy, sampleSize, seen, now, evicted, t);
    EligibleAreCandidates(policy, seen);
    EligibleAreCandidates(policy, seen - gone);
    EligibleOfRest(policy, seen, gone);
    SubsetIsSmaller(Candidates(policy, seen - gone), Candidates(policy, seen));
    hide Weight, EligibleIn, MayGo, Goes, Want, Candidates, Sooner;
    VictimIs(policy, sampleSize, seen - gone, now, k);
    assert x in seen - gone;
  }

  // Evictions of which each could go, so far.
  ghost predicate Row(policy: EvictionPolicy, sampleSize: nat, seen: Keys, now: u64, evicted: seq<Key>) {
    Gone(policy, seen, seen - Listed(evicted), evicted) && Goes(policy, sampleSize, seen, now, evicted)
  }

  lemma RowMore(policy: EvictionPolicy, sampleSize: nat, seen: Keys, now: u64, evicted: seq<Key>, k: Key)
    requires sampleSize >= 1 && Row(policy, sampleSize, seen, now, evicted)
    requires MayGo(policy, sampleSize, seen - Listed(evicted), now, k)
    ensures Row(policy, sampleSize, seen, now, evicted + [k]) && k !in evicted
  {
    hide MayGo, Goes, Gone, Listed, Lighter, NotLighter;
    var left := seen - Listed(evicted);
    MayGoIff(policy, sampleSize, left, now, k);
    GoneMore(policy, seen, left, left - {k}, evicted, k);
    RemoveOneMore(seen, Listed(evicted), k);
    ListedMore(evicted, k);
    GoesMore(policy, sampleSize, seen, now, evicted, k);
  }

  // Some eligible key can go whenever there is one: the lightest.
  lemma SomeMayGo(policy: EvictionPolicy, sampleSize: nat, seen: Keys, now: u64) returns (k: Key)
    requires sampleSize >= 1 && EligibleIn(policy, seen) != {}
    ensures MayGo(policy, sampleSize, seen, now, k) && k in EligibleIn(policy, seen) && k in seen
    ensures Lighter(policy, seen, now, k) == {}
  {
    hide MayGo, Weight, EligibleIn;
    EligibleOfRest(policy, seen, {});
    k := Lightest(policy, seen, now, EligibleIn(policy, seen));
    MayGoIff(policy, sampleSize, seen, now, k);
  }

  // Whatever went first, evictions can go on until there is room or nothing left.
  lemma {:induction false} RoomFrom(policy: EvictionPolicy, sampleSize: nat, seen: Keys, now: u64, some: seq<Key>,
                                    needed: nat) returns (room: seq<Key>)
    requires sampleSize >= 1 && Row(policy, sampleSize, seen, now, some) && |some| <= needed
    ensures some <= room && Admissible(policy, sampleSize, seen, now, room, needed)
    decreases needed - |some|
  {
    hide Gone, Goes, MayGo, EligibleIn, Lighter, Listed;
    var left := seen - Listed(some);
    if |some| == needed || EligibleIn(policy, left) == {} {
      room := some;
    } else {
      var k := SomeMayGo(policy, sampleSize, left, now);
      RowMore(policy, sampleSize, seen, now, some, k);
      room := RoomFrom(policy, sampleSize, seen, now, some + [k], needed);
    }
  }

  // Taking the lightest each time reaches the key after all that are lighter.
  lemma {:induction false} RowTo(policy: EvictionPolicy, sampleSize: nat, seen: Keys, now: u64, some: seq<Key>, k: Key)
    returns (row: seq<Key>)
    requires sampleSize >= 1 && k in EligibleIn(policy, seen) && k in seen
    requires Row(policy, sampleSize, seen, now, some) && Listed(some) <= Lighter(policy, seen, now, k)
    ensures Row(policy, sampleSize, seen, now, row) && k in row && |row| <= |Lighter(policy, seen, now, k)| + 1
    decreases Lighter(policy, seen, now, k) - Listed(some)
  {
    hide Gone, Goes, MayGo, EligibleIn, Weight;
    var left := seen - Listed(some);
    assert k !in Lighter(policy, seen, now, k);
    OthersOfRest(policy, seen, Listed(some), now, k);
    EligibleOfRest(policy, seen, Listed(some));
    if Lighter(policy, left, now, k) == {} {
      MayGoIff(policy, sampleSize, left, now, k);
      RowMore(policy, sampleSize, seen, now, some, k);
      RowIsAsLarge(policy, sampleSize, seen, now, some);
      SubsetIsSmaller(Listed(some), Lighter(policy, seen, now, k));
      row := some + [k];
    } else {
      var y :| y in Lighter(policy, left, now, k);
      var x := SomeMayGo(policy, sampleSize, left, now);
      assert y !in Lighter(policy, left, now, x);
      RowMore(policy, sampleSize, seen, now, some, x);
      ListedMore(some, x);
      assert x in Lighter(policy, seen, now, k) - Listed(some);
      row := RowTo(policy, sampleSize, seen, now, some + [x], k);
    }
  }

  lemma RowIsAsLarge(policy: EvictionPolicy, sampleSize: nat, seen: Keys, now: u64, evicted: seq<Key>)
    requires Row(policy, sampleSize, seen, now, evicted)
    ensures |Listed(evicted)| == |evicted|
  {
    DistinctIsAsLarge(evicted, Listed(evicted));
  }

  lemma {:induction false} ListedIsSmall(keys: seq<Key>)
    ensures |Listed(keys)| <= |keys|
    decreases |keys|
  {
    if keys != [] {
      var n := |keys| - 1;
      ListedIsSmall(keys[..n]);
      assert keys == keys[..n] + [keys[n]];
      ListedMore(keys[..n], keys[n]);
    }
  }

  // ── What can go at all ──────────────────────────────────────────────────────

  // Fewer keys are lighter than are to go, or enough are not to fill a sample.
  ghost predicate InReach(policy: EvictionPolicy, sampleSize: nat, seen: Keys, now: u64, needed: nat, k: Key) {
    && needed > 0 && k in EligibleIn(policy, seen) && k in seen
    && (|Lighter(policy, seen, now, k)| < needed || |NotLighter(policy, seen, now, k)| >= Want(policy, sampleSize) - 1)
  }

  // Making room can take a key iff the key is in reach.
  lemma EvictableIff(policy: EvictionPolicy, sampleSize: nat, seen: Keys, now: u64, needed: nat, k: Key)
    requires sampleSize >= 1
    ensures (exists room :: Admissible(policy, sampleSize, seen, now, room, needed) && k in room) <==>
      InReach(policy, sampleSize, seen, now, needed, k)
  {
    hide Admissible, InReach;
    if exists room :: Admissible(policy, sampleSize, seen, now, room, needed) && k in room {
      var room :| Admissible(policy, sampleSize, seen, now, room, needed) && k in room;
      var t :| 0 <= t < |room| && room[t] == k;
      EvictedWasInReach(policy, sampleSize, seen, now, needed, room, t);
    }
    if InReach(policy, sampleSize, seen, now, needed, k) {
      var room := InReachIsEvictable(policy, sampleSize, seen, now, needed, k);
    }
  }

  lemma EvictedWasInReach(policy: EvictionPolicy, sampleSize: nat, seen: Keys, now: u64, needed: nat, room: seq<Key>,
                          t: nat)
    requires sampleSize >= 1 && Admissible(policy, sampleSize, seen, now, room, needed) && t < |room|
    ensures InReach(policy, sampleSize, seen, now, needed, room[t])
  {
    hide Gone, MayGo, EligibleIn, Weight, Want, Goes, Lighter, NotLighter;
    var gone, k := Listed(room[..t]), room[t];
    GoesAt(policy, sampleSize, seen, now, room, t);
    MayGoIff(policy, sampleSize, seen - gone, now, k);
    EligibleOfRest(policy, seen, gone);
    OthersOfRest(policy, seen, gone, now, k);
    if |NotLighter(policy, seen - gone, now, k)| >= Want(policy, sampleSize) - 1 {
      SubsetIsSmaller(NotLighter(policy, seen - gone, now, k), NotLighter(policy, seen, now, k));
    } else {
      forall x | x in Lighter(policy, seen, now, k) ensures x in gone {
        assert x !in Lighter(policy, seen, now, k) - gone;
      }
      SubsetIsSmaller(Lighter(policy, seen, now, k), gone);
      ListedIsSmall(room[..t]);
    }
  }

  lemma InReachIsEvictable(policy: EvictionPolicy, sampleSize: nat, seen: Keys, now: u64, needed: nat, k: Key)
    returns (room: seq<Key>)
    requires sampleSize >= 1 && InReach(policy, sampleSize, seen, now, needed, k)
    ensures Admissible(policy, sampleSize, seen, now, room, needed) && k in room
  {
    hide MayGo, EligibleIn, Weight, Lighter, NotLighter, Admissible;
    NothingListed(seen);
    NothingGone(policy, seen);
    var row: seq<Key>;
    if |NotLighter(policy, seen, now, k)| >= Want(policy, sampleSize) - 1 {
      MayGoIff(policy, sampleSize, seen, now, k);
      RowMore(policy, sampleSize, seen, now, [], k);
      row := [] + [k];
      assert row[0] == k;
    } else {
      row := RowTo(policy, sampleSize, seen, now, [], k);
    }
    hide Row, Want;
    room := RoomFrom(policy, sampleSize, seen, now, row, needed);
    var t :| 0 <= t < |row| && row[t] == k;
    assert room[t] == k;
  }
}
