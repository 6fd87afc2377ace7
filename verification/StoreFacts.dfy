/** Consequences for whole commands: what stays, what is counted, and what the key cap caps. */
module StoreFacts {
  import opened Bytes
  import opened Keyspace
  import opened Store
  import opened Eviction
  import Commands
  import Decimal
  import Json
  import RateLimiter

  type Key = Keyspace.Key

  // ── Frame of a whole command ────────────────────────────────────────────────

  // With evictions and rollback included: a key that is neither in the scope nor
  // reported as evicted keeps its entry.
  lemma CommandFrame(policy: EvictionPolicy, maxKeys: Option<nat>, before: Keys, cmd: Command, now: u64,
                     room: seq<Key>, evicted: seq<Key>, after: Keys, reply: Reply, k: Key)
    requires Completes(policy, maxKeys, before, cmd, now, room, evicted, after, reply)
    requires MutationScope(cmd).Touches? && k !in MutationScope(cmd).keys && k !in evicted
    ensures Unchanged(before, after, k)
  {
    hide Effect, RoomNeeded, MutationScope, Executed, Gone, Listed;
    var more := evicted[|room|..];
    assert evicted == room + more;
    GoneKeeps(policy, before, before - Listed(room), room, k);
    ExecutedWithinScope(before, cmd, maxKeys, room, now);
    GoneKeeps(policy, Executed(before, cmd, maxKeys, room, now).0, after, more, k);
  }

  lemma GoneKeeps(policy: EvictionPolicy, before: Keys, after: Keys, evicted: seq<Key>, k: Key)
    requires Gone(policy, before, after, evicted) && k !in evicted
    ensures Unchanged(before, after, k)
  {
  }

  // Every reported eviction took a key that was there, or that the command had written.
  lemma EvictionsAreReal(policy: EvictionPolicy, maxKeys: Option<nat>, before: Keys, cmd: Command, now: u64,
                         room: seq<Key>, evicted: seq<Key>, after: Keys, reply: Reply, k: Key)
    requires Completes(policy, maxKeys, before, cmd, now, room, evicted, after, reply)
    requires MutationScope(cmd).Touches? && k in evicted
    ensures k in before || k in MutationScope(cmd).keys
    ensures k !in room ==> k !in after
  {
    hide Effect, RoomNeeded, MutationScope, Executed;
    var more := evicted[|room|..];
    assert evicted == room + more;
    if k !in room && k !in MutationScope(cmd).keys {
      ExecutedWithinScope(before, cmd, maxKeys, room, now);
      assert Unchanged(before - Listed(room), Executed(before, cmd, maxKeys, room, now).0, k);
    }
  }

  // ── Accounting ──────────────────────────────────────────────────────────────

  lemma {:induction false} OverlookedIff(before: Keys, out: set<Key>, keys: seq<Key>)
    requires out <= before.Keys
    ensures Overlooked(before, out, keys) == 0 <==> forall k :: k in keys ==> k !in out
    decreases |keys|
  {
    if keys != [] {
      OverlookedIff(before, out, keys[1..]);
      assert keys == [keys[0]] + keys[1..];
      assert keys[0] in keys;
    }
  }

  // A command falls short by nothing iff it touches no key that is out of the byte
  // total: one it evicted itself, or one that a rollback left out.
  lemma UncountedIff(before: Keys, cmd: Command, out: set<Key>)
    requires MutationScope(cmd).Touches? && out <= before.Keys
    ensures Uncounted(before, cmd, out) == 0 <==> forall k :: k in MutationScope(cmd).keys ==> k !in out
  {
    hide MutationScope, Deduped, Overlooked;
    OverlookedIff(before, out, Deduped(MutationScope(cmd).keys));
    DedupedKeepsKeys(MutationScope(cmd).keys);
  }

  // Only MSET can evict a key it touches, and only when it writes an existing key
  // beside more new keys than the cap has room for.
  lemma OnlyCrowdedMSetMiscounts(before: Keys, cmd: Command, maxKeys: Option<nat>, room: seq<Key>)
    requires |room| <= RoomNeeded(before, cmd, maxKeys) && forall k :: k in room ==> k in before
    requires Uncounted(before, cmd, Listed(room)) > 0
    ensures cmd.MSet? && maxKeys.Some?
    ensures SatSub(maxKeys.value, |before|) < CountNew(before, cmd.pairs)
    ensures exists i :: 0 <= i < |cmd.pairs| && cmd.pairs[i].0 in before && cmd.pairs[i].0 in room
  {
    if MutationScope(cmd).Touches? {
      UncountedIff(before, cmd, Listed(room));
      var k :| k in MutationScope(cmd).keys && k in room;
      if cmd.MSet? {
        var i :| 0 <= i < |cmd.pairs| && PairKeys(cmd.pairs)[i] == k;
        assert cmd.pairs[i].0 in before;
      }
    }
  }

  // An MSET may evict a key it writes.
  ghost predicate MayMiscount(policy: EvictionPolicy, sampleSize: nat, maxKeys: Option<nat>, before: Keys,
                              forgotten: set<Key>, cmd: Command, now: u64, room: seq<Key>)
  {
    Admissible(policy, sampleSize, before - forgotten, now, room, RoomNeeded(before, cmd, maxKeys)) &&
    Uncounted(before, cmd, Listed(room)) > 0
  }

  // It may whenever it names a key that making room can reach, and only then.
  lemma MSetMayMiscountIff(policy: EvictionPolicy, sampleSize: nat, maxKeys: Option<nat>, before: Keys,
                           forgotten: set<Key>, pairs: seq<(Key, bytes)>, now: u64)
    requires sampleSize >= 1
    ensures (exists room :: MayMiscount(policy, sampleSize, maxKeys, before, forgotten, MSet(pairs), now, room)) <==>
      exists i :: 0 <= i < |pairs| && InReach(policy, sampleSize, before - forgotten, now,
                                              RoomNeeded(before, MSet(pairs), maxKeys), pairs[i].0)
  {
    hide InReach, MayMiscount, RoomNeeded;
    var cmd, seen := MSet(pairs), before - forgotten;
    var needed := RoomNeeded(before, cmd, maxKeys);
    if exists room :: MayMiscount(policy, sampleSize, maxKeys, before, forgotten, cmd, now, room) {
      var room :| MayMiscount(policy, sampleSize, maxKeys, before, forgotten, cmd, now, room);
      var i := MiscountingNames(policy, sampleSize, maxKeys, before, forgotten, pairs, now, room);
      EvictableIff(policy, sampleSize, seen, now, needed, pairs[i].0);
    }
    if exists i :: 0 <= i < |pairs| && InReach(policy, sampleSize, seen, now, needed, pairs[i].0) {
      var i :| 0 <= i < |pairs| && InReach(policy, sampleSize, seen, now, needed, pairs[i].0);
      EvictableIff(policy, sampleSize, seen, now, needed, pairs[i].0);
      var room :| Admissible(policy, sampleSize, seen, now, room, needed) && pairs[i].0 in room;
      NamingMiscounts(policy, sampleSize, maxKeys, before, forgotten, pairs, now, room, i);
    }
  }

  lemma MiscountingNames(policy: EvictionPolicy, sampleSize: nat, maxKeys: Option<nat>, before: Keys,
                         forgotten: set<Key>, pairs: seq<(Key, bytes)>, now: u64, room: seq<Key>) returns (i: nat)
    requires MayMiscount(policy, sampleSize, maxKeys, before, forgotten, MSet(pairs), now, room)
    ensures i < |pairs| && pairs[i].0 in room
    ensures Admissible(policy, sampleSize, before - forgotten, now, room, RoomNeeded(before, MSet(pairs), maxKeys))
  {
    hide Uncounted, Goes, RoomNeeded;
    UncountedIff(before, MSet(pairs), Listed(room));
    var k :| k in PairKeys(pairs) && k in room;
    i :| 0 <= i < |pairs| && PairKeys(pairs)[i] == k;
  }

  lemma NamingMiscounts(policy: EvictionPolicy, sampleSize: nat, maxKeys: Option<nat>, before: Keys,
                        forgotten: set<Key>, pairs: seq<(Key, bytes)>, now: u64, room: seq<Key>, i: nat)
    requires Admissible(policy, sampleSize, before - forgotten, now, room, RoomNeeded(before, MSet(pairs), maxKeys))
    requires i < |pairs| && pairs[i].0 in room
    ensures MayMiscount(policy, sampleSize, maxKeys, before, forgotten, MSet(pairs), now, room)
  {
    hide Uncounted, Goes, RoomNeeded;
    UncountedIff(before, MSet(pairs), Listed(room));
    var k := pairs[i].0;
    assert PairKeys(pairs)[i] == k && k in MutationScope(MSet(pairs)).keys && k in Listed(room);
  }

  lemma CountNewOfOne(before: Keys, b: Key, y: bytes)
    requires b !in before
    ensures CountNew(before, [(b, y)]) == 1
  {
    assert [(b, y)][1..] == [];
  }

  // The smallest case: a cap of one key, which holds a, and MSET a x b y. The only
  // possible victim is a itself; it is subtracted twice, and two keys remain.
  lemma MSetEvictsItsOwnKey(before: Keys, a: Key, x: bytes, b: Key, y: bytes, policy: EvictionPolicy,
                            room: seq<Key>, now: u64)
    requires before.Keys == {a} && a != b
    requires Gone(policy, before, before - Listed(room), room) && |room| == 1
    ensures var cmd := MSet([(a, x), (b, y)]);
      && RoomNeeded(before, cmd, Some(1)) == 1
      && Uncounted(before, cmd, Listed(room)) == EntrySize(a, before[a])
      && |Executed(before, cmd, Some(1), room, now).0| == 2
  {
    var pairs := [(a, x), (b, y)];
    var tail := pairs[1..];
    assert |before| == |before.Keys| == 1;
    CountNewOfOne(before, b, y);
    assert tail == [(b, y)];
    assert CountNew(before, pairs) == 1;
    assert room[0] in room && room[0] == a;
    assert room == [a];
    var keys := PairKeys(pairs);
    var others := keys[1..];
    assert keys == [a, b] && others == [b] && |others[1..]| == 0;
    assert Deduped(others) == [b];
    assert Deduped(keys) == [a] + [b] == keys;
    assert Listed(room) == {a} && Overlooked(before, {a}, others) == 0;
    var first := (before - Listed(room))[a := Entry(Str(x), None, now)];
    assert tail[1..] == [];
    assert MSetEffect(first, tail, now) == first[b := Entry(Str(y), None, now)];
    assert MSetEffect(first, tail, now).Keys == {a, b};
  }

  // ── The key cap ─────────────────────────────────────────────────────────────

  // The new keys among those a command names, and those of its own it evicted.
  ghost function NewNames(before: Keys, pairs: seq<(Key, bytes)>): set<Key> {
    set k | k in PairKeys(pairs) && k !in before
  }

  ghost function OwnEvicted(pairs: seq<(Key, bytes)>, room: seq<Key>): set<Key> {
    set k | k in PairKeys(pairs) && k in room
  }

  function AtMost(cap: nat, keys: nat): nat { if keys > cap then keys else cap }

  // SET never takes a store above its key cap, or further above it. MSET does iff it made
  // room and evicted more of its own keys than it named new ones a second time.
  lemma KeyCapHoldsIff(before: Keys, cmd: Command, cap: nat, room: seq<Key>, now: u64)
    requires cmd.SetKey? || cmd.MSet?
    requires Distinct(room) && |room| <= RoomNeeded(before, cmd, Some(cap)) && forall k :: k in room ==> k in before
    ensures |Executed(before, cmd, Some(cap), room, now).0| <= AtMost(cap, |before|) <==>
      (cmd.MSet? && |room| == RoomNeeded(before, cmd, Some(cap)) ==>
        |OwnEvicted(cmd.pairs, room)| <= CountNew(before, cmd.pairs) - |NewNames(before, cmd.pairs)|)
  {
    var mid := before - Listed(room);
    RowIsGone(before, room);
    if cmd.SetKey? {
      SetAddsOne(mid, cmd, now);
    } else {
      NewAreCounted(before, cmd.pairs);
      MSetAdds(before, cmd.pairs, room, now);
    }
    hide Effect, CountNew, NewNames, OwnEvicted, Listed;
  }

  // No more room is made than that: SET makes some only for a new key in a full store, and
  // an MSET that made room ends at the cap, or where it was above it, less what it counted
  // twice and more what it evicted of its own.
  lemma RoomIsNotExcessive(before: Keys, cmd: Command, cap: nat, room: seq<Key>, now: u64)
    requires Distinct(room) && 0 < |room| <= RoomNeeded(before, cmd, Some(cap)) && forall k :: k in room ==> k in before
    ensures cmd.SetKey? || cmd.MSet?
    ensures cmd.SetKey? ==> |room| == 1 && cmd.key !in before && |before| >= cap
    ensures cmd.MSet? && |room| == RoomNeeded(before, cmd, Some(cap)) ==>
      |Executed(before, cmd, Some(cap), room, now).0| + CountNew(before, cmd.pairs) - |NewNames(before, cmd.pairs)| ==
        AtMost(cap, |before|) + |OwnEvicted(cmd.pairs, room)|
  {
    RowIsGone(before, room);
    if cmd.MSet? { MSetAdds(before, cmd.pairs, room, now); }
    hide Effect, CountNew, NewNames, OwnEvicted, Listed;
  }

  // The room is made before SET looks at its options, so a SET that does not write has
  // evicted a key for nothing.
  lemma SetEvictsForNothingIff(before: Keys, cmd: Command, cap: nat, room: seq<Key>, now: u64)
    requires cmd.SetKey? && |room| == RoomNeeded(before, cmd, Some(cap)) == 1
    ensures Executed(before, cmd, Some(cap), room, now).0 == before - Listed(room) <==>
      !Commands.SetMayWrite(before, cmd.key, cmd.opts, now)
  {
    var mid := before - Listed(room);
    Commands.SetObeysItsOptions(mid, cmd.key, cmd.val, cmd.opts, now);
    assert cmd.key !in mid && cmd.key !in before;
    hide Effect, Listed;
  }

  lemma RowIsGone(before: Keys, room: seq<Key>)
    requires Distinct(room) && forall k :: k in room ==> k in before
    ensures |before - Listed(room)| == |before| - |room| && Listed(room) <= before.Keys
  {
    DistinctIsAsLarge(room, Listed(room));
    assert before.Keys == (before - Listed(room)).Keys + Listed(room);
    assert (before - Listed(room)).Keys !! Listed(room);
  }

  lemma SetAddsOne(data: Keys, cmd: Command, now: u64)
    requires cmd.SetKey?
    ensures var after := Effect(data, cmd, now).0;
      |after| <= |data| + (if cmd.key in data then 0 else 1) && Effect(data, cmd, now).1 != MaxKeysReached
  {
    hide RateLimiter.Check, Json.MergePatch, Decimal.ParseI64, Decimal.Format, PutFields, Kept, Sources, TakeMember;
    hide DelEffect, MSetEffect, SatAdd, SatMul;
    var after := Effect(data, cmd, now).0;
    if after != data { OneKeyMore(data, cmd.key, after[cmd.key]); }
  }

  lemma OneKeyMore(data: Keys, key: Key, e: Entry)
    ensures |data[key := e]| == |data| + if key in data then 0 else 1
  {
    assert data[key := e].Keys == data.Keys + {key};
    assert key in data ==> data.Keys + {key} == data.Keys;
  }

  lemma MSetAdds(before: Keys, pairs: seq<(Key, bytes)>, room: seq<Key>, now: u64)
    requires Listed(room) <= before.Keys
    ensures |Effect(before - Listed(room), MSet(pairs), now).0| ==
      |before - Listed(room)| + |NewNames(before, pairs)| + |OwnEvicted(pairs, room)|
  {
    var mid := before - Listed(room);
    var fresh_, own := NewNames(before, pairs), OwnEvicted(pairs, room);
    assert mid.Keys !! fresh_ && mid.Keys + fresh_ !! own;
    forall k ensures k in Effect(mid, MSet(pairs), now).0 <==> k in mid || k in PairKeys(pairs) {
      MSetKeys(mid, pairs, now, k);
    }
    hide MSetEffect, Listed;
    ThreeParts(Effect(mid, MSet(pairs), now).0.Keys, mid.Keys, fresh_, own);
  }

  lemma ThreeParts(all: set<Key>, a: set<Key>, b: set<Key>, c: set<Key>)
    requires forall k :: k in all <==> k in a || k in b || k in c
    requires a !! b && a + b !! c
    ensures |all| == |a| + |b| + |c|
  {
    assert all == a + b + c;
  }

  lemma {:induction false} MSetKeys(data: Keys, pairs: seq<(Key, bytes)>, now: u64, k: Key)
    ensures k in MSetEffect(data, pairs, now) <==> k in data || k in PairKeys(pairs)
    decreases |pairs|
  {
    if pairs != [] {
      MSetKeys(data[pairs[0].0 := Entry(Str(pairs[0].1), None, now)], pairs[1..], now, k);
      assert PairKeys(pairs) == [pairs[0].0] + PairKeys(pairs[1..]);
    }
  }

  // Every new name is counted once for each time it is given.
  lemma {:induction false} NewAreCounted(before: Keys, pairs: seq<(Key, bytes)>)
    ensures |NewNames(before, pairs)| <= CountNew(before, pairs)
    decreases |pairs|
  {
    if pairs != [] {
      var k := pairs[0].0;
      NewAreCounted(before, pairs[1..]);
      assert PairKeys(pairs) == [k] + PairKeys(pairs[1..]);
      var more := NewNames(before, pairs[1..]);
      assert NewNames(before, pairs) == if k in before then more else more + {k};
    } else {
      assert NewNames(before, pairs) == {};
    }
  }

  // A write is refused for the key cap iff the room it needs could not be made.
  lemma MaxKeysReachedIff(before: Keys, cmd: Command, maxKeys: Option<nat>, room: seq<Key>, now: u64)
    ensures Executed(before, cmd, maxKeys, room, now).1 == MaxKeysReached <==> |room| < RoomNeeded(before, cmd, maxKeys)
  {
    hide RateLimiter.Check, Json.MergePatch, Decimal.ParseI64, Decimal.Format, PutFields, Kept, Sources, TakeMember;
    hide RoomNeeded, DelEffect, MSetEffect;
  }

  // Commands that make a key without asking for room: with a key that is not there they add
  // one, however full the store is.
  predicate MakesKey(cmd: Command, key: Key) {
    match cmd
    case IncrBy(k, _) => k == key
    case HSet(k, _) => k == key
    case RlSet(k, _, _) => k == key
    case RlCheck(k, config) => k == key && config.Some?
    case JMerge(k, patch) => k == key && patch != Json.Null
    case SInterStore(dst, sources) => dst == key && sources == []
    case _ => false
  }

  lemma MakesOneEntry(before: Keys, cmd: Command, key: Key, now: u64) returns (e: Entry)
    requires key !in before && MakesKey(cmd, key)
    ensures Effect(before, cmd, now).0 == before[key := e]
  {
    ZeroIsANumber();
    hide RateLimiter.Check, Json.MergePatch, Decimal.ParseI64, Decimal.Format, PutFields, Kept, Sources, TakeMember;
    hide DelEffect, MSetEffect, SetEffect, SMoveEffect, RenameEffect, CountMissing;
    if cmd.SInterStore? { NoSources(before, now); }
    e := Effect(before, cmd, now).0[key];
  }

  lemma NoSources(data: Keys, now: u64)
    ensures Sources(data, [], now) == Some([])
  {
  }

  lemma OthersPassTheKeyCap(before: Keys, cmd: Command, key: Key, cap: nat, now: u64)
    requires key !in before && MakesKey(cmd, key)
    ensures RoomNeeded(before, cmd, Some(cap)) == 0
    ensures |Executed(before, cmd, Some(cap), [], now).0| == |before| + 1
  {
    hide Effect;
    NothingListed(before);
    var e := MakesOneEntry(before, cmd, key, now);
    OneKeyMore(before, key, e);
  }

  lemma ZeroIsANumber()
    ensures Decimal.ParseI64([Decimal.ZERO]) == Some(0)
  {
    Decimal.DigitsRoundTrip(0);
    assert Decimal.Digits(0) == [Decimal.ZERO];
  }

  // ── The memory mark ─────────────────────────────────────────────────────────

  // Memory eviction aims at fifteen sixteenths of the cap, rounded up.
  lemma LowWaterIs(limit: nat)
    ensures 15 * limit <= 16 * LowWater(limit) < 15 * limit + 16
  {
  }
}
