/**
 The store: a map of entries shadowed by key metadata and a byte total, with
 capacity eviction and rollback around every command.

 `Shadowed` says the metadata names exactly the keys of the map, and those with a
 TTL; `Accounted` says the byte total is the sum of the entry sizes. Each command is
 one atomic step at a given time; random sampling is an arbitrary choice.
 */
module Store {
  import opened Bytes
  import opened Keyspace
  import opened KeyIndex
  import Expiry

  datatype EvictionPolicy = NoEviction | AllKeysLru | AllKeysRandom | VolatileLru | VolatileTtl

  const EVICTION_HEADROOM_DIVISOR: nat := 16

  type Key = Keyspace.Key

  function SatSub(a: nat, b: nat): nat { if a < b then 0 else a - b }

  // A byte total after what was measured as `before` has become `after`.
  function Adjusted(memory: nat, before: nat, after: nat): nat {
    if after >= before then memory + (after - before) else SatSub(memory, before - after)
  }

  ghost function VolatileKeys(data: Keys): set<Key> {
    set k | k in data && data[k].expiresAt.Some?
  }

  ghost function Listed(keys: seq<Key>): set<Key> {
    set k | k in keys
  }

  predicate IsVolatile(policy: EvictionPolicy) {
    policy.VolatileLru? || policy.VolatileTtl?
  }

  // What a policy compares: the smaller goes first.
  function Weight(policy: EvictionPolicy, e: Entry, now: u64): nat {
    if IsExpired(e, now) then 0
    else
      match policy
      case NoEviction => 0
      case AllKeysRandom => 0
      case AllKeysLru => e.lastAccess
      case VolatileLru => e.lastAccess
      case VolatileTtl => if e.expiresAt.Some? then e.expiresAt.value else 0
  }

  // A random sample, without repetition, of `take` positions below n.
  predicate IsSample(positions: set<nat>, n: nat, take: nat) {
    (forall p: nat :: p in positions ==> p < n) && |positions| == take
  }

  lemma {:induction false} SampleExists(n: nat, take: nat) returns (positions: set<nat>)
    requires take <= n
    ensures IsSample(positions, n, take)
    decreases take
  {
    if take == 0 {
      positions := {};
    } else {
      positions := SampleExists(n - 1, take - 1);
      assert n - 1 !in positions;
      positions := positions + {n - 1};
    }
  }

  function UpTo(n: nat): (s: set<nat>)
    ensures |s| == n && forall p: nat :: p in s <==> p < n
  {
    if n == 0 then {} else UpTo(n - 1) + {n - 1}
  }

  lemma FullSample(positions: set<nat>, n: nat)
    requires IsSample(positions, n, n)
    ensures forall p: nat :: p < n ==> p in positions
  {
    forall p: nat | p < n ensures p in positions {
      if p !in positions {
        SubsetIsSmaller(positions, UpTo(n) - {p});
      }
    }
  }

  lemma {:induction false} SubsetIsSmaller<T>(a: set<T>, b: set<T>)
    requires a <= b
    ensures |a| <= |b|
    decreases |a|
  {
    if a != {} {
      var x :| x in a;
      SubsetIsSmaller(a - {x}, b - {x});
    }
  }

  // How many keys a policy draws before it takes the least of them.
  function Want(policy: EvictionPolicy, sample: nat): nat {
    if policy.AllKeysRandom? then 1 else sample
  }

  ghost predicate SampleOf(sample: set<Key>, keys: set<Key>, want: nat) {
    sample <= keys && |sample| == if want < |keys| then want else |keys|
  }

  ghost predicate LeastOf(policy: EvictionPolicy, data: Keys, now: u64, sample: set<Key>, k: Key) {
    && k in sample && sample <= data.Keys
    && forall x :: x in sample ==> Weight(policy, data[k], now) <= Weight(policy, data[x], now)
  }

  // The key is the least of some sample of the eligible ones.
  ghost predicate MayGo(policy: EvictionPolicy, sampleSize: nat, seen: Keys, now: u64, k: Key) {
    exists sample ::
      SampleOf(sample, EligibleIn(policy, seen), Want(policy, sampleSize)) && LeastOf(policy, seen, now, sample, k)
  }

  // A row of evictions, each of which might have gone next.
  ghost predicate Goes(policy: EvictionPolicy, sampleSize: nat, seen: Keys, now: u64, evicted: seq<Key>) {
    if evicted == [] then true
    else
      var n := |evicted| - 1;
      Goes(policy, sampleSize, seen, now, evicted[..n]) &&
      MayGo(policy, sampleSize, seen - Listed(evicted[..n]), now, evicted[n])
  }

  lemma GoesMore(policy: EvictionPolicy, sampleSize: nat, seen: Keys, now: u64, evicted: seq<Key>, k: Key)
    requires Goes(policy, sampleSize, seen, now, evicted)
    requires MayGo(policy, sampleSize, seen - Listed(evicted), now, k)
    ensures Goes(policy, sampleSize, seen, now, evicted + [k])
  {
    hide MayGo, Listed;
    assert (evicted + [k])[..|evicted|] == evicted;
  }

  ghost function KeysAt(source: seq<Key>, positions: set<nat>): set<Key>
    requires forall p: nat :: p in positions ==> p < |source|
  {
    set p | p in positions :: source[p]
  }

  lemma {:induction false} KeysAtCount(source: seq<Key>, positions: set<nat>)
    requires forall p: nat :: p in positions ==> p < |source|
    requires forall i, j :: 0 <= i < j < |source| ==> source[i] != source[j]
    ensures |KeysAt(source, positions)| == |positions|
    decreases |positions|
  {
    if positions != {} {
      var p: nat :| p in positions;
      KeysAtCount(source, positions - {p});
      assert KeysAt(source, positions) == KeysAt(source, positions - {p}) + {source[p]};
      forall q: nat | q in positions - {p} ensures source[q] != source[p] {}
    }
  }

  lemma SampleByPositions(source: seq<Key>, positions: set<nat>, want: nat)
    requires IsSample(positions, |source|, if want < |source| then want else |source|)
    requires forall i, j :: 0 <= i < j < |source| ==> source[i] != source[j]
    ensures SampleOf(KeysAt(source, positions), Listed(source), want)
  {
    KeysAtCount(source, positions);
    DistinctIsAsLarge(source, Listed(source));
  }

  // What is least by the whole map is least by the part of it the metadata names.
  lemma ChosenFromSeen(policy: EvictionPolicy, sampleSize: nat, data: Keys, seen: Keys, now: u64, sample: set<Key>,
                       k: Key)
    requires seen.Keys <= data.Keys && forall x :: x in seen ==> seen[x] == data[x]
    requires SampleOf(sample, EligibleIn(policy, seen), Want(policy, sampleSize))
    requires LeastOf(policy, data, now, sample, k)
    ensures MayGo(policy, sampleSize, seen, now, k) && k in EligibleIn(policy, seen)
  {
    hide Weight;
    assert LeastOf(policy, seen, now, sample, k);
  }

  class KeyValueStore {
    var data: Keys
    var memoryBytes: nat
    var evictedCount: nat
    var expiryCursor: nat
    ghost var forgotten: set<Key>
    const index: Index
    const maxKeys: Option<nat>
    const maxMemory: Option<nat>
    const policy: EvictionPolicy
    const evictionSample: nat

    ghost predicate Owns()
      reads index, index.all, index.volatile
    {
      index.Valid() && evictionSample >= 1
    }

    // The entries the metadata names: all but those a rollback left out.
    ghost function Seen(): Keys
      reads this`data, this`forgotten
    {
      data - forgotten
    }

    ghost predicate Shadowed()
      reads this`data, this`forgotten, index, index.all, index.volatile
    {
      IndexShadows(Seen()) && forgotten <= data.Keys
    }

    ghost predicate IndexShadows(keys: Keys)
      reads index, index.all, index.volatile
    {
      Owns() && index.all.Members() == keys.Keys && index.volatile.Members() == VolatileKeys(keys)
    }

    // By how much the byte total falls short of the entries the metadata names.
    ghost function Short(): int
      reads this`data, this`forgotten, this`memoryBytes
    {
      Total(Seen()) - memoryBytes
    }

    ghost predicate Accounted()
      reads this`data, this`memoryBytes
    {
      memoryBytes == Total(data)
    }

    // What a store is, after any run, at a time that does not go backwards.
    ghost predicate Valid(now: u64)
      reads this`data, this`forgotten, this`memoryBytes, index, index.all, index.volatile
    {
      Shadowed() && Short() >= 0 && forgotten <= ExpiredKeys(data, now)
    }

    // What has expired stays expired.
    lemma ValidLater(now: u64, later: u64)
      requires Valid(now) && now <= later
      ensures Valid(later)
    {
      hide KeyValueStore.Shadowed, KeyValueStore.Short;
      assert ExpiredKeys(data, now) <= ExpiredKeys(data, later);
    }

    constructor (maxKeys: Option<nat>, maxMemory: Option<nat>, policy: EvictionPolicy, evictionSample: nat)
      requires evictionSample >= 1
      ensures data == map[] && memoryBytes == 0 && forgotten == {} && expiryCursor == 0
      ensures Accounted() && forall now: u64 :: Valid(now)
      ensures this.maxKeys == maxKeys && this.maxMemory == maxMemory && this.policy == policy
      ensures fresh(index) && fresh(index.all) && fresh(index.volatile)
    {
      data, memoryBytes, evictedCount, expiryCursor, forgotten := map[], 0, 0, 0, {};
      index := new Index();
      this.maxKeys, this.maxMemory, this.policy, this.evictionSample := maxKeys, maxMemory, policy, evictionSample;
    }

    // ── Bookkeeping ───────────────────────────────────────────────────────────

    method AdjustMemory(before: nat, after: nat)
      modifies this`memoryBytes
      ensures memoryBytes == Adjusted(old(memoryBytes), before, after)
    {
      if after >= before {
        memoryBytes := memoryBytes + (after - before);
      } else {
        memoryBytes := SatSub(memoryBytes, before - after);
      }
    }

    // An expired entry that is still in the map keeps its place in the metadata.
    method SyncKeyMetadata(key: Key)
      requires index.Valid()
      modifies index, index.all, index.volatile
      ensures index.Valid()
      ensures index.all.Members() ==
        if key in data then old(index.all.Members()) + {key} else old(index.all.Members()) - {key}
      ensures index.volatile.Members() ==
        if key in data && data[key].expiresAt.Some? then old(index.volatile.Members()) + {key}
        else old(index.volatile.Members()) - {key}
      ensures index.volatile.Members() == old(index.volatile.Members()) ==>
        index.volatile.keys == old(index.volatile.keys)
    {
      index.Sync(key, if key in data then Some(data[key].expiresAt.Some?) else None);
    }

    // Metadata from scratch, over the entries that have not expired.
    method RebuildMetadata(now: u64)
      requires Owns()
      modifies this`memoryBytes, index, index.all, index.volatile
      ensures Owns()
      ensures index.all.Members() == Unexpired(data, now).Keys
      ensures index.volatile.Members() == VolatileKeys(Unexpired(data, now))
      ensures memoryBytes == Total(Unexpired(data, now))
    {
      hide Total;
      index.Clear();
      var todo := data;
      var memory := 0;
      ghost var done: Keys := map[];
      NothingUnexpired(now);
      while todo != map[]
        invariant Owns() && RestOf(data, todo, done)
        invariant index.all.Members() == Unexpired(done, now).Keys
        invariant index.volatile.Members() == VolatileKeys(Unexpired(done, now))
        invariant memory == Total(Unexpired(done, now))
        decreases |todo|
      {
        hide Unexpired, VolatileKeys, IsExpired, EntrySize, RestOf;
        var k :| k in todo;
        var e := todo[k];
        TakeOne(data, todo, done, k);
        RebuildOne(done, k, e, now);
        if !IsExpired(e, now) {
          index.Sync(k, Some(e.expiresAt.Some?));
          memory := memory + EntrySize(k, e);
        }
        done := done[k := e];
        todo := todo - {k};
      }
      assert done == data;
      memoryBytes := memory;
    }

    // ── Eviction ──────────────────────────────────────────────────────────────

    // The keys the policy may choose from.
    ghost function Eligible(): set<Key>
      reads this`data, this`forgotten
    {
      EligibleIn(policy, Seen())
    }

    // The least of a random sample by the policy's weight.
    method ChooseVictim(source: seq<Key>, now: u64) returns (victim: Option<Key>, ghost sample: set<Key>)
      requires evictionSample >= 1 && forall i :: 0 <= i < |source| ==> source[i] in data
      requires forall i, j :: 0 <= i < j < |source| ==> source[i] != source[j]
      ensures victim.Some? <==> source != []
      ensures victim.Some? ==>
        && SampleOf(sample, Listed(source), Want(policy, evictionSample))
        && LeastOf(policy, data, now, sample, victim.value)
    {
      sample := {};
      if source == [] {
        return None, {};
      }
      hide Weight, Listed;
      var n := |source|;
      var want := Want(policy, evictionSample);
      var take := if want < n then want else n;
      ghost var some := SampleExists(n, take);
      var positions: set<nat> :| IsSample(positions, n, take);
      assert take > 0 && IsSample(positions, n, take);
      assert |positions| > 0;
      ghost var drawn: nat :| drawn in positions;
      victim := None;
      for p := 0 to n
        invariant victim.Some? ==> victim.value in source && victim.value in data
        invariant victim.Some? ==> exists q :: 0 <= q < p && q in positions && victim.value == source[q]
        invariant victim.Some? ==> forall q :: 0 <= q < p && q in positions ==>
          Weight(policy, data[victim.value], now) <= Weight(policy, data[source[q]], now)
        invariant victim.None? ==> forall q :: 0 <= q < p ==> q !in positions
        invariant drawn < p ==> victim.Some?
      {
        if p in positions {
          if victim.None? || Weight(policy, data[source[p]], now) < Weight(policy, data[victim.value], now) {
            victim := Some(source[p]);
          }
        }
      }
      sample := KeysAt(source, positions);
      SampleByPositions(source, positions, want);
    }

    method PickVictim(now: u64) returns (victim: Option<Key>)
      requires Shadowed()
      ensures victim.Some? <==> Eligible() != {}
      ensures victim.Some? ==>
        victim.value in Eligible() && victim.value in Seen() && MayGo(policy, evictionSample, Seen(), now, victim.value)
    {
      hide Weight, VolatileKeys, MayGo, SampleOf, LeastOf, EligibleIn, Listed, KeyValueStore.IndexShadows;
      NoCandidates();
      if policy.NoEviction? {
        return None;
      }
      var source := if IsVolatile(policy) then index.volatile.keys else index.all.keys;
      CandidatesAreEligible(source);
      ghost var sample;
      victim, sample := ChooseVictim(source, now);
      if victim.Some? {
        ChosenFromSeen(policy, evictionSample, data, Seen(), now, sample, victim.value);
      }
    }

    lemma NoCandidates()
      ensures policy.NoEviction? ==> Eligible() == {}
    {
    }

    lemma CandidatesAreEligible(source: seq<Key>)
      requires Shadowed() && !policy.NoEviction?
      requires source == if IsVolatile(policy) then index.volatile.keys else index.all.keys
      ensures Listed(source) == Eligible() && (source == [] <==> Eligible() == {}) && evictionSample >= 1
      ensures forall k :: k in source <==> k in Eligible()
      ensures forall k :: k in Eligible() ==> k in Seen()
      ensures forall i :: 0 <= i < |source| ==> source[i] in data
      ensures forall i, j :: 0 <= i < j < |source| ==> source[i] != source[j]
    {
      var dense := if IsVolatile(policy) then index.volatile else index.all;
      DenseIsAsLarge(dense);
      assert dense.Members() == Eligible();
    }

    method EvictOne(now: u64) returns (victim: Option<Key>)
      requires Shadowed()
      modifies this`data, this`memoryBytes, this`evictedCount, index, index.all, index.volatile
      ensures Shadowed()
      ensures victim.Some? <==> old(Eligible()) != {}
      ensures victim.None? ==>
        data == old(data) && memoryBytes == old(memoryBytes) && evictedCount == old(evictedCount)
      ensures victim.Some? ==>
        && victim.value in old(Eligible()) && victim.value in old(Seen())
        && data == old(data) - {victim.value} && Seen() == old(Seen()) - {victim.value}
        && memoryBytes == SatSub(old(memoryBytes), EntrySize(victim.value, old(data)[victim.value]))
        && evictedCount == old(evictedCount) + 1
        && MayGo(policy, evictionSample, old(Seen()), now, victim.value)
    {
      hide Weight, EntrySize, MayGo, EligibleIn;
      victim := PickVictim(now);
      if victim.None? {
        return;
      }
      RemoveKey(victim.value);
      evictedCount := evictedCount + 1;
    }

    // One more eviction of a row that began with some entries and a byte total.
    method EvictAnother(now: u64, ghost all: Keys, ghost seen: Keys, ghost memory: nat, ghost evicted: seq<Key>)
      returns (victim: Option<Key>)
      requires Shadowed() && data == all - Listed(evicted)
      requires Evicted(policy, seen, Seen(), memory, memoryBytes, evicted)
      requires Goes(policy, evictionSample, seen, now, evicted)
      modifies this`data, this`memoryBytes, this`evictedCount, index, index.all, index.volatile
      ensures Shadowed()
      ensures victim.None? ==>
        && Eligible() == {} && data == old(data) && memoryBytes == old(memoryBytes)
        && evictedCount == old(evictedCount)
      ensures victim.Some? ==>
        && data == all - Listed(evicted + [victim.value]) && |data| < |old(data)|
        && Evicted(policy, seen, Seen(), memory, memoryBytes, evicted + [victim.value])
        && Goes(policy, evictionSample, seen, now, evicted + [victim.value])
        && evictedCount == old(evictedCount) + 1
        && victim.value in all && memoryBytes + EntrySize(victim.value, all[victim.value]) >= old(memoryBytes)
    {
      hide Evicted, Weight, EntrySize, Total, Listed, MayGo, Goes;
      EvictedWhat(policy, seen, Seen(), memory, memoryBytes, evicted);
      victim := EvictOne(now);
      if victim.Some? {
        var key := victim.value;
        EvictedMore(policy, seen, old(Seen()), Seen(), memory, old(memoryBytes), memoryBytes, evicted, key);
        GoesMore(policy, evictionSample, seen, now, evicted, key);
        OneKeyLess(old(data), key);
        RemoveOneMore(all, Listed(evicted), key);
        ListedMore(evicted, key);
      }
    }

    // Takes a key out of the map, its metadata and the byte total.
    method RemoveKey(key: Key)
      requires Shadowed() && key in Seen()
      modifies this`data, this`memoryBytes, index, index.all, index.volatile
      ensures Shadowed() && data == old(data) - {key} && Seen() == old(Seen()) - {key}
      ensures memoryBytes == SatSub(old(memoryBytes), EntrySize(key, old(data)[key]))
    {
      hide EntrySize;
      var freed := EntrySize(key, data[key]);
      data := data - {key};
      assert Seen() == old(Seen()) - {key};
      assert VolatileKeys(Seen()) == VolatileKeys(old(Seen())) - {key};
      hide VolatileKeys;
      AdjustMemory(freed, 0);
      SyncKeyMetadata(key);
    }

    // Evicts until the total is low enough or nothing is eligible.
    method EvictDownTo(low: nat, now: u64) returns (evicted: seq<Key>)
      requires Shadowed()
      modifies this`data, this`memoryBytes, this`evictedCount, index, index.all, index.volatile
      ensures Shadowed() && data == old(data) - Listed(evicted)
      ensures Evicted(policy, old(Seen()), Seen(), old(memoryBytes), memoryBytes, evicted)
      ensures Goes(policy, evictionSample, old(Seen()), now, evicted)
      ensures evictedCount == old(evictedCount) + |evicted|
      ensures memoryBytes <= low || Eligible() == {}
      ensures NoneTooMany(old(data), evicted, memoryBytes, low)
    {
      hide Evicted, Total, Listed, EligibleIn, MayGo, EntrySize;
      evicted := [];
      NothingEvicted(policy, Seen(), memoryBytes);
      NothingListed(data);
      while memoryBytes > low
        invariant Shadowed() && data == old(data) - Listed(evicted)
        invariant Evicted(policy, old(Seen()), Seen(), old(memoryBytes), memoryBytes, evicted)
        invariant Goes(policy, evictionSample, old(Seen()), now, evicted)
        invariant evictedCount == old(evictedCount) + |evicted| && NoneTooMany(old(data), evicted, memoryBytes, low)
        decreases |data|
      {
        var victim := EvictAnother(now, old(data), old(Seen()), old(memoryBytes), evicted);
        if victim.None? {
          break;
        }
        evicted := evicted + [victim.value];
      }
    }

    // With a memory cap: a sixteenth below it, or as far as the policy can.
    method TryEvictForMemory(now: u64) returns (within: bool, evicted: seq<Key>)
      requires Shadowed()
      modifies this`data, this`memoryBytes, this`evictedCount, index, index.all, index.volatile
      ensures Shadowed() && data == old(data) - Listed(evicted)
      ensures Evicted(policy, old(Seen()), Seen(), old(memoryBytes), memoryBytes, evicted)
      ensures Goes(policy, evictionSample, old(Seen()), now, evicted)
      ensures evictedCount == old(evictedCount) + |evicted|
      ensures maxMemory.None? ==> within && evicted == []
      ensures maxMemory.Some? ==>
        var limit := maxMemory.value;
        && (within <==> memoryBytes <= limit) && NoneTooMany(old(data), evicted, memoryBytes, LowWater(limit))
        && (memoryBytes <= LowWater(limit) || Eligible() == {})
        && (old(Short()) >= 0 && !policy.NoEviction? && !IsVolatile(policy) ==> memoryBytes <= LowWater(limit))
    {
      hide Evicted, Total, Listed, EligibleIn, LowWater, MayGo, NoneTooMany, KeyValueStore.IndexShadows;
      if maxMemory.None? {
        NothingEvicted(policy, Seen(), memoryBytes);
        NothingListed(data);
        return true, [];
      }
      evicted := EvictDownTo(LowWater(maxMemory.value), now);
      EvictedWhat(policy, old(Seen()), Seen(), old(memoryBytes), memoryBytes, evicted);
      NothingEligible(policy, Seen());
      within := memoryBytes <= maxMemory.value;
    }

    // ── Expiry ────────────────────────────────────────────────────────────────

    // Takes the expired ones among some keys out, and reports them.
    method RemoveExpired(candidates: seq<Key>, now: u64) returns (removed: seq<Key>)
      requires Shadowed() && forall k :: k in candidates ==> k !in forgotten
      modifies this`data, this`memoryBytes, index, index.all, index.volatile
      ensures Shadowed() && (old(Short()) >= 0 ==> 0 <= Short() <= old(Short()))
      ensures data == old(data) - Listed(removed) && Distinct(removed)
      ensures forall k :: k in removed <==> k in candidates && k in ExpiredKeys(old(data), now)
      ensures |removed| <= |candidates|
      ensures removed == [] ==> index.volatile.keys == old(index.volatile.keys)
    {
      hide Total, EntrySize, VolatileKeys, Listed, IsExpired, KeyValueStore.Shadowed, KeyValueStore.Owns;
      removed := [];
      NothingListed(data);
      for i := 0 to |candidates|
        invariant Shadowed() && (old(Short()) >= 0 ==> 0 <= Short() <= old(Short()))
        invariant data == old(data) - Listed(removed) && Distinct(removed)
        invariant forall k :: k in removed <==> k in candidates[..i] && k in ExpiredKeys(old(data), now)
        invariant |removed| <= i
        invariant removed == [] ==> index.volatile.keys == old(index.volatile.keys)
      {
        var key := candidates[i];
        assert candidates[..i + 1] == candidates[..i] + [key];
        ListedMore(removed, key);
        if key in data && IsExpired(data[key], now) {
          TotalWithout(Seen(), key);
          assert EntryMemory(Seen(), key) == EntrySize(key, data[key]);
          RemoveOneMore(old(data), Listed(removed), key);
          RemoveKey(key);
          removed := removed + [key];
        } else {
          Resync(key);
        }
      }
      assert candidates[..|candidates|] == candidates;
    }

    method Resync(key: Key)
      requires Shadowed() && key !in forgotten
      modifies index, index.all, index.volatile
      ensures Shadowed() && index.volatile.keys == old(index.volatile.keys)
    {
      ResyncChangesNothing(Seen(), key);
      hide VolatileKeys;
      SyncKeyMetadata(key);
    }

    lemma VolatileListed()
      requires Shadowed()
      ensures |index.volatile.keys| == |VolatileKeys(Seen())|
      ensures forall k :: k in index.volatile.keys <==> k in VolatileKeys(Seen())
      ensures forall k :: k in index.volatile.keys ==> k !in forgotten
    {
      DenseIsAsLarge(index.volatile);
    }

    // Removes every expired key the metadata names.
    method SweepExpired(now: u64) returns (removed: seq<Key>)
      requires Shadowed()
      modifies this`data, this`memoryBytes, index, index.all, index.volatile
      ensures Shadowed() && (old(Short()) >= 0 ==> 0 <= Short() <= old(Short()))
      ensures data == old(data) - Listed(removed) && Seen() == Unexpired(old(Seen()), now) && Distinct(removed)
      ensures old(Valid(now)) ==> Valid(now)
      ensures forall k :: k in removed <==> k in ExpiredKeys(old(Seen()), now)
    {
      VolatileListed();
      ExpiredAreVolatile(Seen(), now);
      ghost var listed := index.volatile.keys;
      removed := RemoveExpired(index.volatile.keys, now);
      ExpiredWithin(old(data), forgotten, listed, removed, now);
      WithoutExpired(old(Seen()), Seen(), removed, now);
      OthersStayExpired(old(data), forgotten, removed, now);
    }

    // Inspects at most `limit` keys with a TTL, where the last sweep stopped.
    method SweepExpiredBudget(limit: nat, now: u64) returns (removed: seq<Key>)
      requires Shadowed()
      modifies this`data, this`memoryBytes, this`expiryCursor, index, index.all, index.volatile
      ensures Shadowed() && (old(Short()) >= 0 ==> 0 <= Short() <= old(Short()))
      ensures data == old(data) - Listed(removed) && Distinct(removed) && |removed| <= limit
      ensures old(Valid(now)) ==> Valid(now)
      ensures forall k :: k in removed <==>
        k in ExpiredKeys(old(data), now) && k in Expiry.Window(old(index.volatile.keys), old(expiryCursor), limit)
      ensures Expiry.Step(Expiry.Sweeper(old(index.volatile.keys), old(expiryCursor)),
                          Expiry.Sweeper(index.volatile.keys, expiryCursor), limit, ExpiredKeys(old(data), now))
    {
      hide Total, VolatileKeys, Listed, ExpiredKeys, Distinct, Expiry.Window, Expiry.Step;
      hide KeyValueStore.Shadowed, KeyValueStore.Owns, KeyValueStore.Short, IsExpired;
      var keys, cursor := index.volatile.keys, expiryCursor;
      if limit == 0 || keys == [] {
        NothingListed(data);
        NothingSwept(keys, cursor, limit, ExpiredKeys(data, now));
        return [];
      }
      var window := Expiry.Window(keys, cursor, limit);
      expiryCursor := (cursor + limit) % Expiry.WORD;
      VolatileListed();
      removed := RemoveExpired(window, now);
      VolatileListed();
      WindowSwept(old(data), forgotten, data, keys, index.volatile.keys, cursor, limit, removed, now);
      OthersStayExpired(old(data), forgotten, removed, now);
    }

    // ── Commands ──────────────────────────────────────────────────────────────

    // Room for new keys, one eviction at a time.
    method MakeRoom(needed: nat, now: u64) returns (room: seq<Key>)
      requires Shadowed()
      modifies this`data, this`memoryBytes, this`evictedCount, index, index.all, index.volatile
      ensures Shadowed() && |room| <= needed && data == old(data) - Listed(room)
      ensures Evicted(policy, old(Seen()), Seen(), old(memoryBytes), memoryBytes, room)
      ensures Goes(policy, evictionSample, old(Seen()), now, room)
      ensures |room| < needed ==> Eligible() == {}
    {
      hide Evicted, Listed, EligibleIn, MayGo;
      room := [];
      NothingEvicted(policy, Seen(), memoryBytes);
      NothingListed(data);
      while |room| < needed
        invariant Shadowed() && |room| <= needed && data == old(data) - Listed(room)
        invariant Evicted(policy, old(Seen()), Seen(), old(memoryBytes), memoryBytes, room)
        invariant Goes(policy, evictionSample, old(Seen()), now, room)
        decreases needed - |room|
      {
        var victim := EvictAnother(now, old(data), old(Seen()), old(memoryBytes), room);
        if victim.None? {
          return;
        }
        room := room + [victim.value];
      }
    }

    // Making room, then the command's own effect. A command that cannot make room has
    // no effect beyond the evictions it already made.
    method ExecuteInner(cmd: Command, now: u64) returns (reply: Reply, room: seq<Key>)
      requires Shadowed()
      modifies this`data, this`memoryBytes, this`evictedCount, index, index.all, index.volatile
      ensures IndexShadows(old(Seen()) - Listed(room))
      ensures Evicted(policy, old(Seen()), old(Seen()) - Listed(room), old(memoryBytes), memoryBytes, room)
      ensures Admissible(policy, evictionSample, old(Seen()), now, room, RoomNeeded(old(data), cmd, maxKeys))
      ensures (data, reply) == Executed(old(data), cmd, maxKeys, room, now)
    {
      hide Effect, Evicted, RoomNeeded, Listed, VolatileKeys, Total, Gone, Weight, EntrySize, IsVolatile, EligibleIn;
      hide Goes, MayGo;
      var needed := RoomNeeded(data, cmd, maxKeys);
      room := MakeRoom(needed, now);
      EvictedWhat(policy, old(Seen()), Seen(), old(memoryBytes), memoryBytes, room);
      if |room| < needed {
        return MaxKeysReached, room;
      }
      var (after, r) := Effect(data, cmd, now);
      data, reply := after, r;
    }

    method SyncKeys(keys: seq<Key>, ghost before: Keys)
      requires IndexShadows(before) && forall k :: k !in keys ==> Unchanged(before, Seen(), k)
      requires forall k :: k in keys ==> k !in forgotten
      modifies index, index.all, index.volatile
      ensures IndexShadows(Seen())
    {
      hide VolatileKeys, Patched;
      PatchedNothing(before, Seen());
      for i := 0 to |keys|
        invariant IndexShadows(Patched(before, Seen(), keys[..i]))
      {
        PatchedMore(before, Seen(), keys[..i], keys[i]);
        assert keys[..i + 1] == keys[..i] + [keys[i]];
        assert keys[i] in keys;
        SyncKeyMetadata(keys[i]);
      }
      assert keys[..|keys|] == keys;
      PatchedAll(before, Seen(), keys);
    }

    // The byte total after a command over `keys` that evicted `room` first. Measuring the
    // keys before making room subtracts an evicted one a second time, and one that was
    // not in the total to begin with a first time.
    method Settle(keys: seq<Key>, before: nat, ghost original: Keys, ghost room: seq<Key>)
      requires Distinct(keys) && IndexShadows(SeenBefore(original, forgotten, room))
      requires before == KeysMemory(original, keys)
      requires memoryBytes <= Total(SeenBefore(original, forgotten, room))
      requires Settling(original, data, forgotten, room, keys)
      modifies this`memoryBytes, this`forgotten, index, index.all, index.volatile
      ensures Shadowed() && forgotten == old(forgotten) - Listed(keys)
      ensures memoryBytes == SatSub(Total(Seen()), Total(SeenBefore(original, old(forgotten), room)) - old(memoryBytes) +
                                                   Overlooked(original, Listed(room) + old(forgotten), keys))
      ensures memoryBytes == Adjusted(old(memoryBytes), before, KeysMemory(data, keys))
    {
      hide Adjusted, Total, KeysMemory, Overlooked, Listed, VolatileKeys, SatSub, Distinct, SeenBefore, Settling;
      hide KeyValueStore.IndexShadows;
      SettleTotal(keys, before, original, room);
      SettleMetadata(keys, original, room);
    }

    method SettleTotal(keys: seq<Key>, before: nat, ghost original: Keys, ghost room: seq<Key>)
      requires Distinct(keys) && before == KeysMemory(original, keys)
      requires memoryBytes <= Total(SeenBefore(original, forgotten, room))
      requires Settling(original, data, forgotten, room, keys)
      modifies this`memoryBytes
      ensures memoryBytes == SatSub(Total(SeenAfter(data, forgotten, keys)),
                                    Total(SeenBefore(original, forgotten, room)) - old(memoryBytes) +
                                    Overlooked(original, Listed(room) + forgotten, keys))
      ensures memoryBytes == Adjusted(old(memoryBytes), before, KeysMemory(data, keys))
    {
      SettledTotal(original, data, forgotten, room, keys, memoryBytes);
      hide Total, KeysMemory, Overlooked, Listed, Distinct, SeenBefore, Settling, SeenAfter;
      var after := KeysMemory(data, keys);
      AdjustMemory(before, after);
    }

    method SettleMetadata(keys: seq<Key>, ghost original: Keys, ghost room: seq<Key>)
      requires IndexShadows(SeenBefore(original, forgotten, room)) && Settling(original, data, forgotten, room, keys)
      modifies this`forgotten, index, index.all, index.volatile
      ensures Shadowed() && forgotten == old(forgotten) - Listed(keys)
    {
      SettledMaps(original, data, forgotten, room, keys);
      hide KeysMemory, Unchanged, Listed, SeenBefore, Settling, KeyValueStore.IndexShadows;
      ghost var mid := SeenBefore(original, forgotten, room);
      forgotten := forgotten - Listed(keys);
      SyncKeys(keys, mid);
    }

    // Puts the saved entries back.
    method Restore(saved: Keys, keys: seq<Key>, ghost original: Keys)
      requires forall k :: k in saved <==> k in keys && k in original
      requires forall k :: k in saved ==> saved[k] == original[k]
      requires forall k :: k !in keys ==> Unchanged(original, data, k)
      modifies this`data
      ensures data == original
    {
      for i := 0 to |keys|
        invariant forall k :: k !in keys || k in keys[..i] ==> Unchanged(original, data, k)
      {
        var key := keys[i];
        data := if key in saved then data[key := saved[key]] else data - {key};
        assert keys[..i + 1] == keys[..i] + [key];
      }
      assert keys[..|keys|] == keys;
      SameEverywhere(original, data);
    }

    method RollBack(saved: Keys, keys: seq<Key>, ghost original: Keys, now: u64)
      requires Shadowed()
      requires forall k :: k in saved <==> k in keys && k in original
      requires forall k :: k in saved ==> saved[k] == original[k]
      requires forall k :: k !in keys ==> Unchanged(original, data, k)
      modifies this`data, this`memoryBytes, this`forgotten, index, index.all, index.volatile
      ensures data == original && forgotten == ExpiredKeys(data, now)
      ensures Shadowed() && Seen() == Unexpired(data, now) && Short() == 0
    {
      Restore(saved, keys, original);
      RebuildMetadata(now);
      forgotten := ExpiredKeys(data, now);
      assert Seen() == Unexpired(data, now);
    }

    // Execution and bookkeeping of a command over some keys, before the memory cap.
    method Perform(cmd: Command, keys: seq<Key>, now: u64) returns (reply: Reply, room: seq<Key>)
      requires Shadowed() && Short() >= 0 && MutationScope(cmd).Touches?
      requires Distinct(keys) && forall k :: k in keys <==> k in MutationScope(cmd).keys
      modifies this`data, this`memoryBytes, this`evictedCount, this`forgotten, index, index.all, index.volatile
      ensures Shadowed() && forgotten == old(forgotten) - Listed(keys) && Short() >= 0
      ensures ShortBetween(memoryBytes, Total(Seen()), old(Short()),
                           Overlooked(old(data), Listed(room) + old(forgotten), keys))
      ensures Admissible(policy, evictionSample, old(Seen()), now, room, RoomNeeded(old(data), cmd, maxKeys))
      ensures Gone(policy, old(data), old(data) - Listed(room), room)
      ensures (data, reply) == Executed(old(data), cmd, maxKeys, room, now)
      ensures policy.NoEviction? ==>
        room == [] && memoryBytes == Adjusted(old(memoryBytes), KeysMemory(old(data), keys), KeysMemory(data, keys))
      ensures forall k :: k !in keys ==> Unchanged(old(data) - Listed(room), data, k)
    {
      hide Total, KeysMemory, Overlooked, Evicted, Gone, Executed, RoomNeeded, Listed, Unchanged, MutationScope;
      hide EligibleIn, VolatileKeys, Adjusted, Goes, Admissible, SatSub, Distinct, KeyValueStore.IndexShadows;
      var before := KeysMemory(data, keys);
      reply, room := ExecuteInner(cmd, now);
      ghost var mid := old(Seen()) - Listed(room);
      EvictedWhat(policy, old(Seen()), mid, old(memoryBytes), memoryBytes, room);
      GoneFromAll(policy, old(data), forgotten, room);
      NothingTaken(policy, old(Seen()), mid, old(memoryBytes), memoryBytes, room);
      ExecutedWithinScope(old(data), cmd, maxKeys, room, now);
      ghost var total := memoryBytes;
      Settle(keys, before, old(data), room);
      ShortAfter(old(memoryBytes), Total(old(Seen())), total, Total(mid), memoryBytes, Total(Seen()),
                 Overlooked(old(data), Listed(room) + old(forgotten), keys));
    }

    // A command that may change some keys, with rollback if it cannot stay under the cap.
    method ExecuteTouching(cmd: Command, now: u64)
      returns (reply: Reply, evicted: seq<Key>, ghost room: seq<Key>, ghost rolledBack: bool)
      requires Valid(now) && MutationScope(cmd).Touches?
      modifies this`data, this`memoryBytes, this`evictedCount, this`forgotten, index, index.all, index.volatile
      ensures Shadowed()
      ensures Admissible(policy, evictionSample, old(Seen()), now, room, RoomNeeded(old(data), cmd, maxKeys))
      ensures !rolledBack ==>
        && forgotten == old(forgotten) - Listed(MutationScope(cmd).keys)
        && ShortBetween(memoryBytes, Total(Seen()), old(Short()),
                        Uncounted(old(data), cmd, Listed(room) + old(forgotten)))
        && Completes(policy, maxKeys, old(data), cmd, now, room, evicted, data, reply)
        && Goes(policy, evictionSample, Executed(old(data), cmd, maxKeys, room, now).0 - forgotten, now,
                evicted[|room|..])
        && OnlyForMemory(maxMemory, Executed(old(data), cmd, maxKeys, room, now).0, evicted[|room|..], memoryBytes)
      ensures !rolledBack && maxMemory.Some? ==>
        && (memoryBytes <= LowWater(maxMemory.value) || Eligible() == {})
        && (!policy.NoEviction? && !IsVolatile(policy) ==> memoryBytes <= LowWater(maxMemory.value))
      ensures rolledBack ==>
        && data == old(data) && evicted == [] && reply == OutOfMemory
        && maxMemory.Some? && policy.NoEviction?
        && forgotten == ExpiredKeys(data, now) && Short() == 0 && memoryBytes == Total(Unexpired(data, now))
      ensures maxMemory.Some? && policy.NoEviction? ==>
        memoryBytes <= maxMemory.value || memoryBytes <= old(memoryBytes) + if rolledBack then old(Short()) else 0
      ensures policy.NoEviction? ==>
        var would := WouldUse(old(memoryBytes), old(data), cmd, maxKeys, now);
        && (rolledBack <==> maxMemory.Some? && would > maxMemory.value && would > old(memoryBytes))
        && (!rolledBack ==> memoryBytes == would)
    {
      hide Adjusted, Goes, MayGo, OnlyForMemory, NoneTooMany, EntrySize;
      hide Total, KeysMemory, Overlooked, Evicted, Gone, Executed, Listed, Completes, Deduped, Admissible;
      hide Unexpired, RoomNeeded, VolatileKeys, IsVolatile, LowWater, Unchanged, SatSub, EligibleIn, ExpiredKeys;
      hide KeyValueStore.Eligible, KeyValueStore.IndexShadows, ShortBetween;
      var keys := Deduped(MutationScope(cmd).keys);
      DedupedKeepsKeys(MutationScope(cmd).keys);
      SameListed(keys, MutationScope(cmd).keys);
      WouldUseIs(memoryBytes, data, cmd, maxKeys, now);
      UncountedIs(data, cmd);
      hide WouldUse, Uncounted, MutationScope, KeyValueStore.Shadowed;
      var memoryBefore := memoryBytes;
      var saved := map k | k in data && k in keys :: data[k];
      reply, evicted := Perform(cmd, keys, now);
      room, rolledBack := evicted, false;
      ghost var applied, total, seen := data, memoryBytes, Seen();
      AdmissibleWhat(policy, evictionSample, old(Seen()), now, room, RoomNeeded(old(data), cmd, maxKeys));
      if maxMemory.Some? {
        var within, more := TryEvictForMemory(now);
        EvictedWhat(policy, seen, Seen(), total, memoryBytes, more);
        NothingTaken(policy, seen, Seen(), total, memoryBytes, more);
        StillShort(total, Total(seen), memoryBytes, Total(Seen()), old(Short()),
                   Overlooked(old(data), Listed(room) + old(forgotten), keys));
        GoneFromAll(policy, applied, forgotten, more);
        if !within && memoryBytes > memoryBefore && policy.NoEviction? {
          NoEvictionKeepsAll(policy, old(data), old(data) - Listed(room), room);
          NoEvictionKeepsAll(policy, applied, data, more);
          RollBack(saved, keys, old(data), now);
          UnexpiredWithin(data, old(forgotten), now);
          return OutOfMemory, [], room, true;
        }
        CompletesBy(policy, maxKeys, old(data), cmd, now, room, more, applied, data, reply);
        AllForMemory(maxMemory, applied, more, memoryBytes);
        evicted := evicted + more;
        assert evicted[|room|..] == more;
      } else {
        NothingGone(policy, data);
        CompletesBy(policy, maxKeys, old(data), cmd, now, room, [], applied, data, reply);
        NothingGoes(policy, evictionSample, data - forgotten, now);
        NoneForMemory(maxMemory, data, memoryBytes);
        assert evicted + [] == evicted && evicted[|room|..] == [];
      }
    }

    // One command as one atomic step, from any state a run can reach. `room` is what it
    // evicted to stay within the key cap; `evicted` is everything it removed implicitly.
    method ExecuteReporting(cmd: Command, now: u64)
      returns (reply: Reply, evicted: seq<Key>, ghost room: seq<Key>, ghost rolledBack: bool)
      requires Valid(now)
      modifies this`data, this`memoryBytes, this`evictedCount, this`forgotten, index, index.all, index.volatile
      ensures Valid(now)
      ensures rolledBack ==>
        && data == old(data) && evicted == [] && reply == OutOfMemory
        && MutationScope(cmd).Touches? && maxMemory.Some? && policy.NoEviction?
        && forgotten == ExpiredKeys(data, now) && Short() == 0 && memoryBytes == Total(Unexpired(data, now))
      ensures !rolledBack ==>
        && Completes(policy, maxKeys, old(data), cmd, now, room, evicted, data, reply)
        && Admissible(policy, evictionSample, old(Seen()), now, room, RoomNeeded(old(data), cmd, maxKeys))
        && forgotten == StillForgotten(old(forgotten), cmd)
        && ShortBetween(memoryBytes, Total(Seen()), old(Short()),
                        Uncounted(old(data), cmd, Listed(room) + old(forgotten)))
        && Goes(policy, evictionSample, Executed(old(data), cmd, maxKeys, room, now).0 - forgotten, now,
                evicted[|room|..])
        && OnlyForMemory(maxMemory, Executed(old(data), cmd, maxKeys, room, now).0, evicted[|room|..], memoryBytes)
      ensures !rolledBack && maxMemory.Some? && !MutationScope(cmd).ReadOnly? ==>
        && (memoryBytes <= LowWater(maxMemory.value) || Eligible() == {})
        && (!policy.NoEviction? && !IsVolatile(policy) ==> memoryBytes <= LowWater(maxMemory.value))
      ensures maxMemory.Some? && policy.NoEviction? ==>
        memoryBytes <= maxMemory.value || memoryBytes <= old(memoryBytes) + if rolledBack then old(Short()) else 0
      ensures policy.NoEviction? ==>
        var would := WouldUse(old(memoryBytes), old(data), cmd, maxKeys, now);
        && (rolledBack <==> maxMemory.Some? && would > maxMemory.value && would > old(memoryBytes))
        && (!rolledBack ==> memoryBytes == would)
      ensures maxMemory.Some? && policy.NoEviction? ==>
        (memoryBytes > maxMemory.value && memoryBytes > old(memoryBytes) <==>
         rolledBack && RefusalExceeds(old(data), now, maxMemory.value, old(memoryBytes)))
      ensures !rolledBack && old(Accounted()) ==>
        (Accounted() <==> data == map[] || Uncounted(old(data), cmd, Listed(room)) == 0)
      ensures rolledBack ==> (Accounted() <==> forall k :: k in data ==> !IsExpired(data[k], now))
    {
      hide RoomNeeded, Completes, Total, VolatileKeys, Uncounted, Listed, IsExpired, Admissible, ShortBetween, LowWater;
      hide MutationScope, StillForgotten, ExpiredKeys, KeyValueStore.IndexShadows, EligibleIn, IsVolatile;
      hide WouldUse, Goes, Executed, Unexpired, OnlyForMemory;
      AllAccounted(data, forgotten, memoryBytes);
      reply, evicted, room, rolledBack := ExecuteScoped(cmd, now);
      AllAccounted(data, forgotten, memoryBytes);
      ForgottenIsExpired(data, now);
      if !rolledBack && old(forgotten) == {} && old(Short()) == 0 {
        NothingForgotten(cmd);
        AccountedIff(memoryBytes, data, old(data), cmd, room);
      }
    }

    method ExecuteScoped(cmd: Command, now: u64)
      returns (reply: Reply, evicted: seq<Key>, ghost room: seq<Key>, ghost rolledBack: bool)
      requires Valid(now)
      modifies this`data, this`memoryBytes, this`evictedCount, this`forgotten, index, index.all, index.volatile
      ensures Valid(now)
      ensures rolledBack ==>
        && data == old(data) && evicted == [] && reply == OutOfMemory
        && MutationScope(cmd).Touches? && maxMemory.Some? && policy.NoEviction?
        && forgotten == ExpiredKeys(data, now) && Short() == 0 && memoryBytes == Total(Unexpired(data, now))
      ensures !rolledBack ==>
        && Completes(policy, maxKeys, old(data), cmd, now, room, evicted, data, reply)
        && Admissible(policy, evictionSample, old(Seen()), now, room, RoomNeeded(old(data), cmd, maxKeys))
        && forgotten == StillForgotten(old(forgotten), cmd)
        && ShortBetween(memoryBytes, Total(Seen()), old(Short()),
                        Uncounted(old(data), cmd, Listed(room) + old(forgotten)))
        && Goes(policy, evictionSample, Executed(old(data), cmd, maxKeys, room, now).0 - forgotten, now,
                evicted[|room|..])
        && OnlyForMemory(maxMemory, Executed(old(data), cmd, maxKeys, room, now).0, evicted[|room|..], memoryBytes)
      ensures !rolledBack && maxMemory.Some? && !MutationScope(cmd).ReadOnly? ==>
        && (memoryBytes <= LowWater(maxMemory.value) || Eligible() == {})
        && (!policy.NoEviction? && !IsVolatile(policy) ==> memoryBytes <= LowWater(maxMemory.value))
      ensures maxMemory.Some? && policy.NoEviction? ==>
        memoryBytes <= maxMemory.value || memoryBytes <= old(memoryBytes) + if rolledBack then old(Short()) else 0
      ensures policy.NoEviction? ==>
        var would := WouldUse(old(memoryBytes), old(data), cmd, maxKeys, now);
        && (rolledBack <==> maxMemory.Some? && would > maxMemory.value && would > old(memoryBytes))
        && (!rolledBack ==> memoryBytes == would)
    {
      hide Effect, RoomNeeded, Completes, Total, VolatileKeys, Unexpired, Deduped, Overlooked, IsExpired, Admissible;
      hide MayGo, Executed, EntrySize;
      match MutationScope(cmd) {
        case ReadOnly =>
          reply, evicted := ExecuteReadOnly(cmd, now);
          room, rolledBack := evicted, false;
        case Everything =>
          reply, evicted := ExecuteFlush(cmd, now);
          room, rolledBack := [], false;
        case Touches(_) =>
          reply, evicted, room, rolledBack := ExecuteTouching(cmd, now);
          if !rolledBack {
            ForgottenStayExpired(policy, maxKeys, old(data), old(forgotten), cmd, now, room, evicted, data, reply);
          }
      }
    }

    method ExecuteReadOnly(cmd: Command, now: u64) returns (reply: Reply, evicted: seq<Key>)
      requires Valid(now) && MutationScope(cmd).ReadOnly?
      modifies this`data, this`memoryBytes, this`evictedCount, index, index.all, index.volatile
      ensures Valid(now) && evicted == [] && memoryBytes == old(memoryBytes) && Short() == old(Short())
      ensures Admissible(policy, evictionSample, old(Seen()), now, [], RoomNeeded(old(data), cmd, maxKeys))
      ensures Completes(policy, maxKeys, old(data), cmd, now, [], [], data, reply)
    {
      hide Total, Gone, Evicted;
      ReadNeedsNothing(data, forgotten, cmd, maxKeys, now);
      hide MutationScope, RoomNeeded, Effect, Executed, VolatileKeys, Listed, ExpiredKeys;
      reply, evicted := ExecuteInner(cmd, now);
      NothingListed(old(data));
      NothingListed(old(Seen()));
      assert evicted == [];
      EvictedWhat(policy, old(Seen()), old(Seen()), old(memoryBytes), memoryBytes, []);
      NothingGone(policy, old(data));
      NothingGone(policy, data);
      CompletesBy(policy, maxKeys, old(data), cmd, now, [], [], data, data, reply);
      assert [] + [] == evicted;
    }

    method ExecuteFlush(cmd: Command, now: u64) returns (reply: Reply, evicted: seq<Key>)
      requires Valid(now) && MutationScope(cmd).Everything?
      modifies this`data, this`memoryBytes, this`evictedCount, this`forgotten, index, index.all, index.volatile
      ensures Valid(now) && data == map[] && memoryBytes == 0 && forgotten == {} && Short() == 0
      ensures Admissible(policy, evictionSample, old(Seen()), now, [], RoomNeeded(old(data), cmd, maxKeys))
      ensures Completes(policy, maxKeys, old(data), cmd, now, [], evicted, data, reply) && evicted == []
    {
      hide Gone, Evicted, RoomNeeded, Completes, Goes, MayGo, EligibleIn, LowWater, VolatileKeys, Total, Listed;
      var room;
      reply, room := ExecuteInner(cmd, now);
      FlushNeedsNoRoom(old(data), cmd, maxKeys, room, now);
      NothingGone(policy, old(data));
      hide Effect, Executed, MutationScope;
      ShadowsOwned(old(Seen()) - Listed(room));
      hide KeyValueStore.IndexShadows;
      NothingUnexpired(now);
      Wipe(now);
      evicted := [];
      NothingGone(policy, data);
      if maxMemory.Some? {
        var within;
        within, evicted := TryEvictForMemory(now);
        EvictedWhat(policy, map[], Seen(), 0, memoryBytes, evicted);
        NothingLeftToGo(policy, map[], Seen(), 0, memoryBytes, evicted);
      }
      CompletesBy(policy, maxKeys, old(data), cmd, now, [], evicted, map[], data, reply);
      assert [] + evicted == evicted;
    }

    lemma ShadowsOwned(keys: Keys)
      requires IndexShadows(keys)
      ensures Owns()
    {
    }

    // Metadata for an emptied map.
    method Wipe(now: u64)
      requires Owns() && data == map[]
      modifies this`memoryBytes, this`forgotten, index, index.all, index.volatile
      ensures Shadowed() && Valid(now) && Seen() == map[] && forgotten == {} && memoryBytes == 0
    {
      NothingUnexpired(now);
      RebuildMetadata(now);
      forgotten := {};
    }
  }

  // An all-keys policy runs out of candidates only when nothing is left.
  lemma NothingEligible(policy: EvictionPolicy, seen: Keys)
    ensures EligibleIn(policy, seen) == {} && !policy.NoEviction? && !IsVolatile(policy) ==> Total(seen) == 0
  {
  }

  // What a policy may evict of some entries.
  ghost function EligibleIn(policy: EvictionPolicy, keys: Keys): set<Key> {
    if policy.NoEviction? then {} else if IsVolatile(policy) then VolatileKeys(keys) else keys.Keys
  }

  ghost function ExpiredKeys(data: Keys, now: u64): set<Key> {
    set k | k in data && IsExpired(data[k], now)
  }

  lemma NothingListed(data: Keys)
    ensures Listed([]) == {} && data == data - Listed([]) && Distinct([])
  {
  }

  lemma ExpiredAreVolatile(data: Keys, now: u64)
    ensures ExpiredKeys(data, now) <= VolatileKeys(data)
  {
  }

  // Of the keys with a TTL, exactly the expired ones in the window are gone.
  lemma WindowSwept(before: Keys, forgotten: set<Key>, after: Keys, keys: seq<Key>, left: seq<Key>, cursor: nat,
                    limit: nat, removed: seq<Key>, now: u64)
    requires after == before - Listed(removed) && limit > 0 && keys != []
    requires forall k :: k in removed <==> k in Expiry.Window(keys, cursor, limit) && k in ExpiredKeys(before, now)
    requires |keys| == |VolatileKeys(before - forgotten)|
    requires forall k :: k in keys <==> k in VolatileKeys(before - forgotten)
    requires |left| == |VolatileKeys(after - forgotten)|
    requires forall k :: k in left <==> k in VolatileKeys(after - forgotten)
    requires removed == [] ==> left == keys
    ensures Expiry.Step(Expiry.Sweeper(keys, cursor), Expiry.Sweeper(left, (cursor + limit) % Expiry.WORD), limit,
                        ExpiredKeys(before, now))
  {
    hide Expiry.Window;
    var window := Expiry.Window(keys, cursor, limit);
    forall k ensures k in left <==> k in keys && !(k in ExpiredKeys(before, now) && k in window) {
      assert k in VolatileKeys(after - forgotten) <==> k in VolatileKeys(before - forgotten) && k !in removed;
    }
    if removed != [] {
      assert removed[0] in removed;
      SubsetIsSmaller(VolatileKeys(after - forgotten), VolatileKeys(before - forgotten) - {removed[0]});
    }
  }

  lemma NothingSwept(keys: seq<Key>, cursor: nat, limit: nat, expired: set<Key>)
    requires limit == 0 || keys == []
    ensures Expiry.Window(keys, cursor, limit) == []
    ensures Expiry.Step(Expiry.Sweeper(keys, cursor), Expiry.Sweeper(keys, cursor), limit, expired)
  {
  }

  lemma ExpiredWithin(before: Keys, forgotten: set<Key>, listed: seq<Key>, removed: seq<Key>, now: u64)
    requires forall k :: k in listed <==> k in VolatileKeys(before - forgotten)
    requires forall k :: k in removed <==> k in listed && k in ExpiredKeys(before, now)
    ensures forall k :: k in removed <==> k in ExpiredKeys(before - forgotten, now)
    ensures before - Listed(removed) - forgotten == before - forgotten - Listed(removed)
  {
  }

  lemma OthersStayExpired(before: Keys, forgotten: set<Key>, removed: seq<Key>, now: u64)
    requires forall k :: k in removed ==> k !in forgotten
    ensures forgotten <= ExpiredKeys(before, now) ==> forgotten <= ExpiredKeys(before - Listed(removed), now)
  {
  }

  lemma WithoutExpired(before: Keys, after: Keys, removed: seq<Key>, now: u64)
    requires after == before - Listed(removed)
    requires forall k :: k in removed <==> k in ExpiredKeys(before, now)
    ensures after == Unexpired(before, now)
  {
  }

  lemma ResyncChangesNothing(data: Keys, key: Key)
    ensures key in data ==> data.Keys + {key} == data.Keys
    ensures key !in data ==> data.Keys - {key} == data.Keys && VolatileKeys(data) - {key} == VolatileKeys(data)
    ensures key in data && data[key].expiresAt.Some? ==> VolatileKeys(data) + {key} == VolatileKeys(data)
    ensures key in data && data[key].expiresAt.None? ==> VolatileKeys(data) - {key} == VolatileKeys(data)
  {
  }

  lemma FlushNeedsNoRoom(data: Keys, cmd: Command, maxKeys: Option<nat>, room: seq<Key>, now: u64)
    requires MutationScope(cmd).Everything? && |room| <= RoomNeeded(data, cmd, maxKeys)
    ensures room == [] && data - Listed([]) == data && RoomNeeded(data, cmd, maxKeys) == 0
    ensures Executed(data, cmd, maxKeys, room, now) == (map[], Status)
  {
    assert Listed([]) == {};
  }

  // What a command leaves uncounted: the keys it touches although they were out of the
  // byte total, evicted by itself or left out by a rollback.
  function Uncounted(before: Keys, cmd: Command, out: set<Key>): nat {
    match MutationScope(cmd)
    case Touches(keys) => Overlooked(before, out, Deduped(keys))
    case _ => 0
  }

  lemma ReadNeedsNothing(data: Keys, forgotten: set<Key>, cmd: Command, maxKeys: Option<nat>, now: u64)
    requires MutationScope(cmd).ReadOnly? && forgotten <= ExpiredKeys(data, now)
    ensures RoomNeeded(data, cmd, maxKeys) == 0
    ensures var seen, after := data - forgotten, Executed(data, cmd, maxKeys, [], now).0;
      && after.Keys == data.Keys && (after - forgotten).Keys == seen.Keys
      && VolatileKeys(after - forgotten) == VolatileKeys(seen) && Total(after - forgotten) == Total(seen)
      && forgotten <= ExpiredKeys(after, now)
  {
    NothingListed(data);
    var seen, after := data - forgotten, Effect(data, cmd, now).0;
    ReadsChangeNothing(data, cmd, now);
    forall k | k !in [cmd.key] ensures Unchanged(seen, after - forgotten, k) {}
    TotalOfTouched(seen, after - forgotten, [cmd.key]);
  }

  // A byte total that is the sum over the whole map leaves nothing out.
  lemma AllAccounted(data: Keys, forgotten: set<Key>, memory: nat)
    requires forgotten <= data.Keys && memory <= Total(data - forgotten)
    ensures memory == Total(data) <==> forgotten == {} && memory == Total(data - forgotten)
    ensures forgotten == {} ==> data - forgotten == data
  {
    if forgotten != {} {
      var k :| k in forgotten;
      TotalWithout(data, k);
      PartIsLess(data - {k}, forgotten);
      assert data - {k} - forgotten == data - forgotten;
    } else {
      assert data - forgotten == data;
    }
  }

  lemma {:induction false} PartIsLess(data: Keys, out: set<Key>)
    ensures Total(data - out) <= Total(data)
    decreases |data|
  {
    if data == map[] {
      assert data - out == map[];
    } else {
      var k :| k in data;
      PartIsLess(data - {k}, out);
      TotalWithout(data, k);
      TotalWithout(data - out, k);
      assert data - {k} - out == data - out - {k};
    }
  }

  lemma ForgottenIsExpired(data: Keys, now: u64)
    ensures ExpiredKeys(data, now) == {} <==> forall k :: k in data ==> !IsExpired(data[k], now)
  {
    if ExpiredKeys(data, now) == {} {
      forall k | k in data ensures !IsExpired(data[k], now) {
        assert k !in ExpiredKeys(data, now);
      }
    }
  }

  lemma EmptyIffWeightless(data: Keys)
    ensures Total(data) == 0 <==> data == map[]
  {
    if data != map[] {
      var k :| k in data;
      TotalWithout(data, k);
    }
  }

  // Rebuilding from the live entries gives the full metadata iff nothing has expired.
  lemma {:induction false} RebuildIsExact(data: Keys, now: u64)
    ensures (forall k :: k in data ==> !IsExpired(data[k], now)) <==> Unexpired(data, now) == data
    ensures Unexpired(data, now).Keys == data.Keys ==> Unexpired(data, now) == data
    ensures forall k :: k in Unexpired(data, now) ==> k in data
  {
    if Unexpired(data, now).Keys == data.Keys {
      assert forall k :: k in data ==> k in Unexpired(data, now);
    }
  }

  // A byte total that has fallen short by `lost` more, or by less if it was short before
  // and there was less to fall short of.
  ghost predicate ShortBetween(memory: nat, total: nat, short: int, lost: nat) {
    memory <= SatSub(total, lost) && total <= memory + short + lost
  }

  lemma ShortAfter(memory0: nat, total0: nat, memory1: nat, total1: nat, memory2: nat, total2: nat, lost: nat)
    requires memory0 <= total0 && total1 <= total0 && memory1 == SatSub(memory0, total0 - total1)
    requires memory2 == SatSub(total2, total1 - memory1 + lost)
    ensures ShortBetween(memory2, total2, total0 - memory0, lost) && memory2 <= total2
  {
  }

  lemma AccountedIff(memory: nat, data: Keys, before: Keys, cmd: Command, room: seq<Key>)
    requires ShortBetween(memory, Total(data), 0, Uncounted(before, cmd, Listed(room) + {}))
    ensures memory == Total(data) <==> data == map[] || Uncounted(before, cmd, Listed(room)) == 0
  {
    assert Listed(room) + {} == Listed(room);
    EmptyIffWeightless(data);
    hide Total, Uncounted, Listed;
  }

  lemma NothingForgotten(cmd: Command)
    ensures StillForgotten({}, cmd) == {}
  {
  }

  lemma StillShort(memory: nat, total: nat, memoryAfter: nat, totalAfter: nat, short: int, lost: nat)
    requires ShortBetween(memory, total, short, lost) && short >= 0
    requires totalAfter <= total && memoryAfter == SatSub(memory, total - totalAfter)
    ensures ShortBetween(memoryAfter, totalAfter, short, lost) && memoryAfter <= totalAfter
  {
  }

  // The keys still left out after a command: it brings those it touches back.
  ghost function StillForgotten(forgotten: set<Key>, cmd: Command): set<Key> {
    match MutationScope(cmd)
    case ReadOnly => forgotten
    case Touches(keys) => forgotten - Listed(keys)
    case Everything => {}
  }

  // What the byte total comes to if nothing is evicted.
  ghost function WouldUse(memory: nat, before: Keys, cmd: Command, maxKeys: Option<nat>, now: u64): nat {
    match MutationScope(cmd)
    case ReadOnly => memory
    case Everything => 0
    case Touches(keys) =>
      Adjusted(memory, KeysMemory(before, Deduped(keys)),
               KeysMemory(Executed(before, cmd, maxKeys, [], now).0, Deduped(keys)))
  }

  lemma WouldUseIs(memory: nat, before: Keys, cmd: Command, maxKeys: Option<nat>, now: u64)
    requires MutationScope(cmd).Touches?
    ensures var keys := Deduped(MutationScope(cmd).keys);
      WouldUse(memory, before, cmd, maxKeys, now) ==
      Adjusted(memory, KeysMemory(before, keys), KeysMemory(Executed(before, cmd, maxKeys, [], now).0, keys))
  {
  }

  lemma UncountedIs(before: Keys, cmd: Command)
    requires MutationScope(cmd).Touches?
    ensures forall out :: Uncounted(before, cmd, out) == Overlooked(before, out, Deduped(MutationScope(cmd).keys))
  {
  }

  // After a refusal the byte total is that of the unexpired entries, which is over the cap
  // and over what it was: the cap had been passed unnoticed.
  ghost predicate RefusalExceeds(before: Keys, now: u64, cap: nat, memory: nat) {
    Total(Unexpired(before, now)) > cap && Total(Unexpired(before, now)) > memory
  }

  lemma NothingTaken(policy: EvictionPolicy, before: Keys, after: Keys, memoryBefore: nat, memoryAfter: nat,
                     evicted: seq<Key>)
    requires Evicted(policy, before, after, memoryBefore, memoryAfter, evicted)
    ensures policy.NoEviction? ==> evicted == [] && memoryAfter == memoryBefore
  {
    if policy.NoEviction? { NothingListed(before); }
  }

  lemma NothingLeftToGo(policy: EvictionPolicy, before: Keys, after: Keys, memoryBefore: nat, memoryAfter: nat,
                        evicted: seq<Key>)
    requires Evicted(policy, before, after, memoryBefore, memoryAfter, evicted)
    ensures before == map[] ==> evicted == []
  {
    if evicted != [] {
      assert evicted[0] in evicted && evicted[0] in before;
    }
  }

  lemma NothingGoes(policy: EvictionPolicy, sampleSize: nat, seen: Keys, now: u64)
    ensures Goes(policy, sampleSize, seen, now, [])
  {
  }

  lemma SameListed(a: seq<Key>, b: seq<Key>)
    requires forall k :: k in a <==> k in b
    ensures Listed(a) == Listed(b)
  {
  }

  lemma AdmissibleWhat(policy: EvictionPolicy, sampleSize: nat, seen: Keys, now: u64, room: seq<Key>, needed: nat)
    requires Admissible(policy, sampleSize, seen, now, room, needed)
    ensures |room| <= needed
  {
  }

  lemma GoneFromAll(policy: EvictionPolicy, data: Keys, forgotten: set<Key>, evicted: seq<Key>)
    requires Gone(policy, data - forgotten, data - forgotten - Listed(evicted), evicted)
    ensures Gone(policy, data, data - Listed(evicted), evicted)
    ensures forall k :: k in evicted ==> k !in forgotten
  {
  }

  lemma UnexpiredWithin(data: Keys, forgotten: set<Key>, now: u64)
    requires forgotten <= ExpiredKeys(data, now)
    ensures Total(Unexpired(data, now)) <= Total(data - forgotten)
  {
    UnexpiredIsLess(data - forgotten, now);
    assert Unexpired(data - forgotten, now) == Unexpired(data, now);
  }

  // What is left out stays as it is, and so stays expired.
  lemma ForgottenStayExpired(policy: EvictionPolicy, maxKeys: Option<nat>, before: Keys, forgotten: set<Key>,
                             cmd: Command, now: u64, room: seq<Key>, evicted: seq<Key>, after: Keys, reply: Reply)
    requires Completes(policy, maxKeys, before, cmd, now, room, evicted, after, reply)
    requires MutationScope(cmd).Touches? && forgotten <= ExpiredKeys(before, now)
    requires forgotten - Listed(MutationScope(cmd).keys) <= after.Keys
    ensures forgotten - Listed(MutationScope(cmd).keys) <= ExpiredKeys(after, now)
  {
    hide Effect, RoomNeeded, MutationScope, IsExpired;
    ExecutedWithinScope(before, cmd, maxKeys, room, now);
    var applied := Executed(before, cmd, maxKeys, room, now).0;
    forall k | k in forgotten - Listed(MutationScope(cmd).keys) ensures k in ExpiredKeys(after, now) {
      assert Unchanged(before - Listed(room), applied, k);
    }
  }

  // Each key once.
  function Deduped(keys: seq<Key>): seq<Key> {
    if keys == [] then []
    else if keys[0] in keys[1..] then Deduped(keys[1..])
    else [keys[0]] + Deduped(keys[1..])
  }

  lemma {:induction false} DedupedKeepsKeys(keys: seq<Key>)
    ensures Distinct(Deduped(keys)) && forall k :: k in Deduped(keys) <==> k in keys
    decreases |keys|
  {
    if keys != [] {
      DedupedKeepsKeys(keys[1..]);
      assert keys == [keys[0]] + keys[1..];
    }
  }

  // The size of those of the keys that are out of the byte total.
  function Overlooked(before: Keys, out: set<Key>, keys: seq<Key>): nat {
    if keys == [] then 0
    else (if keys[0] in out then EntryMemory(before, keys[0]) else 0) + Overlooked(before, out, keys[1..])
  }

  lemma {:induction false} MeasuredTwice(before: Keys, out: set<Key>, keys: seq<Key>)
    ensures KeysMemory(before, keys) == KeysMemory(before - out, keys) + Overlooked(before, out, keys)
    decreases |keys|
  {
    if keys != [] {
      MeasuredTwice(before, out, keys[1..]);
    }
  }

  // The entries the metadata names before settling, and those it is to name after.
  ghost function SeenBefore(original: Keys, forgotten: set<Key>, room: seq<Key>): Keys {
    original - forgotten - Listed(room)
  }

  ghost function SeenAfter(data: Keys, forgotten: set<Key>, keys: seq<Key>): Keys {
    data - (forgotten - Listed(keys))
  }

  ghost predicate Settling(original: Keys, data: Keys, forgotten: set<Key>, room: seq<Key>, keys: seq<Key>) {
    && forgotten <= original.Keys && (forall k :: k in room ==> k !in forgotten)
    && forall k :: k !in keys ==> Unchanged(original - Listed(room), data, k)
  }

  lemma SettledMaps(original: Keys, data: Keys, forgotten: set<Key>, room: seq<Key>, keys: seq<Key>)
    requires Settling(original, data, forgotten, room, keys)
    ensures SeenBefore(original, forgotten, room) == original - (Listed(room) + forgotten)
    ensures var mid, seen := SeenBefore(original, forgotten, room), SeenAfter(data, forgotten, keys);
      (forall k :: k !in keys ==> Unchanged(mid, seen, k)) && KeysMemory(seen, keys) == KeysMemory(data, keys)
    ensures forall k :: k in keys ==> k !in forgotten - Listed(keys)
    ensures forgotten - Listed(keys) <= data.Keys
  {
    hide KeysMemory;
    var mid, seen := SeenBefore(original, forgotten, room), SeenAfter(data, forgotten, keys);
    forall k | k !in keys ensures Unchanged(mid, seen, k) {
      assert Unchanged(original - Listed(room), data, k);
    }
    forall k | k in forgotten - Listed(keys) ensures k in data {
      assert Unchanged(original - Listed(room), data, k);
    }
    SameMemory(data, seen, keys);
  }

  lemma SettledTotal(original: Keys, data: Keys, forgotten: set<Key>, room: seq<Key>, keys: seq<Key>, memory: nat)
    requires Distinct(keys) && Settling(original, data, forgotten, room, keys)
    requires memory <= Total(SeenBefore(original, forgotten, room))
    ensures var before, after := KeysMemory(original, keys), KeysMemory(data, keys);
      var lost := Total(SeenBefore(original, forgotten, room)) - memory +
        Overlooked(original, Listed(room) + forgotten, keys);
      SatSub(Total(SeenAfter(data, forgotten, keys)), lost) ==
        if after >= before then memory + (after - before) else SatSub(memory, before - after)
  {
    hide Total, KeysMemory, Overlooked, Unchanged, Listed, Distinct, SatSub, SeenBefore, SeenAfter, Settling;
    SettledMaps(original, data, forgotten, room, keys);
    MeasuredTwice(original, Listed(room) + forgotten, keys);
    var mid, seen := SeenBefore(original, forgotten, room), SeenAfter(data, forgotten, keys);
    TotalOfTouched(mid, seen, keys);
    SettledBy(Total(mid), Total(seen), KeysMemory(mid, keys), KeysMemory(data, keys), KeysMemory(original, keys), memory,
              Overlooked(original, Listed(room) + forgotten, keys));
  }

  lemma SettledBy(total1: nat, total2: nat, touched1: nat, touched2: nat, measured: nat, memory: nat, lost: nat)
    requires total1 + touched2 == total2 + touched1 && measured == touched1 + lost && memory <= total1
    ensures SatSub(total2, total1 - memory + lost) ==
      if touched2 >= measured then memory + (touched2 - measured) else SatSub(memory, measured - touched2)
  {
  }

  lemma {:induction false} SameMemory(a: Keys, b: Keys, keys: seq<Key>)
    requires forall k :: k in keys ==> Unchanged(a, b, k)
    ensures KeysMemory(a, keys) == KeysMemory(b, keys)
    decreases |keys|
  {
    if keys != [] {
      assert keys[0] in keys;
      SameMemory(a, b, keys[1..]);
    }
  }

  lemma {:induction false} UnexpiredIsLess(data: Keys, now: u64)
    ensures Total(Unexpired(data, now)) <= Total(data)
    decreases |data|
  {
    if data == map[] {
      assert Unexpired(data, now) == map[];
    } else {
      var k :| k in data;
      UnexpiredIsLess(data - {k}, now);
      TotalWithout(data, k);
      TotalWithout(Unexpired(data, now), k);
      assert Unexpired(data - {k}, now) == Unexpired(data, now) - {k};
    }
  }

  // What a finished command did: evictions to make room, its effect, evictions to get
  // back under the memory cap; and the reported list names all of them.
  ghost predicate Completes(policy: EvictionPolicy, maxKeys: Option<nat>, before: Keys, cmd: Command, now: u64,
                            room: seq<Key>, evicted: seq<Key>, after: Keys, reply: Reply)
  {
    && |room| <= RoomNeeded(before, cmd, maxKeys)
    && room <= evicted
    && Gone(policy, before, before - Listed(room), room)
    && var (applied, r) := Executed(before, cmd, maxKeys, room, now);
       reply == r && Gone(policy, applied, after, evicted[|room|..])
  }

  lemma CompletesBy(policy: EvictionPolicy, maxKeys: Option<nat>, before: Keys, cmd: Command, now: u64,
                    room: seq<Key>, more: seq<Key>, applied: Keys, after: Keys, reply: Reply)
    requires |room| <= RoomNeeded(before, cmd, maxKeys)
    requires Gone(policy, before, before - Listed(room), room) && Gone(policy, applied, after, more)
    requires (applied, reply) == Executed(before, cmd, maxKeys, room, now)
    ensures Completes(policy, maxKeys, before, cmd, now, room, room + more, after, reply)
  {
    hide Gone, Executed, RoomNeeded;
    assert (room + more)[|room|..] == more;
  }

  lemma NothingGone(policy: EvictionPolicy, data: Keys)
    ensures Gone(policy, data, data, [])
  {
    assert Listed([]) == {};
  }

  // Under NoEviction neither stage evicts anything.
  lemma NoEvictionKeepsAll(policy: EvictionPolicy, before: Keys, after: Keys, evicted: seq<Key>)
    requires Gone(policy, before, after, evicted) && policy.NoEviction?
    ensures evicted == [] && after == before
  {
    assert Listed([]) == {};
  }

  lemma ExecutedWithinScope(before: Keys, cmd: Command, maxKeys: Option<nat>, room: seq<Key>, now: u64)
    requires MutationScope(cmd).Touches?
    ensures var after := Executed(before, cmd, maxKeys, room, now).0;
      forall k :: k !in MutationScope(cmd).keys ==> Unchanged(before - Listed(room), after, k)
  {
    hide Effect, RoomNeeded, Listed;
    var mid := before - Listed(room);
    forall k | k !in MutationScope(cmd).keys
      ensures Unchanged(mid, Executed(before, cmd, maxKeys, room, now).0, k)
    {
      FrameIsSound(mid, cmd, now, k);
    }
  }

  // Some keys as they are afterwards, all others as they were before.
  ghost function Patched(before: Keys, after: Keys, keys: seq<Key>): Keys {
    map k | k in before.Keys + after.Keys && (if k in keys then k in after else k in before) ::
      if k in keys then after[k] else before[k]
  }

  lemma PatchedNothing(before: Keys, after: Keys)
    ensures Patched(before, after, []) == before
  {
  }

  lemma PatchedMore(before: Keys, after: Keys, keys: seq<Key>, key: Key)
    ensures var was, next := Patched(before, after, keys), Patched(before, after, keys + [key]);
      && next.Keys == (if key in after then was.Keys + {key} else was.Keys - {key})
      && VolatileKeys(next) ==
           if key in after && after[key].expiresAt.Some? then VolatileKeys(was) + {key} else VolatileKeys(was) - {key}
  {
    var was, next := Patched(before, after, keys), Patched(before, after, keys + [key]);
    forall k | k != key ensures Unchanged(was, next, k) {}
    forall k ensures k in VolatileKeys(next) <==>
      if k == key then key in after && after[key].expiresAt.Some? else k in VolatileKeys(was)
    {
      assert k != key ==> Unchanged(was, next, k);
    }
  }

  lemma PatchedAll(before: Keys, after: Keys, keys: seq<Key>)
    requires forall k :: k !in keys ==> Unchanged(before, after, k)
    ensures Patched(before, after, keys) == after
  {
    forall k ensures Unchanged(Patched(before, after, keys), after, k) {
      assert k !in keys ==> Unchanged(before, after, k);
    }
    SameEverywhere(Patched(before, after, keys), after);
  }

  function CountNew(data: Keys, pairs: seq<(Key, bytes)>): nat {
    if pairs == [] then 0 else (if pairs[0].0 in data then 0 else 1) + CountNew(data, pairs[1..])
  }

  // How many keys a command has to evict to stay within the key cap.
  function RoomNeeded(data: Keys, cmd: Command, maxKeys: Option<nat>): nat {
    if maxKeys.None? then 0
    else
      match cmd
      case SetKey(key, _, _) => if |data| >= maxKeys.value && key !in data then 1 else 0
      case MSet(pairs) => SatSub(CountNew(data, pairs), SatSub(maxKeys.value, |data|))
      case _ => 0
  }

  // Map and reply after a command that evicted `room`.
  ghost function Executed(data: Keys, cmd: Command, maxKeys: Option<nat>, room: seq<Key>, now: u64): (Keys, Reply) {
    var mid := data - Listed(room);
    if |room| < RoomNeeded(data, cmd, maxKeys) then (mid, MaxKeysReached) else Effect(mid, cmd, now)
  }

  // Where an eviction pass aims, a sixteenth below the cap.
  function LowWater(limit: nat): nat {
    limit - limit / EVICTION_HEADROOM_DIVISOR
  }

  // With the last of the evicted still there the total would be above the mark.
  ghost predicate NoneTooMany(before: Keys, evicted: seq<Key>, memory: nat, low: nat) {
    evicted != [] ==>
      var last := evicted[|evicted| - 1];
      last in before && memory + EntrySize(last, before[last]) > low
  }

  // Nothing goes without a memory cap, and nothing more once the low mark is reached.
  ghost predicate OnlyForMemory(maxMemory: Option<nat>, before: Keys, evicted: seq<Key>, memory: nat) {
    if maxMemory.None? then evicted == [] else NoneTooMany(before, evicted, memory, LowWater(maxMemory.value))
  }

  lemma AllForMemory(maxMemory: Option<nat>, before: Keys, evicted: seq<Key>, memory: nat)
    requires maxMemory.Some? && NoneTooMany(before, evicted, memory, LowWater(maxMemory.value))
    ensures OnlyForMemory(maxMemory, before, evicted, memory)
  {
  }

  lemma NoneForMemory(maxMemory: Option<nat>, before: Keys, memory: nat)
    ensures OnlyForMemory(maxMemory, before, [], memory)
  {
  }

  // Evictions that made room for `needed` keys, or as far as the policy could, each of
  // them one that the policy could choose next.
  ghost predicate Admissible(policy: EvictionPolicy, sampleSize: nat, seen: Keys, now: u64, room: seq<Key>,
                             needed: nat)
  {
    && |room| <= needed && Gone(policy, seen, seen - Listed(room), room)
    && Goes(policy, sampleSize, seen, now, room)
    && (|room| < needed ==> EligibleIn(policy, seen - Listed(room)) == {})
  }

  // What evictions leave: some keys gone, none twice, none without a TTL under a
  // volatile policy, and the rest as they were.
  ghost predicate Gone(policy: EvictionPolicy, before: Keys, after: Keys, evicted: seq<Key>) {
    && Distinct(evicted)
    && (forall k :: k in evicted ==> k in before && (IsVolatile(policy) ==> before[k].expiresAt.Some?))
    && after == before - Listed(evicted)
    && (policy.NoEviction? ==> evicted == [])
  }

  // And the byte total less by what they took.
  ghost predicate Evicted(policy: EvictionPolicy, before: Keys, after: Keys, memoryBefore: nat, memoryAfter: nat,
                          evicted: seq<Key>)
  {
    && Gone(policy, before, after, evicted)
    && Total(after) <= Total(before)
    && memoryAfter == SatSub(memoryBefore, Total(before) - Total(after))
  }

  lemma NothingEvicted(policy: EvictionPolicy, data: Keys, memory: nat)
    ensures Evicted(policy, data, data, memory, memory, [])
  {
    assert Listed([]) == {};
  }

  lemma EvictedWhat(policy: EvictionPolicy, before: Keys, after: Keys, memoryBefore: nat, memoryAfter: nat,
                    evicted: seq<Key>)
    requires Evicted(policy, before, after, memoryBefore, memoryAfter, evicted)
    ensures memoryBefore <= Total(before) ==> memoryAfter <= Total(after)
    ensures memoryBefore == Total(before) ==> memoryAfter == Total(after)
    ensures after == before - Listed(evicted) && Gone(policy, before, after, evicted)
    ensures Total(after) <= Total(before) && memoryAfter == SatSub(memoryBefore, Total(before) - Total(after))
  {
  }

  lemma EvictedMore(policy: EvictionPolicy, before: Keys, mid: Keys, after: Keys,
                    memoryBefore: nat, memoryMid: nat, memoryAfter: nat, evicted: seq<Key>, key: Key)
    requires Evicted(policy, before, mid, memoryBefore, memoryMid, evicted)
    requires key in mid && (IsVolatile(policy) ==> mid[key].expiresAt.Some?) && !policy.NoEviction?
    requires after == mid - {key} && memoryAfter == SatSub(memoryMid, EntrySize(key, mid[key]))
    ensures Evicted(policy, before, after, memoryBefore, memoryAfter, evicted + [key])
    ensures |after| < |mid|
  {
    TotalWithout(mid, key);
    GoneMore(policy, before, mid, after, evicted, key);
    OneKeyLess(mid, key);
    hide Total, EntrySize, Gone;
  }

  lemma OneKeyLess(data: Keys, key: Key)
    requires key in data
    ensures |data - {key}| < |data|
  {
    assert data.Keys == (data - {key}).Keys + {key};
  }

  lemma GoneMore(policy: EvictionPolicy, before: Keys, mid: Keys, after: Keys, evicted: seq<Key>, key: Key)
    requires Gone(policy, before, mid, evicted) && !policy.NoEviction?
    requires key in mid && (IsVolatile(policy) ==> mid[key].expiresAt.Some?) && after == mid - {key}
    ensures Gone(policy, before, after, evicted + [key])
  {
    RemoveOneMore(before, Listed(evicted), key);
    ListedMore(evicted, key);
    hide Listed;
  }

  lemma RemoveOneMore(data: Keys, gone: set<Key>, key: Key)
    ensures data - gone - {key} == data - (gone + {key})
  {
  }

  lemma ListedMore(keys: seq<Key>, key: Key)
    ensures Listed(keys + [key]) == Listed(keys) + {key}
    ensures Distinct(keys) && key !in keys ==> Distinct(keys + [key])
    ensures forall k :: k in Listed(keys) <==> k in keys
  {
  }

  lemma DenseIsAsLarge(dense: DenseKeys)
    requires dense.Valid()
    ensures |dense.keys| == |dense.Members()|
    ensures dense.keys == [] <==> dense.Members() == {}
    ensures forall i :: 0 <= i < |dense.keys| ==> dense.keys[i] in dense.Members()
    ensures forall k :: k in dense.keys <==> k in dense.Members()
  {
    DistinctIsAsLarge(dense.keys, dense.Members());
  }

  lemma {:induction false} DistinctIsAsLarge(source: seq<Key>, elements: set<Key>)
    requires forall i, j :: 0 <= i < j < |source| ==> source[i] != source[j]
    requires forall k :: k in elements <==> k in source
    ensures |source| == |elements|
    decreases |source|
  {
    if source == [] {
      assert elements == {};
    } else {
      assert source == [source[0]] + source[1..];
      DistinctIsAsLarge(source[1..], elements - {source[0]});
    }
  }

  ghost predicate RestOf(data: Keys, todo: Keys, done: Keys) {
    && (forall k :: k in data <==> k in todo || k in done)
    && (forall k :: k in todo ==> k !in done && todo[k] == data[k])
    && forall k :: k in done ==> done[k] == data[k]
  }

  lemma TakeOne(data: Keys, todo: Keys, done: Keys, k: Key)
    requires RestOf(data, todo, done) && k in todo
    ensures k !in done && |todo - {k}| < |todo|
    ensures RestOf(data, todo - {k}, done[k := todo[k]])
  {
    assert todo.Keys == (todo - {k}).Keys + {k};
  }

  lemma NothingUnexpired(now: u64)
    ensures Unexpired(map[], now) == map[] && Total(map[]) == 0 && VolatileKeys(map[]) == {}
  {
  }

  // One more entry in the rebuilt metadata, or none if it has expired.
  lemma RebuildOne(done: Keys, k: Key, e: Entry, now: u64)
    requires k !in done
    ensures var was, next := Unexpired(done, now), Unexpired(done[k := e], now);
      if IsExpired(e, now) then next == was
      else
        && next.Keys == was.Keys + {k}
        && VolatileKeys(next) == (if e.expiresAt.Some? then VolatileKeys(was) + {k} else VolatileKeys(was) - {k})
        && Total(next) == Total(was) + EntrySize(k, e)
  {
    hide Total, EntrySize;
    var was, next := Unexpired(done, now), Unexpired(done[k := e], now);
    if IsExpired(e, now) {
      assert next == was;
    } else {
      assert next == was[k := e];
      assert next - {k} == was;
      TotalWithout(next, k);
    }
  }

  ghost function Unexpired(data: Keys, now: u64): Keys {
    map k | k in data && !IsExpired(data[k], now) :: data[k]
  }
}
