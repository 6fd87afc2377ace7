/**
 The memory cap of a store that refuses instead of evicting.

 A refused write is taken back and the metadata rebuilt from the unexpired entries. If
 the byte total had fallen short of them, the rebuilt total is higher than it was, and
 can be over the cap: entries had passed it uncounted.
 */
module Refusal {
  import opened Bytes
  import opened Keyspace
  import opened Store

  type Key = Keyspace.Key

  // While the total falls short of nothing, a refusal never raises it.
  lemma NothingShortNothingExceeds(s: KeyValueStore, now: u64, cap: nat)
    requires s.Valid(now) && s.Short() == 0
    ensures !RefusalExceeds(s.data, now, cap, s.memoryBytes)
  {
    hide Unexpired, Total, ExpiredKeys, KeyValueStore.IndexShadows;
    UnexpiredWithin(s.data, s.forgotten, now);
  }

  // A SET without conditions, where no key cap and no eviction interferes: refused iff the
  // total would pass both the cap and what it was.
  method Set(s: KeyValueStore, key: Key, val: bytes, ttl: Option<u64>, now: u64) returns (reply: Reply)
    requires s.Valid(now) && s.policy.NoEviction? && s.maxKeys.None? && s.maxMemory.Some?
    modifies s`data, s`memoryBytes, s`evictedCount, s`forgotten, s.index, s.index.all, s.index.volatile
    ensures s.Valid(now)
    ensures var e := Entry(Str(val), if ttl.Some? then Some(SatAdd(now, ttl.value)) else None, now);
      var would := Adjusted(old(s.memoryBytes), EntryMemory(old(s.data), key), EntrySize(key, e));
      if would > s.maxMemory.value && would > old(s.memoryBytes) then
        reply == OutOfMemory && s.data == old(s.data) && s.memoryBytes == Total(Unexpired(s.data, now))
      else
        reply == Status && s.data == old(s.data)[key := e] && s.memoryBytes == would
  {
    var opts := SetOptions(if ttl.Some? then Some(Px(ttl.value)) else None, None, false);
    SetWouldUse(s.memoryBytes, s.data, key, val, opts, now);
    hide WouldUse, Total, Unexpired, RefusalExceeds, Adjusted, EntrySize, Goes, Admissible, LowWater, Uncounted;
    hide KeyValueStore.Valid, ShortBetween, StillForgotten, ExpiredKeys, EligibleIn, Executed, Completes, MutationScope;
    ghost var before := s.data;
    var evicted;
    ghost var room, refused;
    reply, evicted, room, refused := s.ExecuteReporting(SetKey(key, val, opts), now);
    if !refused {
      SetCompleted(s.policy, before, key, val, opts, now, room, evicted, s.data, reply);
    }
  }

  lemma SetWouldUse(memory: nat, before: Keys, key: Key, val: bytes, opts: SetOptions, now: u64)
    requires opts.condition.None? && !opts.get && (opts.expiry.Some? ==> opts.expiry.value.Px?)
    ensures var e := Entry(Str(val), if opts.expiry.Some? then Some(SatAdd(now, opts.expiry.value.ms)) else None, now);
      && Effect(before, SetKey(key, val, opts), now) == (before[key := e], Status)
      && WouldUse(memory, before, SetKey(key, val, opts), None, now) ==
         Adjusted(memory, EntryMemory(before, key), EntrySize(key, e))
  {
    NothingListed(before);
    var after := Effect(before, SetKey(key, val, opts), now).0;
    var one := [key];
    assert one[1..] == [] && Deduped(one[1..]) == [];
    assert Deduped(one) == [key] + [] == one;
    assert KeysMemory(before, one) == EntryMemory(before, key) + KeysMemory(before, one[1..]);
    assert KeysMemory(after, one) == EntryMemory(after, key) + KeysMemory(after, one[1..]);
  }

  lemma SetCompleted(policy: EvictionPolicy, before: Keys, key: Key, val: bytes, opts: SetOptions, now: u64,
                     room: seq<Key>, evicted: seq<Key>, after: Keys, reply: Reply)
    requires policy.NoEviction?
    requires Completes(policy, None, before, SetKey(key, val, opts), now, room, evicted, after, reply)
    ensures (after, reply) == Effect(before, SetKey(key, val, opts), now)
  {
    hide Effect;
    NothingListed(before);
    var applied := Executed(before, SetKey(key, val, opts), None, room, now).0;
    NoEvictionKeepsAll(policy, applied, after, evicted[|room|..]);
  }

  function Zeros(n: nat): (s: bytes)
    ensures |s| == n
  {
    seq(n, _ => 0)
  }

  lemma TotalOfOne(k: Key, e: Entry)
    ensures Total(map[k := e]) == EntrySize(k, e)
  {
    var one := map[k := e];
    TotalWithout(one, k);
    assert one - {k} == map[];
  }

  lemma TotalOfTwo(k: Key, e: Entry, l: Key, f: Entry)
    requires k != l
    ensures Total(map[k := e, l := f]) == EntrySize(k, e) + EntrySize(l, f)
  {
    var two := map[k := e, l := f];
    TotalWithout(two, k);
    assert two - {k} == map[l := f];
    TotalOfOne(l, f);
  }

  // Under a cap of 300 bytes: k is written to expire; a refused write leaves it out of the
  // total; writing it again subtracts it from a total it is not in; so b fits although the
  // entries now come to 330 bytes, and the next refusal shows that. It is above the cap and
  // above the 265 bytes counted before.
  method PassesTheCap(k: Key, a: Key, b: Key, c: Key) returns (s: KeyValueStore, counted: nat, reply: Reply)
    requires |k| == |a| == |b| == |c| == 1 && k !in [a, b, c] && b != c
    ensures fresh(s) && s.Valid(5) && s.maxMemory == Some(300) && s.policy.NoEviction? && s.maxKeys.None?
    ensures reply == OutOfMemory && counted == 265 && s.memoryBytes == 330
  {
    hide Total, Unexpired, KeyValueStore.Valid;
    s := new KeyValueStore(None, Some(300), NoEviction, 10);
    reply := Set(s, k, Zeros(100), Some(1), 0);
    ghost var first := Entry(Str(Zeros(100)), Some(1), 0);
    assert s.data == map[k := first] && s.memoryBytes == 165;
    s.ValidLater(0, 5);
    reply := Set(s, a, Zeros(200), None, 5);
    assert Unexpired(map[k := first], 5) == map[] by { ExpiredLeavesNothing(k, first, 5); }
    assert s.memoryBytes == 0 by { TotalOfNothing(); }
    reply := Set(s, k, Zeros(0), None, 5);
    reply := Set(s, b, Zeros(200), None, 5);
    counted := s.memoryBytes;
    ghost var again, other := Entry(Str(Zeros(0)), None, 5), Entry(Str(Zeros(200)), None, 5);
    assert s.data == map[k := again, b := other];
    reply := Set(s, c, Zeros(0), None, 5);
    WithoutTtlStays(k, again, b, other, 5);
    TotalOfTwo(k, again, b, other);
  }

  lemma TotalOfNothing()
    ensures Total(map[]) == 0
  {
  }

  lemma ExpiredLeavesNothing(k: Key, e: Entry, now: u64)
    requires IsExpired(e, now)
    ensures Unexpired(map[k := e], now) == map[]
  {
  }

  lemma WithoutTtlStays(k: Key, e: Entry, l: Key, f: Entry, now: u64)
    requires e.expiresAt.None? && f.expiresAt.None?
    ensures Unexpired(map[k := e, l := f], now) == map[k := e, l := f]
  {
  }
}
