/** The key metadata kept beside the map: dense arrays for sampling and an ordered set for SCAN. */
module KeyIndex {
  import opened Bytes
  import opened Order

  type Key = bytes

  // What a swap-removal leaves: the last element takes the freed place.
  function SwapRemoved<T>(s: seq<T>, pos: nat): seq<T>
    requires pos < |s|
  {
    var n := |s| - 1;
    if pos == n then s[..n] else s[..n][pos := s[n]]
  }

  // An array of distinct keys with the position of each.
  class DenseKeys {
    var keys: seq<Key>
    var positions: map<Key, nat>

    ghost predicate Valid()
      reads this
    {
      && (forall k :: k in positions ==> positions[k] < |keys| && keys[positions[k]] == k)
      && forall i :: 0 <= i < |keys| ==> keys[i] in positions && positions[keys[i]] == i
    }

    ghost function Members(): set<Key>
      reads this
    {
      positions.Keys
    }

    constructor ()
      ensures Valid() && Members() == {} && keys == []
    {
      keys, positions := [], map[];
    }

    method Clear()
      modifies this
      ensures Valid() && Members() == {} && keys == []
    {
      keys, positions := [], map[];
    }

    method Add(key: Key)
      requires Valid()
      modifies this
      ensures Valid() && Members() == old(Members()) + {key}
      ensures keys == if key in old(Members()) then old(keys) else old(keys) + [key]
    {
      if key in positions {
        assert Members() == Members() + {key};
        return;
      }
      var pos := |keys|;
      keys := keys + [key];
      positions := positions[key := pos];
    }

    method Drop(key: Key)
      requires Valid()
      modifies this
      ensures Valid() && Members() == old(Members()) - {key}
      ensures keys == if key in old(Members()) then SwapRemoved(old(keys), old(positions)[key]) else old(keys)
    {
      if key !in positions {
        assert Members() == Members() - {key};
        return;
      }
      var pos := positions[key];
      positions := positions - {key};
      keys := SwapRemoved(keys, pos);
      if pos < |keys| {
        positions := positions[keys[pos] := pos];
      }
    }
  }

  class Index {
    var ordered: seq<Key>
    const all: DenseKeys
    const volatile: DenseKeys

    ghost predicate Valid()
      reads this, all, volatile
    {
      && all != volatile && all.Valid() && volatile.Valid()
      && Lists(ordered, all.Members(), Less)
    }

    constructor ()
      ensures Valid() && all.Members() == {} && volatile.Members() == {}
      ensures fresh(all) && fresh(volatile)
    {
      ordered := [];
      all := new DenseKeys();
      volatile := new DenseKeys();
    }

    method Clear()
      requires all != volatile
      modifies this, all, volatile
      ensures Valid() && all.Members() == {} && volatile.Members() == {}
    {
      ordered := [];
      all.Clear();
      volatile.Clear();
    }

    // Brings one key in step: None for a key that is gone, otherwise whether it has a TTL.
    method Sync(key: Key, ttl: Option<bool>)
      requires Valid()
      modifies this, all, volatile
      ensures Valid()
      ensures all.Members() == if ttl.None? then old(all.Members()) - {key} else old(all.Members()) + {key}
      ensures volatile.Members() ==
        if ttl == Some(true) then old(volatile.Members()) + {key} else old(volatile.Members()) - {key}
      ensures volatile.Members() == old(volatile.Members()) ==> volatile.keys == old(volatile.keys)
    {
      LessIsStrictOrder();
      match ttl {
        case None =>
          RemoveLists(ordered, all.Members(), key, Less);
          ordered := Remove(ordered, key);
          all.Drop(key);
          volatile.Drop(key);
        case Some(hasTtl) =>
          InsertLists(ordered, all.Members(), key, Less);
          ordered := Insert(ordered, key, Less);
          all.Add(key);
          if hasTtl {
            volatile.Add(key);
          } else {
            volatile.Drop(key);
          }
      }
    }
  }

  lemma AroundOne<T>(s: seq<T>, i: nat)
    requires i < |s|
    ensures multiset(s) == multiset(s[..i]) + multiset{s[i]} + multiset(s[i + 1..])
  {
    var back := s[i..];
    assert back == [s[i]] + s[i + 1..];
    assert s == s[..i] + back;
  }

  lemma AfterReplacing<T>(s: seq<T>, i: nat, x: T)
    requires i < |s|
    ensures multiset(s[i := x]) + multiset{s[i]} == multiset(s) + multiset{x}
  {
    var t := s[i := x];
    AroundOne(s, i);
    AroundOne(t, i);
    assert t[..i] == s[..i] && t[i + 1..] == s[i + 1..];
  }

  // Swap-removal is removal: the others stay, without repetition.
  lemma SwapRemovedKeepsOthers<T>(s: seq<T>, pos: nat)
    requires pos < |s|
    ensures multiset(SwapRemoved(s, pos)) == multiset(s) - multiset{s[pos]}
  {
    var n := |s| - 1;
    var front := s[..n];
    assert s == front + [s[n]];
    if pos != n {
      AfterReplacing(front, pos, s[n]);
    }
  }
}
