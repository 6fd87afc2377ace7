/**
 What the commands promise, each as `Effect` carries it out on a map of keys.

 A command is described by its reply and by what can be found in the map afterwards; keys
 it does not name keep their entries. `Readable` is liveness in plain terms.
 */
module Commands {
  import opened Bytes
  import opened Keyspace
  import Decimal
  import Json
  import KeyIndex

  type Key = Keyspace.Key

  ghost predicate Readable(data: Keys, key: Key, t: u64) {
    key in data && (data[key].expiresAt.Some? ==> t < data[key].expiresAt.value)
  }

  // All but one key as before.
  ghost predicate OnlyAt(before: Keys, after: Keys, key: Key) {
    after - {key} == before - {key}
  }

  lemma LiveIsReadable(data: Keys, key: Key, t: u64)
    ensures IsLive(data, key, t) <==> Readable(data, key, t)
  {
  }

  // ── Reading, expiring, renaming ─────────────────────────────────────────────

  // GET shows the string of a key that is there and has not reached its deadline, and
  // changes nothing but that entry's time of last use.
  lemma GetShowsTheString(data: Keys, key: Key, now: u64)
    ensures var (after, reply) := Effect(data, Get(key), now);
      && reply == (if !Readable(data, key, now) then Nil
                   else if data[key].value.Str? then Bulk(data[key].value.data) else WrongType)
      && after == if reply.Bulk? then data[key := data[key].(lastAccess := now)] else data
  {
  }

  // What SET wrote can be read until its deadline, and not from then on.
  lemma GetAfterSet(data: Keys, key: Key, val: bytes, opts: SetOptions, now: u64, t: u64)
    requires SetMayWrite(data, key, opts, now)
    ensures var after := Effect(data, SetKey(key, val, opts), now).0;
      key in after &&
      Effect(after, Get(key), t).1 ==
        if after[key].expiresAt.Some? && after[key].expiresAt.value <= t then Nil else Bulk(val)
  {
    SetObeysItsOptions(data, key, val, opts, now);
    GetShowsTheString(Effect(data, SetKey(key, val, opts), now).0, key, t);
    hide Effect;
  }

  // EXPIRE decides until when a live key can be read, in seconds from now and no later than
  // a 64-bit clock reaches; it touches nothing else, and does nothing to a key that is not
  // live.
  lemma ExpireDecides(data: Keys, key: Key, seconds: u64, now: u64, t: u64)
    ensures var (after, reply) := Effect(data, Expire(key, seconds), now);
      var deadline := now + 1000 * seconds;
      if Readable(data, key, now) then
        && reply == Int(1) && key in after && OnlyAt(data, after, key)
        && after[key].value == data[key].value && after[key].lastAccess == data[key].lastAccess
        && (Readable(after, key, t) <==> t < if deadline > U64_MAX then U64_MAX else deadline)
      else reply == Int(0) && after == data
  {
    var after := Effect(data, Expire(key, seconds), now).0;
    if Readable(data, key, now) { assert OnlyAt(data, after, key); }
  }

  // PERSIST takes any deadline back, and says whether there was one.
  lemma PersistKeeps(data: Keys, key: Key, now: u64, t: u64)
    ensures var (after, reply) := Effect(data, Persist(key), now);
      && reply == Int(if Readable(data, key, now) && data[key].expiresAt.Some? then 1 else 0)
      && (reply == Int(0) ==> after == data)
      && (Readable(data, key, now) ==>
            && Readable(after, key, t) && OnlyAt(data, after, key)
            && after[key].value == data[key].value && after[key].lastAccess == data[key].lastAccess)
  {
    var after := Effect(data, Persist(key), now).0;
    if Readable(data, key, now) { assert OnlyAt(data, after, key); }
  }

  // So EXPIRE and PERSIST leave a key that had no deadline as it was.
  lemma PersistUndoesExpire(data: Keys, key: Key, seconds: u64, now: u64, then_: u64)
    requires Readable(data, key, now) && data[key].expiresAt.None?
    requires Readable(Effect(data, Expire(key, seconds), now).0, key, then_)
    ensures Effect(Effect(data, Expire(key, seconds), now).0, Persist(key), then_) == (data, Int(1))
  {
    var after := Effect(data, Expire(key, seconds), now).0;
    assert after[key].(expiresAt := None) == data[key];
    assert Effect(after, Persist(key), then_).0 == data;
  }

  // RENAME moves the whole entry, deadline included; a source that is not live is an error,
  // and if it has expired it is gone.
  lemma RenameMoves(data: Keys, src: Key, dst: Key, now: u64, k: Key)
    ensures var (after, reply) := Effect(data, Rename(src, dst), now);
      if Readable(data, src, now) then
        && reply == Status && dst in after && after[dst] == data[src]
        && (src != dst ==> src !in after) && (k != src && k != dst ==> Unchanged(data, after, k))
      else reply == NoSuchKey && after == data - {src}
  {
    if src !in data { assert data - {src} == data; }
  }

  // ── Strings and sets ────────────────────────────────────────────────────────

  // DEL removes exactly the live keys it names, and counts them.
  lemma DelRemovesLiveKeys(data: Keys, keys: seq<Key>, now: u64)
    ensures var (after, reply) := Effect(data, Del(keys), now);
      && reply == Int(|data| - |after|)
      && (forall k :: k in after <==> k in data && !(k in keys && Readable(data, k, now)))
      && forall k :: k in after ==> after[k] == data[k]
  {
    DelOneByOne(data, keys, now);
    forall k ensures IsLive(data, k, now) <==> Readable(data, k, now) { LiveIsReadable(data, k, now); }
    hide Readable, IsLive, DelEffect;
  }

  lemma {:induction false} DelOneByOne(data: Keys, keys: seq<Key>, now: u64)
    ensures var (after, n) := DelEffect(data, keys, now);
      && |after| + n == |data|
      && forall k :: k in after <==> k in data && !(k in keys && IsLive(data, k, now))
    ensures forall k :: k in DelEffect(data, keys, now).0 ==> DelEffect(data, keys, now).0[k] == data[k]
    decreases |keys|
  {
    if keys != [] {
      assert keys == [keys[0]] + keys[1..];
      var next := if IsLive(data, keys[0], now) then data - {keys[0]} else data;
      assert IsLive(data, keys[0], now) ==> data.Keys == next.Keys + {keys[0]};
      DelOneByOne(next, keys[1..], now);
    }
  }

  // INCR stores what it answers: the old number, or 0 if there is nothing live, plus the
  // delta. It is refused for another type, for text that is no 64-bit number and for a sum
  // beyond 64 bits, and then changes nothing.
  lemma IncrAddsUp(data: Keys, key: Key, delta: Decimal.i64, now: u64)
    ensures var (after, reply) := Effect(data, IncrBy(key, delta), now);
      var live := IsLive(data, key, now);
      var n: Option<int> :=
        if !live then Some(0)
        else if !data[key].value.Str? then None
        else if Decimal.ParseI64(data[key].value.data).None? then None
        else Some(Decimal.ParseI64(data[key].value.data).value);
      if n.Some? && -Decimal.I64_END <= n.value + delta < Decimal.I64_END then
        && reply == Int(n.value + delta) && key in after && OnlyAt(data, after, key)
        && after[key].value.Str? && Decimal.ParseI64(after[key].value.data) == Some(n.value + delta)
        && after[key].expiresAt == (if live then data[key].expiresAt else None)
      else
        && after == data
        && reply == if n.Some? then IncrementOverflow
                    else if data[key].value.Str? then NotAnInteger else WrongType
  {
    ZeroParses();
    hide Decimal.ParseI64, Decimal.Format;
    var (after, reply) := Effect(data, IncrBy(key, delta), now);
    if reply.Int? {
      Decimal.FormatRoundTrip(reply.n);
      assert OnlyAt(data, after, key);
    } else if IsLive(data, key, now) {
      assert data[key := data[key]] == data;
    }
  }

  lemma ZeroParses()
    ensures Decimal.ParseI64([Decimal.ZERO]) == Some(0)
  {
    Decimal.DigitsRoundTrip(0);
    assert Decimal.Digits(0) == [Decimal.ZERO];
  }

  // SINTERSTORE stores the members common to all sources; any source that is missing
  // or expired makes that nothing, and so does naming none.
  lemma SInterStoreIsIntersection(data: Keys, dst: Key, sources: seq<Key>, now: u64, m: bytes)
    ensures var (after, reply) := Effect(data, SInterStore(dst, sources), now);
      if forall i :: 0 <= i < |sources| && IsLive(data, sources[i], now) ==> data[sources[i]].value.Members? then
        && dst in after && after[dst].value.Members? && after[dst].expiresAt == None
        && reply == Int(|after[dst].value.members|)
        && (m in after[dst].value.members <==>
              sources != [] &&
              forall i :: 0 <= i < |sources| ==>
                IsLive(data, sources[i], now) && data[sources[i]].value.Members? && m in data[sources[i]].value.members)
      else after == data && reply == WrongType
  {
    SourcesAreMembers(data, sources, now);
    var found := Sources(data, sources, now);
    if found.Some? && found.value != [] && found.value[0].Some? {
      KeptIff(found.value[0].value, found.value, m);
    }
  }

  lemma {:induction false} SourcesAreMembers(data: Keys, sources: seq<Key>, now: u64)
    ensures var found := Sources(data, sources, now);
      && (found.None? <==>
            exists i :: 0 <= i < |sources| && IsLive(data, sources[i], now) && !data[sources[i]].value.Members?)
      && (found.Some? ==> |found.value| == |sources|)
      && (found.Some? ==>
            forall i :: 0 <= i < |sources| ==>
              if IsLive(data, sources[i], now) then
                data[sources[i]].value.Members? && found.value[i] == Some(data[sources[i]].value.members)
              else found.value[i] == None)
    decreases |sources|
  {
    if sources != [] {
      SourcesAreMembers(data, sources[1..], now);
      assert forall i :: 0 < i < |sources| ==> sources[i] == sources[1..][i - 1];
      assert forall i :: 0 <= i < |sources| - 1 ==> sources[1..][i] == sources[i + 1];
    }
  }

  lemma {:induction false} KeptIff(members: seq<bytes>, sets: seq<Option<seq<bytes>>>, m: bytes)
    ensures m in Kept(members, sets) <==> m in members && InAll(sets, m)
    decreases |members|
  {
    if members != [] {
      KeptIff(members[1..], sets, m);
      assert members == [members[0]] + members[1..];
    }
  }

  lemma TakeMemberTakesOne(members: seq<bytes>, m: bytes)
    requires m in members
    ensures multiset(TakeMember(members, m)) == multiset(members) - multiset{m}
  {
    KeyIndex.SwapRemovedKeepsOthers(members, PositionOf(members, m));
  }

  // SMOVE between two keys answers 1 iff the member is in a live source set and nothing
  // but a set is in its way; then one occurrence leaves the source, and it is in the
  // destination exactly once more unless it was already there. Otherwise nothing changes,
  // and another type on either side is an error.
  lemma SMoveConserves(data: Keys, src: Key, dst: Key, m: bytes, now: u64)
    requires src != dst
    ensures var (after, reply) := Effect(data, SMove(src, dst, m), now);
      var from, to := IsLive(data, src, now), IsLive(data, dst, now);
      if (from && !data[src].value.Members?) || (to && !data[dst].value.Members?) then
        after == data && reply == WrongType
      else if !from || m !in data[src].value.members then after == data && reply == Int(0)
      else
        && reply == Int(1) && after - {src, dst} == data - {src, dst}
        && src in after && after[src].value.Members? && dst in after && after[dst].value.Members?
        && multiset(after[src].value.members) == multiset(data[src].value.members) - multiset{m}
        && after[src].expiresAt == data[src].expiresAt
        && after[dst].expiresAt == (if to then data[dst].expiresAt else None)
        && var held := if to then data[dst].value.members else [];
           after[dst].value.members == if m in held then held else held + [m]
  {
    hide TakeMember;
    var (after, reply) := Effect(data, SMove(src, dst, m), now);
    if IsLive(data, src, now) && data[src].value.Members? && m in data[src].value.members {
      TakeMemberTakesOne(data[src].value.members, m);
    }
    if reply == Int(1) { assert after - {src, dst} == data - {src, dst}; }
  }

  // Whether SET may write: NX wants no live entry and XX one, GET wants a string to
  // show if there is a live entry, and a TTL in seconds must fit 64 bits of milliseconds.
  predicate SetMayWrite(data: Keys, key: Key, opts: SetOptions, now: u64) {
    var live := IsLive(data, key, now);
    && (opts.condition == Some(Nx) ==> !live) && (opts.condition == Some(Xx) ==> live)
    && (opts.get && live ==> data[key].value.Str?)
    && (opts.expiry.Some? && opts.expiry.value.Ex? ==> opts.expiry.value.seconds * 1000 <= U64_MAX)
  }

  // SET writes iff it may, and then exactly that one string; GET shows the old string
  // either way, and without GET the reply tells whether SET wrote.
  lemma SetObeysItsOptions(data: Keys, key: Key, val: bytes, opts: SetOptions, now: u64)
    ensures var (after, reply) := Effect(data, SetKey(key, val, opts), now);
      var live := IsLive(data, key, now);
      && (if SetMayWrite(data, key, opts, now) then
            key in after && after[key].value == Str(val) && after[key].lastAccess == now && after - {key} == data - {key}
          else after == data)
      && (SetMayWrite(data, key, opts, now) ==>
            match opts.expiry
            case None => after[key].expiresAt == None
            case Some(KeepTtl) => after[key].expiresAt == if live then data[key].expiresAt else None
            case Some(Ex(s)) => after[key].expiresAt == Some(SatAdd(now, s * 1000))
            case Some(Px(ms)) => after[key].expiresAt == Some(SatAdd(now, ms))
            case Some(Exat(s)) => after[key].expiresAt == Some(SatMul(s, 1000))
            case Some(Pxat(ms)) => after[key].expiresAt == Some(ms))
      && (!opts.get ==> (reply == Status <==> SetMayWrite(data, key, opts, now)))
      && (opts.get && live && data[key].value.Str? && reply != TtlOverflow ==> reply == Bulk(data[key].value.data))
      && (reply.Bulk? ==> opts.get && live && data[key].value == Str(reply.data))
  {
    var after := Effect(data, SetKey(key, val, opts), now).0;
    if SetMayWrite(data, key, opts, now) {
      assert after - {key} == data - {key};
    }
  }

  // Moving a member of a set to the same set changes at most the order of its members.
  lemma SMoveToItself(data: Keys, key: Key, m: bytes, now: u64)
    requires IsLive(data, key, now) && data[key].value.Members? && m in data[key].value.members
    requires multiset(data[key].value.members)[m] == 1
    ensures var (after, reply) := Effect(data, SMove(key, key, m), now);
      && reply == Int(1) && key in after && after[key].value.Members? && after - {key} == data - {key}
      && multiset(after[key].value.members) == multiset(data[key].value.members)
      && after[key] == data[key].(value := after[key].value)
  {
    var members := data[key].value.members;
    TakeMemberTakesOne(members, m);
    hide TakeMember;
    var taken := TakeMember(members, m);
    assert multiset(taken)[m] == 0;
    assert m !in taken;
    assert multiset(taken + [m]) == multiset(taken) + multiset{m};
    assert Effect(data, SMove(key, key, m), now).0 - {key} == data - {key};
  }

  // MSET leaves each key it names with the last value given for it and no TTL, and all
  // others as they were.
  lemma MSetWritesLast(data: Keys, pairs: seq<(Key, bytes)>, now: u64, k: Key)
    ensures var (after, reply) := Effect(data, MSet(pairs), now);
      && reply == Status
      && if LastValue(pairs, k).Some? then k in after && after[k] == Entry(Str(LastValue(pairs, k).value), None, now)
         else Unchanged(data, after, k)
  {
    MSetPairByPair(data, pairs, now, k);
    hide MSetEffect, LastValue;
  }

  lemma {:induction false} MSetPairByPair(data: Keys, pairs: seq<(Key, bytes)>, now: u64, k: Key)
    ensures var after := MSetEffect(data, pairs, now);
      if LastValue(pairs, k).Some? then k in after && after[k] == Entry(Str(LastValue(pairs, k).value), None, now)
      else Unchanged(data, after, k)
    decreases |pairs|
  {
    if pairs != [] {
      MSetPairByPair(data[pairs[0].0 := Entry(Str(pairs[0].1), None, now)], pairs[1..], now, k);
    }
  }

  // ── HSET ────────────────────────────────────────────────────────────────────

  function FieldOf(fields: seq<(bytes, bytes)>, f: bytes): Option<bytes> {
    if fields == [] then None else if fields[0].0 == f then Some(fields[0].1) else FieldOf(fields[1..], f)
  }

  lemma {:induction false} PutFieldReads(fields: seq<(bytes, bytes)>, f: bytes, v: bytes, g: bytes)
    ensures FieldOf(PutField(fields, f, v), g) == if g == f then Some(v) else FieldOf(fields, g)
    ensures |PutField(fields, f, v)| == |fields| + if FieldOf(fields, f).None? then 1 else 0
    ensures FieldOf(fields, g).Some? <==> HasField(fields, g)
    decreases |fields|
  {
    if fields != [] {
      PutFieldReads(fields[1..], f, v, g);
      assert fields == [fields[0]] + fields[1..];
      if HasField(fields, g) && fields[0].0 != g {
        var i :| 0 <= i < |fields| && fields[i].0 == g;
        assert fields[1..][i - 1].0 == g;
      }
    }
  }

  // HSET works on a live hash or makes a new one without TTL, and changes nothing else.
  // A field reads as the last value given for it, or as before; the answer is the growth of
  // the hash iff no new field is named more than once, and otherwise more.
  lemma HSetReads(data: Keys, key: Key, pairs: seq<(bytes, bytes)>, now: u64, f: bytes)
    ensures var (after, reply) := Effect(data, HSet(key, pairs), now);
      var live := IsLive(data, key, now);
      if live && !data[key].value.Hash? then after == data && reply == WrongType
      else
        var fields := if live then data[key].value.fields else [];
        && key in after && after[key].value.Hash? && OnlyAt(data, after, key)
        && after[key].expiresAt == (if live then data[key].expiresAt else None)
        && FieldOf(after[key].value.fields, f) ==
             (if LastValue(pairs, f).Some? then LastValue(pairs, f) else FieldOf(fields, f))
        && reply.Int? && reply.n >= |after[key].value.fields| - |fields|
        && (reply.n == |after[key].value.fields| - |fields| <==> !NamesNewTwice(fields, pairs))
  {
    var (after, reply) := Effect(data, HSet(key, pairs), now);
    var live := IsLive(data, key, now);
    if !(live && !data[key].value.Hash?) {
      assert OnlyAt(data, after, key);
      var fields := if live then data[key].value.fields else [];
      FieldsRead(fields, pairs, f);
      HSetCountsIff(fields, pairs);
    }
    hide PutFields, FieldOf, LastValue, NamesNewTwice, CountMissing;
  }

  lemma {:induction false} FieldsRead(fields: seq<(bytes, bytes)>, pairs: seq<(bytes, bytes)>, f: bytes)
    ensures FieldOf(PutFields(fields, pairs), f) ==
      if LastValue(pairs, f).Some? then LastValue(pairs, f) else FieldOf(fields, f)
    decreases |pairs|
  {
    if pairs != [] {
      FieldsRead(PutField(fields, pairs[0].0, pairs[0].1), pairs[1..], f);
      PutFieldReads(fields, pairs[0].0, pairs[0].1, f);
    }
  }

  function LastValue(pairs: seq<(bytes, bytes)>, f: bytes): Option<bytes> {
    if pairs == [] then None
    else if LastValue(pairs[1..], f).Some? then LastValue(pairs[1..], f)
    else if pairs[0].0 == f then Some(pairs[0].1) else None
  }

  function Occurrences(pairs: seq<(bytes, bytes)>, f: bytes): nat {
    if pairs == [] then 0 else (if pairs[0].0 == f then 1 else 0) + Occurrences(pairs[1..], f)
  }

  lemma {:induction false} CountMissingAfter(fields: seq<(bytes, bytes)>, f: bytes, v: bytes, pairs: seq<(bytes, bytes)>)
    ensures CountMissing(fields, pairs) ==
      CountMissing(PutField(fields, f, v), pairs) + if HasField(fields, f) then 0 else Occurrences(pairs, f)
    decreases |pairs|
  {
    if pairs != [] {
      CountMissingAfter(fields, f, v, pairs[1..]);
      PutFieldReads(fields, f, v, pairs[0].0);
      PutFieldReads(PutField(fields, f, v), f, v, pairs[0].0);
    }
  }

  // A field that was not there is named more than once.
  predicate NamesNewTwice(fields: seq<(bytes, bytes)>, pairs: seq<(bytes, bytes)>) {
    pairs != [] &&
    ((!HasField(fields, pairs[0].0) && Occurrences(pairs[1..], pairs[0].0) > 0) || NamesNewTwice(fields, pairs[1..]))
  }

  lemma {:induction false} NamedOnce(fields: seq<(bytes, bytes)>, f: bytes, v: bytes, pairs: seq<(bytes, bytes)>)
    requires HasField(fields, f) || Occurrences(pairs, f) == 0
    ensures NamesNewTwice(PutField(fields, f, v), pairs) == NamesNewTwice(fields, pairs)
    decreases |pairs|
  {
    if pairs != [] {
      NamedOnce(fields, f, v, pairs[1..]);
      PutFieldReads(fields, f, v, pairs[0].0);
      PutFieldReads(PutField(fields, f, v), f, v, pairs[0].0);
    }
  }

  // The fields counted as new are those added iff no new field is named more than once, and
  // otherwise more.
  lemma {:induction false} HSetCountsIff(fields: seq<(bytes, bytes)>, pairs: seq<(bytes, bytes)>)
    ensures |PutFields(fields, pairs)| <= |fields| + CountMissing(fields, pairs)
    ensures |PutFields(fields, pairs)| == |fields| + CountMissing(fields, pairs) <==> !NamesNewTwice(fields, pairs)
    decreases |pairs|
  {
    if pairs != [] {
      var next := PutField(fields, pairs[0].0, pairs[0].1);
      HSetCountsIff(next, pairs[1..]);
      CountMissingAfter(fields, pairs[0].0, pairs[0].1, pairs[1..]);
      if HasField(fields, pairs[0].0) || Occurrences(pairs[1..], pairs[0].0) == 0 {
        NamedOnce(fields, pairs[0].0, pairs[0].1, pairs[1..]);
      }
      PutFieldReads(fields, pairs[0].0, pairs[0].1, pairs[0].0);
    }
  }

  // ── Documents ───────────────────────────────────────────────────────────────

  // JMERGE merges the patch into a live document, or into nothing if there is none; a null
  // patch removes the document. Another live type is an error and stays as it is.
  lemma JMergeMerges(data: Keys, key: Key, patch: Json.Json, now: u64)
    ensures var (after, reply) := Effect(data, JMerge(key, patch), now);
      var live := IsLive(data, key, now);
      if live && !data[key].value.Doc? then after == data && reply == WrongType
      else
        && reply == Status && OnlyAt(data, after, key)
        && if patch == Json.Null then key !in after
           else
             && key in after && after[key].expiresAt == (if live then data[key].expiresAt else None)
             && after[key].value == Doc(Json.MergePatch(if live then data[key].value.doc else Json.Null, patch))
  {
    hide Json.MergePatch;
    var (after, reply) := Effect(data, JMerge(key, patch), now);
    if reply == Status { assert OnlyAt(data, after, key); }
  }

  // ── Sizes ───────────────────────────────────────────────────────────────────

  function Length(f: Option<bytes>): nat { if f.Some? then |f.value| else 0 }

  // Writing a field changes the size of a hash by what is written, less what it replaces.
  lemma {:induction false} FieldBytesGrow(fields: seq<(bytes, bytes)>, f: bytes, v: bytes)
    ensures FieldBytes(PutField(fields, f, v)) + Length(FieldOf(fields, f)) ==
      FieldBytes(fields) + |v| + if FieldOf(fields, f).Some? then 0 else |f|
    decreases |fields|
  {
    if fields != [] { FieldBytesGrow(fields[1..], f, v); }
  }

  lemma {:induction false} MemberBytesOfTwo(a: seq<bytes>, b: seq<bytes>)
    ensures MemberBytes(a + b) == MemberBytes(a) + MemberBytes(b)
    decreases |a|
  {
    if a == [] {
      assert a + b == b;
    } else {
      assert (a + b)[1..] == a[1..] + b;
      MemberBytesOfTwo(a[1..], b);
    }
  }

  lemma WithoutOne(b: seq<bytes>, p: nat) returns (rest: seq<bytes>)
    requires p < |b|
    ensures multiset(rest) == multiset(b) - multiset{b[p]}
    ensures MemberBytes(b) == |b[p]| + MemberBytes(rest)
  {
    rest := b[..p] + b[p + 1..];
    assert b == b[..p] + [b[p]] + b[p + 1..];
    MemberBytesOfTwo(b[..p] + [b[p]], b[p + 1..]);
    MemberBytesOfTwo(b[..p], [b[p]]);
    MemberBytesOfTwo(b[..p], b[p + 1..]);
  }

  lemma {:induction false} MemberBytesByContents(a: seq<bytes>, b: seq<bytes>)
    requires multiset(a) == multiset(b)
    ensures MemberBytes(a) == MemberBytes(b)
    decreases |a|
  {
    if a == [] {
      assert |multiset(b)| == 0;
    } else {
      assert a[0] in multiset(b);
      var p :| 0 <= p < |b| && b[p] == a[0];
      var rest := WithoutOne(b, p);
      assert a == [a[0]] + a[1..];
      MemberBytesByContents(a[1..], rest);
    }
  }

  lemma OneMemberLess(was: seq<bytes>, left: seq<bytes>, m: bytes)
    requires m in was && multiset(left) == multiset(was) - multiset{m}
    ensures MemberBytes(was) == MemberBytes(left) + |m|
  {
    assert multiset(left + [m]) == multiset(left) + multiset{m} == multiset(was);
    MemberBytesByContents(left + [m], was);
    MemberBytesOfTwo(left, [m]);
  }

  // Moving a member between two live sets moves its bytes; the two together weigh what they
  // weighed, or less by the member if the destination had it already.
  lemma SMoveMovesBytes(data: Keys, src: Key, dst: Key, m: bytes, now: u64)
    requires src != dst && IsLive(data, dst, now) && Effect(data, SMove(src, dst, m), now).1 == Int(1)
    ensures var after := Effect(data, SMove(src, dst, m), now).0;
      && data[dst].value.Members?
      && EntryMemory(data, src) + EntryMemory(data, dst) ==
           EntryMemory(after, src) + EntryMemory(after, dst) + if m in data[dst].value.members then |m| else 0
  {
    hide Effect, MemberBytes;
    SMoveConserves(data, src, dst, m, now);
    var after := Effect(data, SMove(src, dst, m), now).0;
    OneMemberLess(data[src].value.members, after[src].value.members, m);
    OneMemberLess(data[dst].value.members + [m], data[dst].value.members, m);
  }
}
