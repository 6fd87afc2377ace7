/**
 Entries, commands and what a command does to the map of keys.

 `Effect` is the body of each command as a function of the map and the time; making
 room for new keys, bookkeeping and rollback are the store's business.
 */
module Keyspace {
  import opened Bytes
  import Decimal
  import Json
  import RateLimiter
  import KeyIndex

  type Key = bytes
  type u64 = RateLimiter.u64

  const U64_MAX: u64 := RateLimiter.U64_END - 1

  function SatAdd(a: u64, b: u64): u64 { if a + b > U64_MAX then U64_MAX else a + b }
  function SatMul(a: u64, b: u64): u64 { if a * b > U64_MAX then U64_MAX else a * b }

  datatype EntryValue =
    | Str(data: bytes)
    | Hash(fields: seq<(bytes, bytes)>)
    | Members(members: seq<bytes>)
    | Limiter(rl: RateLimiter.Limiter)
    | Doc(doc: Json.Json)

  datatype Entry = Entry(value: EntryValue, expiresAt: Option<u64>, lastAccess: u64)

  type Keys = map<Key, Entry>

  predicate IsExpired(e: Entry, now: u64) {
    e.expiresAt.Some? && now >= e.expiresAt.value
  }

  predicate IsLive(data: Keys, key: Key, now: u64) {
    key in data && !IsExpired(data[key], now)
  }

  // ── Size ────────────────────────────────────────────────────────────────────

  const ENTRY_OVERHEAD: nat := 64

  function FieldBytes(fields: seq<(bytes, bytes)>): nat {
    if fields == [] then 0 else |fields[0].0| + |fields[0].1| + FieldBytes(fields[1..])
  }

  function MemberBytes(members: seq<bytes>): nat {
    if members == [] then 0 else |members[0]| + MemberBytes(members[1..])
  }

  function ValueSize(v: EntryValue): nat {
    match v
    case Str(data) => |data|
    case Hash(fields) => FieldBytes(fields)
    case Members(members) => MemberBytes(members)
    case Limiter(rl) => |rl.buckets| * 16 + 16
    case Doc(doc) => Json.ApproxSize(doc)
  }

  function EntrySize(key: Key, e: Entry): (n: nat)
    ensures n >= ENTRY_OVERHEAD
  {
    |key| + ValueSize(e.value) + ENTRY_OVERHEAD
  }

  function EntryMemory(data: Keys, key: Key): nat {
    if key in data then EntrySize(key, data[key]) else 0
  }

  function KeysMemory(data: Keys, keys: seq<Key>): nat {
    if keys == [] then 0 else EntryMemory(data, keys[0]) + KeysMemory(data, keys[1..])
  }

  // What the byte total stands for.
  ghost function Total(data: Keys): nat
    decreases |data|
  {
    if data == map[] then 0
    else
      var k :| k in data;
      EntrySize(k, data[k]) + Total(data - {k})
  }

  lemma {:induction false} TotalWithout(data: Keys, key: Key)
    ensures Total(data) == EntryMemory(data, key) + Total(data - {key})
    decreases |data|
  {
    if key !in data {
      assert data - {key} == data;
    } else {
      var k :| k in data && Total(data) == EntrySize(k, data[k]) + Total(data - {k});
      if k != key {
        TotalWithout(data - {k}, key);
        TotalWithout(data - {key}, k);
        assert data - {k} - {key} == data - {key} - {k};
      }
    }
  }

  predicate Distinct(keys: seq<Key>) {
    forall i, j :: 0 <= i < j < |keys| ==> keys[i] != keys[j]
  }

  lemma SameEverywhere(before: Keys, after: Keys)
    requires forall k :: Unchanged(before, after, k)
    ensures before == after
  {
    assert forall k :: Unchanged(before, after, k) ==> (k in before <==> k in after);
  }

  // Measuring the touched keys before and after gives the change of the total.
  lemma {:induction false} TotalOfTouched(before: Keys, after: Keys, keys: seq<Key>)
    requires Distinct(keys) && forall k :: k !in keys ==> Unchanged(before, after, k)
    ensures Total(before) + KeysMemory(after, keys) == Total(after) + KeysMemory(before, keys)
    decreases |keys|
  {
    if keys == [] {
      forall k ensures Unchanged(before, after, k) {}
      SameEverywhere(before, after);
    } else {
      var k, others := keys[0], keys[1..];
      var b, a := before - {k}, after - {k};
      TotalWithout(before, k);
      TotalWithout(after, k);
      assert keys == [k] + others;
      forall x | x !in others ensures Unchanged(b, a, x) {
        if x != k { assert Unchanged(before, after, x); }
      }
      TotalOfTouched(b, a, others);
      KeysMemoryWithout(before, k, others);
      KeysMemoryWithout(after, k, others);
    }
  }

  lemma {:induction false} KeysMemoryWithout(data: Keys, k: Key, keys: seq<Key>)
    requires k !in keys
    ensures KeysMemory(data - {k}, keys) == KeysMemory(data, keys)
    decreases |keys|
  {
    if keys != [] {
      assert keys[0] != k;
      KeysMemoryWithout(data, k, keys[1..]);
    }
  }

  predicate Unchanged(before: Keys, after: Keys, k: Key) {
    (k in before <==> k in after) && (k in before ==> before[k] == after[k])
  }

  // ── Commands ────────────────────────────────────────────────────────────────

  datatype SetExpiry = Ex(seconds: u64) | Px(ms: u64) | Exat(seconds: u64) | Pxat(ms: u64) | KeepTtl
  datatype SetCondition = Nx | Xx
  datatype SetOptions = SetOptions(expiry: Option<SetExpiry>, condition: Option<SetCondition>, get: bool)

  datatype Command =
    | SetKey(key: Key, val: bytes, opts: SetOptions)
    | Get(key: Key)
    | Del(keys: seq<Key>)
    | IncrBy(key: Key, delta: Decimal.i64)
    | MSet(pairs: seq<(Key, bytes)>)
    | Expire(key: Key, seconds: u64)
    | Persist(key: Key)
    | Rename(src: Key, dst: Key)
    | HSet(key: Key, fieldPairs: seq<(bytes, bytes)>)
    | SMove(src: Key, dst: Key, member: bytes)
    | SInterStore(dst: Key, sources: seq<Key>)
    | JMerge(key: Key, patch: Json.Json)
    | RlSet(key: Key, limit: u64, windowSecs: u64)
    | RlCheck(key: Key, config: Option<(u64, u64)>)
    | FlushDb

  datatype Reply =
    | Nil
    | Status
    | Bulk(data: bytes)
    | Int(n: int)
    | Rate(reply: RateLimiter.Reply)
    | WrongType
    | NoSuchKey
    | TtlOverflow
    | NotAnInteger
    | IncrementOverflow
    | NoLimit
    | MaxKeysReached
    | OutOfMemory

  datatype Scope = ReadOnly | Touches(keys: seq<Key>) | Everything

  // The keys a command may change.
  function MutationScope(cmd: Command): Scope {
    match cmd
    case SetKey(key, _, _) => Touches([key])
    case Get(_) => ReadOnly
    case Del(keys) => Touches(keys)
    case IncrBy(key, _) => Touches([key])
    case MSet(pairs) => Touches(PairKeys(pairs))
    case Expire(key, _) => Touches([key])
    case Persist(key) => Touches([key])
    case Rename(src, dst) => Touches([src, dst])
    case HSet(key, _) => Touches([key])
    case SMove(src, dst, _) => Touches([src, dst])
    case SInterStore(dst, sources) => Touches([dst] + sources)
    case JMerge(key, _) => Touches([key])
    case RlSet(key, _, _) => Touches([key])
    case RlCheck(key, _) => Touches([key])
    case FlushDb => Everything
  }

  function PairKeys(pairs: seq<(Key, bytes)>): seq<Key> {
    seq(|pairs|, i requires 0 <= i < |pairs| => pairs[i].0)
  }

  // ── Effects ─────────────────────────────────────────────────────────────────

  // The entry a typed write works on: created if absent, emptied if expired.
  function Opened(data: Keys, key: Key, now: u64, empty: EntryValue): Entry {
    if key !in data then Entry(empty, None, now)
    else if IsExpired(data[key], now) then data[key].(value := empty, expiresAt := None)
    else data[key]
  }

  function NewExpiry(opts: SetOptions, existing: Option<u64>, now: u64): Option<Option<u64>> {
    match opts.expiry
    case None => Some(None)
    case Some(Ex(s)) => if s > U64_MAX / 1000 then None else Some(Some(SatAdd(now, s * 1000)))
    case Some(Px(ms)) => Some(Some(SatAdd(now, ms)))
    case Some(Exat(s)) => Some(Some(SatMul(s, 1000)))
    case Some(Pxat(ms)) => Some(Some(ms))
    case Some(KeepTtl) => Some(existing)
  }

  function SetEffect(data: Keys, key: Key, val: bytes, opts: SetOptions, now: u64): (Keys, Reply) {
    var live := IsLive(data, key, now);
    if live && !data[key].value.Str? && opts.get then (data, WrongType)
    else
      var shown := if opts.get && live && data[key].value.Str? then Bulk(data[key].value.data) else Nil;
      if (opts.condition == Some(Nx) && live) || (opts.condition == Some(Xx) && !live) then (data, shown)
      else
        match NewExpiry(opts, if live then data[key].expiresAt else None, now)
        case None => (data, TtlOverflow)
        case Some(expiresAt) =>
          (data[key := Entry(Str(val), expiresAt, now)], if opts.get then shown else Status)
  }

  function DelEffect(data: Keys, keys: seq<Key>, now: u64): (Keys, nat) {
    if keys == [] then (data, 0)
    else if IsLive(data, keys[0], now) then
      var (rest, n) := DelEffect(data - {keys[0]}, keys[1..], now);
      (rest, n + 1)
    else DelEffect(data, keys[1..], now)
  }

  function IncrEffect(data: Keys, key: Key, delta: Decimal.i64, now: u64): (Keys, Reply) {
    var e := Opened(data, key, now, Str([Decimal.ZERO]));
    if !e.value.Str? then (data, WrongType)
    else
      match Decimal.ParseI64(e.value.data)
      case None => (data[key := e], NotAnInteger)
      case Some(n) =>
        var sum: int := n + delta;
        if !(-Decimal.I64_END <= sum < Decimal.I64_END) then (data[key := e], IncrementOverflow)
        else (data[key := e.(value := Str(Decimal.Format(sum)))], Int(sum))
  }

  function MSetEffect(data: Keys, pairs: seq<(Key, bytes)>, now: u64): Keys
    decreases |pairs|
  {
    if pairs == [] then data
    else MSetEffect(data[pairs[0].0 := Entry(Str(pairs[0].1), None, now)], pairs[1..], now)
  }

  function ExpireEffect(data: Keys, key: Key, at: u64, now: u64): (Keys, Reply) {
    if IsLive(data, key, now) then (data[key := data[key].(expiresAt := Some(at))], Int(1))
    else (data, Int(0))
  }

  function PersistEffect(data: Keys, key: Key, now: u64): (Keys, Reply) {
    if IsLive(data, key, now) && data[key].expiresAt.Some?
    then (data[key := data[key].(expiresAt := None)], Int(1))
    else (data, Int(0))
  }

  function RenameEffect(data: Keys, src: Key, dst: Key, now: u64): (Keys, Reply) {
    if src !in data then (data, NoSuchKey)
    else if IsExpired(data[src], now) then (data - {src}, NoSuchKey)
    else ((data - {src})[dst := data[src]], Status)
  }

  predicate HasField(fields: seq<(bytes, bytes)>, f: bytes) {
    exists i :: 0 <= i < |fields| && fields[i].0 == f
  }

  function PutField(fields: seq<(bytes, bytes)>, f: bytes, v: bytes): seq<(bytes, bytes)> {
    if fields == [] then [(f, v)]
    else if fields[0].0 == f then [(f, v)] + fields[1..]
    else [fields[0]] + PutField(fields[1..], f, v)
  }

  function PutFields(fields: seq<(bytes, bytes)>, pairs: seq<(bytes, bytes)>): seq<(bytes, bytes)>
    decreases |pairs|
  {
    if pairs == [] then fields else PutFields(PutField(fields, pairs[0].0, pairs[0].1), pairs[1..])
  }

  function CountMissing(fields: seq<(bytes, bytes)>, pairs: seq<(bytes, bytes)>): nat {
    if pairs == [] then 0
    else (if HasField(fields, pairs[0].0) then 0 else 1) + CountMissing(fields, pairs[1..])
  }

  function HSetEffect(data: Keys, key: Key, pairs: seq<(bytes, bytes)>, now: u64): (Keys, Reply) {
    var e := Opened(data, key, now, Hash([]));
    if !e.value.Hash? then (data, WrongType)
    else
      (data[key := e.(value := Hash(PutFields(e.value.fields, pairs)))],
       Int(CountMissing(e.value.fields, pairs)))
  }

  function PositionOf(members: seq<bytes>, m: bytes): (p: nat)
    requires m in members
    ensures p < |members| && members[p] == m
  {
    if members[0] == m then 0 else 1 + PositionOf(members[1..], m)
  }

  function TakeMember(members: seq<bytes>, m: bytes): seq<bytes>
    requires m in members
  {
    KeyIndex.SwapRemoved(members, PositionOf(members, m))
  }

  function SMoveEffect(data: Keys, src: Key, dst: Key, m: bytes, now: u64): (Keys, Reply) {
    if (IsLive(data, src, now) && !data[src].value.Members?) || (IsLive(data, dst, now) && !data[dst].value.Members?)
    then (data, WrongType)
    else if !IsLive(data, src, now) || m !in data[src].value.members then (data, Int(0))
    else
      var taken := data[src := data[src].(value := Members(TakeMember(data[src].value.members, m)))];
      var e := Opened(taken, dst, now, Members([]));
      var held := e.value.members;
      (taken[dst := e.(value := Members(if m in held then held else held + [m]))], Int(1))
  }

  // None if some live source is not a set. A missing source makes the result empty.
  function Sources(data: Keys, sources: seq<Key>, now: u64): Option<seq<Option<seq<bytes>>>> {
    if sources == [] then Some([])
    else if !IsLive(data, sources[0], now) then
      match Sources(data, sources[1..], now)
      case None => None
      case Some(rest) => Some([None] + rest)
    else if !data[sources[0]].value.Members? then None
    else
      match Sources(data, sources[1..], now)
      case None => None
      case Some(rest) => Some([Some(data[sources[0]].value.members)] + rest)
  }

  function InAll(sets: seq<Option<seq<bytes>>>, m: bytes): bool {
    forall i :: 0 <= i < |sets| ==> sets[i].Some? && m in sets[i].value
  }

  function Kept(members: seq<bytes>, sets: seq<Option<seq<bytes>>>): seq<bytes> {
    if members == [] then []
    else (if InAll(sets, members[0]) then [members[0]] else []) + Kept(members[1..], sets)
  }

  function SInterStoreEffect(data: Keys, dst: Key, sources: seq<Key>, now: u64): (Keys, Reply) {
    match Sources(data, sources, now)
    case None => (data, WrongType)
    case Some(sets) =>
      var common := if sets == [] || sets[0].None? then [] else Kept(sets[0].value, sets);
      (data[dst := Entry(Members(common), None, now)], Int(|common|))
  }

  function JMergeEffect(data: Keys, key: Key, patch: Json.Json, now: u64): (Keys, Reply) {
    if patch == Json.Null then
      if key !in data then (data, Status)
      else if IsExpired(data[key], now) || data[key].value.Doc? then (data - {key}, Status)
      else (data, WrongType)
    else
      var e := Opened(data, key, now, Doc(Json.Null));
      if !e.value.Doc? then (data, WrongType)
      else (data[key := e.(value := Doc(Json.MergePatch(e.value.doc, patch)))], Status)
  }

  function RlSetEffect(data: Keys, key: Key, limit: u64, windowSecs: u64, now: u64): (Keys, Reply) {
    var windowMs := SatMul(windowSecs, 1000);
    var e := Opened(data, key, now, Limiter(RateLimiter.Limiter(limit, windowMs, [])));
    if !e.value.Limiter? then (data, WrongType)
    else
      (data[key := e.(value := Limiter(e.value.rl.(limit := limit, windowMs := windowMs)), expiresAt := None)], Status)
  }

  function RlCheckEffect(data: Keys, key: Key, config: Option<(u64, u64)>, now: u64): (Keys, Reply) {
    var live := IsLive(data, key, now);
    if !live && config.None? then (data, NoLimit)
    else
      var e :=
        if live then data[key]
        else
          var windowMs := SatMul(config.value.1, 1000);
          Entry(Limiter(RateLimiter.Limiter(config.value.0, windowMs, [])), Some(SatAdd(now, windowMs)), now);
      if !e.value.Limiter? then (data, WrongType)
      else
        var rl := if config.None? then e.value.rl
          else e.value.rl.(limit := config.value.0, windowMs := SatMul(config.value.1, 1000));
        var (after, reply) := RateLimiter.Check(rl, now);
        var expiresAt := if e.expiresAt.Some? then Some(SatAdd(now, rl.windowMs)) else None;
        (data[key := e.(value := Limiter(after), expiresAt := expiresAt)], Rate(reply))
  }

  function GetEffect(data: Keys, key: Key, now: u64): (Keys, Reply) {
    if !IsLive(data, key, now) then (data, Nil)
    else if !data[key].value.Str? then (data, WrongType)
    else (data[key := data[key].(lastAccess := now)], Bulk(data[key].value.data))
  }

  function Effect(data: Keys, cmd: Command, now: u64): (Keys, Reply) {
    match cmd
    case SetKey(key, val, opts) => SetEffect(data, key, val, opts, now)
    case Get(key) => GetEffect(data, key, now)
    case Del(keys) =>
      var (after, n) := DelEffect(data, keys, now);
      (after, Int(n))
    case IncrBy(key, delta) => IncrEffect(data, key, delta, now)
    case MSet(pairs) => (MSetEffect(data, pairs, now), Status)
    case Expire(key, seconds) => ExpireEffect(data, key, SatAdd(now, SatMul(seconds, 1000)), now)
    case Persist(key) => PersistEffect(data, key, now)
    case Rename(src, dst) => RenameEffect(data, src, dst, now)
    case HSet(key, pairs) => HSetEffect(data, key, pairs, now)
    case SMove(src, dst, m) => SMoveEffect(data, src, dst, m, now)
    case SInterStore(dst, sources) => SInterStoreEffect(data, dst, sources, now)
    case JMerge(key, patch) => JMergeEffect(data, key, patch, now)
    case RlSet(key, limit, windowSecs) => RlSetEffect(data, key, limit, windowSecs, now)
    case RlCheck(key, config) => RlCheckEffect(data, key, config, now)
    case FlushDb => (map[], Status)
  }

  // ── Frame ───────────────────────────────────────────────────────────────────

  lemma {:induction false} DelFrame(data: Keys, keys: seq<Key>, now: u64, k: Key)
    requires k !in keys
    ensures Unchanged(data, DelEffect(data, keys, now).0, k)
    decreases |keys|
  {
    if keys != [] {
      assert keys[0] != k;
      DelFrame(if IsLive(data, keys[0], now) then data - {keys[0]} else data, keys[1..], now, k);
    }
  }

  lemma {:induction false} MSetFrame(data: Keys, pairs: seq<(Key, bytes)>, now: u64, k: Key)
    requires k !in PairKeys(pairs)
    ensures Unchanged(data, MSetEffect(data, pairs, now), k)
    decreases |pairs|
  {
    if pairs != [] {
      assert PairKeys(pairs)[0] == pairs[0].0 != k;
      assert PairKeys(pairs) == [pairs[0].0] + PairKeys(pairs[1..]);
      MSetFrame(data[pairs[0].0 := Entry(Str(pairs[0].1), None, now)], pairs[1..], now, k);
    }
  }

  // A command changes nothing outside its scope.
  lemma FrameIsSound(data: Keys, cmd: Command, now: u64, k: Key)
    requires MutationScope(cmd).Touches? && k !in MutationScope(cmd).keys
    ensures Unchanged(data, Effect(data, cmd, now).0, k)
  {
    match cmd {
      case Del(keys) => DelFrame(data, keys, now, k);
      case MSet(pairs) => MSetFrame(data, pairs, now, k);
      case _ =>
        hide RateLimiter.Check, Json.MergePatch, Decimal.ParseI64, Decimal.Format, PutFields, Kept, Sources, TakeMember;
    }
  }

  // A read-only command changes no value and no expiry; only recency may move.
  lemma ReadsChangeNothing(data: Keys, cmd: Command, now: u64)
    requires MutationScope(cmd).ReadOnly?
    ensures var after := Effect(data, cmd, now).0;
      after.Keys == data.Keys &&
      forall k :: k in data ==> after[k].value == data[k].value && after[k].expiresAt == data[k].expiresAt
  {
  }
}
