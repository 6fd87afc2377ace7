# Recached: a verified model of the cache engine

Recached is a cache server that speaks the Redis protocol. This project models the parts of it in
which a mistake would be hard to see from one function: the protocol codec, the pattern matcher, the
rate limiter, the key store with its bookkeeping, sorted sets, JSON documents, and the bounded
delivery of publications and change notices. Every statement is proved for all inputs, all runs or
all reachable states. `dafny verify dfyconfig.toml` checks everything.

| component | files |
|---|---|
| protocol codec | `Decimal`, `Resp`, `RespGrammar`, `RespStream`, `RespBound`, `RespRoundTrip`, `RespParser`, `RespReader` |
| pattern matching | `Glob` |
| rate limiting | `RateLimiter`, `KeyedLimiter` |
| key store | `KeyIndex`, `Keyspace`, `Commands`, `Store`, `Eviction`, `Refusal`, `StoreFacts`, `Expiry`, `Scan` |
| sorted sets and documents | `ZSet`, `Json`, `Order` |
| delivery | `Delivery`, `Mail`, `Registry`, `PubSub`, `Watch` |
| shared | `Bytes`, `Arith` |

Code that computes a value is a function; code that updates state in place is a class or a method
whose contract ties the new state to such a function of the old one, and the properties are proved of
the function. Text is bytes. Integer widths are written out where they show: `Decimal` parses 64-bit
integers with their limits, the limiter and expiry times saturate or overflow at 64 bits, the byte
budget of a mailbox uses checked addition and wrapping subtraction, and the expiry cursor wraps.
Time is a parameter. A random sample is an arbitrary one, a hash map is visited in an arbitrary
order, and what other connections do between two steps is an arbitrary schedule.

## Where the code does less than it says

These are results about the code as it is, each with the exact condition under which it does what it
says.

- **Patterns and star bytes.** The matcher takes a `*` of the pattern for a literal when the text has
  `*` at that place (`core-engine/src/store.rs:4146`), so `*` does not match `*a`. It never matches
  too much; it is as documented on every text iff the text has no star byte, and on a pattern for
  every text iff the pattern has none. A plain SCAN, whose pattern is `*`, therefore never shows a
  key of two bytes or more that begins with `*` (`Scan.PlainScanShowsIff`).
- **`needed` can shrink.** A larger buffer may report a smaller lower bound: the three bytes assumed
  for a started element are replaced by what its header asks for. It shrinks, by at most two, iff the
  buffer ends less than two bytes into an element that is not the first
  (`RespBound.BoundShrinksIffStranded`). The read loop is safe all the same (`RespStream.GateIsSafe`).
- **The bucket count.** The comment at `core-engine/src/store.rs:860` speaks of a fixed 64 pairs. The
  width is rounded down, so a limiter holds up to ceil(window/width)+1 of them, a bound that is
  reached; 64 are never exceeded iff the limit is at most 64, the window under 64 ms, or the window as
  long as the clock (`RateLimiter.AtMostSixtyFourIff`).
- **A limiter that forgets.** The comment at `core-engine/src/store.rs:878` says attempts are never
  under-counted. An inline RLCHECK lets its key expire exactly one window after the last attempt, so
  an attempt that comes on that millisecond starts from nothing. A configuration is safe in every
  closed interval as long as the window iff its limit is zero or its window as long as the clock
  (`KeyedLimiter.KeyedLimitIsSafeIff`), and a run is iff what it admitted at the two ends of each gap
  of exactly one window fits the limit (`KeyedLimiter.KeyedLimitHoldsIff`). In shorter intervals the
  limit always holds.
- **The retry hint.** It is tight, except that a limit of zero is answered with a hint of 0 although
  nothing is ever admitted, and that the sum overflows for windows near 2^64 ms; release builds check
  overflow (`Cargo.toml:107`), so that is an `Overflow` reply here.
- **MSET under a key cap.** MSET can evict a key it is itself writing; the bookkeeping then subtracts
  that key's size a second time. Only MSET can do that (`StoreFacts.OnlyCrowdedMSetMiscounts`), and it
  can iff it needs room for n keys and names an eligible key such that fewer than n eligible keys are
  lighter by the policy's weight, or enough others to fill a sample are not
  (`StoreFacts.MSetMayMiscountIff`).
- **Rollback and expired entries.** The rebuild after a refused write leaves expired entries out of the
  metadata and the byte total although they are still in the map: all of them, and so none iff nothing
  had expired. `Store.KeyValueStore.forgotten` names them from then on. No sweep removes them, and a
  later command that touches one subtracts a size that was not counted; that command also brings it
  back (`Store.KeyValueStore.ExecuteReporting`, `StoreFacts.UncountedIff`). The byte total never
  exceeds the true sum.
- **The memory cap under NoEviction.** The comment at `core-engine/src/store.rs:1867` says this policy
  does not permit to exceed the cap. A write is refused iff the counted total would pass both the cap
  and what it was. Where such a rollback has left the count short, entries pass the cap unnoticed, and
  the rebuild after the next refusal shows it: the total is then above the cap and above what it was
  before the refused write. That happens iff a write is refused while the unexpired entries come to
  more than both (`Store.KeyValueStore.ExecuteReporting`), never while nothing is short
  (`Refusal.NothingShortNothingExceeds`); `Refusal.PassesTheCap` is a run of five SETs that ends with
  330 bytes under a cap of 300.
- **The key cap.** `docs/server/configuration.md:15` says write commands that would exceed the cap
  return an error. Only SET and MSET ask for room; a hash, a counter, a limiter, a document or a
  stored set under a new key goes past the cap however full the store is
  (`StoreFacts.OthersPassTheKeyCap`). SET keeps the cap, and MSET does iff it did not evict more of its
  own keys than it named new ones a second time (`StoreFacts.KeyCapHoldsIff`). SET makes room before
  it looks at its options, so one that does not write may have evicted a key for nothing, exactly when
  it was for a new key in a full store (`StoreFacts.SetEvictsForNothingIff`).
- **HSET's answer.** It counts a new field once for each time the command names it
  (`Commands.HSetCountsIff`).
- **FLUSHDB notices.** They drop watchers that cannot be told but, unlike every other fan-out, keep a
  watched key nobody is left on, iff none of its watchers had room for the notice
  (`Watch.FlushEmptiesIff`); it goes when its connection unregisters.

## Model

| member | source | states |
|---|---|---|
| RespStream.PrefixOfFrame | core-engine/src/resp.rs:213-531 | a frame of n bytes is settled by exactly these: every buffer that has them parses to the same value and length, every shorter prefix of length k is incomplete with k < needed <= n |
| RespStream.VerdictIsFinal | core-engine/src/resp.rs:70-88 | any answer but "incomplete", errors included, is the same for every extension of the buffer |
| RespStream.BoundIsAhead | core-engine/src/resp.rs:276-301 | the lower bound always exceeds the bytes at hand, so waiting for it makes progress |
| RespStream.FrameIsLocal | core-engine/src/resp.rs:213-220 | two buffers that share the bytes of a frame agree on it |
| RespStream.GateIsSafe | core-engine/src/resp.rs:56-68 | a reader that sleeps until `needed` bytes are there skips only attempts that would fail and never waits past the end of the frame |
| RespBound.BoundOfPrefix | core-engine/src/resp.rs:282-301 | the bound of a prefix exceeds the later one by at most two, and only if the later buffer ends stranded |
| RespBound.BoundShrinksIffStranded | core-engine/src/resp.rs:282-301 | the bound has shrunk on the way to a buffer iff that buffer ends less than two bytes into a later element |
| RespBound.BoundCanShrink | core-engine/src/resp.rs:282-301 | a concrete frame whose bound goes from 11 to 9 |
| RespBound.BoundIsModest | core-engine/src/resp.rs:292-301 | the bound stays far below the width of a machine word, so its saturating additions never saturate |
| RespRoundTrip.Exact | core-engine/src/resp.rs:154-531 | at every depth: serialize then parse gives the value and its length back if it is within the limits, and otherwise never gives that value |
| RespRoundTrip.RoundTripIffEncodable | core-engine/src/resp.rs:154-531 | parse(serialize(v) ++ rest) = v, and none of rest, iff text is free of CRLF and depth, counts and sizes are within the limits |
| RespGrammar.AcceptsIff | core-engine/src/resp.rs:213-531 | for every buffer: the parser answers a value and a length iff that many bytes spell the value by a grammar of its own, within the limits. It fixes the CRLF after a payload, signs, leading zeros, the -1 headers and the order of keys and values |
| RespGrammar.SpellingsAreUnambiguous | core-engine/src/resp.rs:213-531 | no bytes spell two values, and no spelling is the beginning of another |
| RespGrammar.ParseI64Iff | core-engine/src/resp.rs:326-346 | the numbers accepted: an optional sign, at least one digit, positional value, 64 bits |
| RespGrammar.ParseU64Iff | core-engine/src/resp.rs:390-446 | the same without a minus sign, for the counts of pushes and maps |
| RespGrammar.RefusedByItsHeader | core-engine/src/resp.rs:245-514 | what is refused at its first line, and as what: unknown type, depth, text that is no number, negative lengths but -1, and each limit with the number declared |
| RespGrammar.RefusedByItsTrailer | core-engine/src/resp.rs:375-379 | a payload not followed by CRLF is refused |
| RespGrammar.BulkBoundIsExact | core-engine/src/resp.rs:368-373 | once its header is there a bulk string asks for exactly its own length |
| RespGrammar.DigitsAreCanonical | core-engine/src/resp.rs:154-200 | what the serializer writes has no sign and no leading zero |
| Decimal.FormatRoundTrip | core-engine/src/resp.rs:326-339 | every signed 64-bit integer survives formatting and parsing |
| Decimal.DigitsRoundTrip | core-engine/src/resp.rs:341-388 | a length survives formatting and parsing iff it fits the integer type it is parsed into |
| RespParser.ReadUntilCrlf | core-engine/src/resp.rs:265-272 | the scanning loop finds the first CRLF, or that there is none |
| RespParser.ParseText | core-engine/src/resp.rs:303-324 | simple strings and errors, building or only measuring, agree with the grammar |
| RespParser.ParseInteger | core-engine/src/resp.rs:326-339 | integers agree with the grammar, a leading plus included |
| RespParser.ParseBulkString | core-engine/src/resp.rs:341-388 | bulk strings agree with the grammar, size cap and missing trailer included |
| RespParser.ParseArray | core-engine/src/resp.rs:483-531 | the element loop agrees with the recursive grammar, errors and bounds included |
| RespParser.ParsePush | core-engine/src/resp.rs:390-428 | likewise for push frames |
| RespParser.ParseMap | core-engine/src/resp.rs:430-481 | likewise for maps, whose header counts pairs |
| RespParser.ParseInner | core-engine/src/resp.rs:245-263 | the dispatch agrees with the grammar at every depth |
| RespParser.ParseFrame | core-engine/src/resp.rs:213-220 | the whole parser computes the specification |
| RespParser.FrameLen | core-engine/src/resp.rs:240-242 | measuring gives the length parse gives, or the same error, for every buffer |
| RespParser.SerializeInto | core-engine/src/resp.rs:154-203 | the appending serializer appends exactly the encoding and touches nothing before it |
| RespReader.FramesOfLonger | server-native/src/connection.rs:262-340 | later bytes add frames and never change earlier ones |
| RespReader.StreamRoundTrip | core-engine/src/resp.rs:154-531 | a concatenation of encodable values decodes to the same list, whatever follows |
| RespReader.FrameReader.Drain | server-native/src/connection.rs:282-340 | the inner loop delivers exactly the complete frames and keeps the rest with its bound, or reports the protocol error behind the last complete frame |
| RespReader.FrameReader.Feed | server-native/src/connection.rs:262-340 | however the stream is cut into reads, what was delivered is the frames of what was received; the gate on `needed` never holds a frame back |
| Glob.MatchesIffSplits | core-engine/src/store.rs:4114-4131 | the recursive meaning of a pattern is that the text splits into one suitable piece per pattern byte |
| Glob.GlobMatch | core-engine/src/store.rs:4132-4162 | the two-pointer loop with one backtrack point decides its semantics exactly, in at most (text+1)*(pattern+1) iterations (counted as rows, whose product form is `RowsIsProduct`) |
| Glob.LatestStarSuffices | core-engine/src/store.rs:4132-4162 | if any earlier star could still lead to a match then so can the latest, so only that one is remembered |
| Glob.CommitToLatestStar | core-engine/src/store.rs:4132-4162 | reaching a further star, the choice for the previous one can be made final without losing a match |
| Glob.NeverOvermatches | core-engine/src/store.rs:4132-4162 | whatever the loop accepts the pattern means |
| Glob.AgreesWhenOneSideIsStarFree | core-engine/src/store.rs:4132-4162 | the loop is exact when pattern or text has no star byte |
| Glob.StarDoesNotMatchStarThenA | core-engine/src/store.rs:4146 | a concrete pattern and text that the loop gets wrong |
| Glob.TextIsSafeIffStarFree | core-engine/src/store.rs:4132-4162 | a text is matched as documented by every pattern iff it has no star byte |
| Glob.PatternIsSafeIffStarFree | core-engine/src/store.rs:4132-4162 | a pattern behaves as documented on every text iff it has no star |
| Glob.WithoutStarByteByByte | core-engine/src/store.rs:4132-4162 | a pattern without a star matches texts of its length, a question mark any byte and every other byte itself |
| Glob.LoneStarMatchesIff | core-engine/src/store.rs:4132-4162 | the pattern `*` misses exactly the texts of two bytes and more that begin with a star byte |
| Glob.GlobMatchByTable | core-engine/src/store.rs:7361-7382 | the dynamic-programming matcher of the tests decides the declarative meaning |
| RateLimiter.RateLimiterInner.Attempt | core-engine/src/store.rs:901-936 | the in-place check computes the specified step: expired buckets popped, attempt counted or denied, hint |
| RateLimiter.AttemptKeepsFaithful | core-engine/src/store.rs:901-921 | one attempt at a later time keeps the buckets a faithful record of the admissions: increasing multiples of the width, covering the log's tail, never over the limit; `remaining` is what is left |
| RateLimiter.RunIsFaithful | core-engine/src/store.rs:901-936 | that record is kept over every run |
| RateLimiter.NoWindowAdmitsMoreThanLimit | core-engine/src/store.rs:873-882 | in every run any closed interval as long as the window holds at most `limit` admissions |
| RateLimiter.DenialIsJustified | core-engine/src/store.rs:922-934 | a denied attempt is preceded by `limit` admissions within the window stretched by one bucket |
| RateLimiter.RecoveryTime | core-engine/src/store.rs:922-934 | with no traffic in between, a full limiter admits at t iff t has reached one window and one bucket past its oldest bucket |
| RateLimiter.RetryHintIsTight | core-engine/src/store.rs:922-934 | every attempt before the hint is denied, the one a bucket later is admitted, the one at the hint iff the oldest bucket had closed; with the cases of limit 0 and of overflow |
| RateLimiter.RemainingIsExact | core-engine/src/store.rs:914-921 | that many more attempts at the same moment are admitted, and not one more |
| RateLimiter.LongestWindowOverflows | core-engine/src/store.rs:928-934 | a window at the end of 64 bits, which RLSET's saturation can produce, overflows the hint |
| RateLimiter.BucketsAreBounded | core-engine/src/store.rs:857-861 | at most ceil(window/width)+1 buckets, at most 128, at most 68 for whole seconds, after every run |
| RateLimiter.BucketBoundIsReached | core-engine/src/store.rs:892-921 | an attempt at the start of each of n buckets is admitted and leaves n of them, for every n up to the bound and the limit whose starts fit the clock |
| RateLimiter.AtMostSixtyFourIff | core-engine/src/store.rs:857-861 | the promised 64 pairs hold in every run iff limit <= 64, window < 64 ms, or the window is as long as the clock |
| RateLimiter.SixtyEightBucketsReached | core-engine/src/store.rs:857-861 | a run that holds 68 for one second |
| KeyedLimiter.SinceWhen | core-engine/src/store.rs:3705-3767 | after any run of inline RLCHECKs the key holds what a fresh limiter would after some tail of the attempts, and what came before is at least a window older |
| KeyedLimiter.KeyedLimitHolds | core-engine/src/store.rs:3705-3767 | behind its expiring key the limit holds in every interval shorter than the window, and in those as long as it if no attempt comes exactly one window after the one before |
| KeyedLimiter.KeyedLimitHoldsIff | core-engine/src/store.rs:3705-3767 | for every run and every window, zero included: the limit holds in all closed intervals as long as the window iff, at each gap of exactly one window, what was admitted at its two ends fits the limit |
| KeyedLimiter.KeyedLimitIsSafeIff | core-engine/src/store.rs:3705-3767 | for every configuration: no run exceeds the limit within one closed window iff the limit is zero or the window as long as the clock |
| KeyedLimiter.KeyForgetsOnTheMillisecond | core-engine/src/store.rs:3707-3756 | for every other configuration, `limit` attempts at once and one a window later are all admitted behind the key, one more than the limiter alone admits |
| KeyedLimiter.ConfiguredIsALimiter | core-engine/src/store.rs:3683-3756 | after RLSET on a key with nothing live, any run of RLCHECKs without configuration gets, one by one, the replies of a limiter alone, and leaves that limiter without TTL |
| KeyedLimiter.ConfiguredLimitHolds | core-engine/src/store.rs:3683-3756 | so the limit holds of those commands in every closed interval as long as the window, over every run |
| KeyedLimiter.RlSetConfigures | core-engine/src/store.rs:3683-3701 | RLSET on a live limiter keeps its recorded attempts and takes its TTL away; on another type it changes nothing |
| KeyedLimiter.RlCheckAsksTheLimiter | core-engine/src/store.rs:3705-3756 | RLCHECK without configuration: the stored limiter's answer, its TTL renewed if it has one; the errors for a missing key and another type, which change nothing |
| KeyedLimiter.RlCheckReconfigures | core-engine/src/store.rs:3737-3747 | RLCHECK with one on a live limiter: the answer of its attempts under the new limit and window; no TTL is given to a limiter that has none |
| KeyedLimiter.LimiterWeighs | core-engine/src/store.rs:4069 | after any run a limiter's key weighs sixteen bytes for each pair held, and at most 1168 beside its name for a window of whole seconds |
| KeyIndex.DenseKeys.Add | core-engine/src/store.rs:1182-1189 | appends a new key, leaves a present one where it is, keeps `positions` the inverse of `keys` |
| KeyIndex.DenseKeys.Drop | core-engine/src/store.rs:1191-1199 | removes the key by moving the last into its place, keeping the inverse |
| KeyIndex.SwapRemovedKeepsOthers | core-engine/src/store.rs:1191-1199 | that removes one element and no other |
| KeyIndex.Index.Sync | core-engine/src/store.rs:1210-1227 | brings one key in step in all three structures: gone, with a TTL, or without; an unchanged volatile set keeps its order |
| Keyspace.TotalOfTouched | core-engine/src/store.rs:1882-1886 | measuring only the touched keys before and after gives the change of the sum over the whole map |
| Keyspace.FrameIsSound | core-engine/src/store.rs:3815-3879 | no command changes an entry outside the keys its mutation scope names |
| Store.KeyValueStore.SyncKeyMetadata | core-engine/src/store.rs:1379-1392 | the metadata of one key follows the map, expired entries included |
| Store.KeyValueStore.RebuildMetadata | core-engine/src/store.rs:1394-1410 | in whatever order the map is visited, metadata and byte total come out as those of the entries that have not expired |
| Store.RebuildIsExact | core-engine/src/store.rs:1399-1401 | that is the whole map iff nothing in it has expired |
| Store.KeyValueStore.ChooseVictim | core-engine/src/store.rs:1664-1723 | a random sample without repetition, of the policy's size or of all candidates if there are fewer, always yields a victim: the least of the sample by the policy's weight, whose meaning is `Eviction.LighterIsSooner` |
| Store.KeyValueStore.PickVictim | core-engine/src/store.rs:1691-1731 | a victim is found iff the policy has an eligible key, and is the least of some sample of the eligible ones; volatile policies choose only keys with a TTL |
| Store.KeyValueStore.EvictOne | core-engine/src/store.rs:1691-1731 | removes exactly such a victim from map, metadata and byte total, and counts it |
| Store.KeyValueStore.EvictDownTo | core-engine/src/store.rs:1435-1440 | the loop ends low enough or with nothing eligible, took nothing once it was low enough, and reports, without repetition, exactly what it removed, each of them a victim the policy could choose next |
| Store.KeyValueStore.TryEvictForMemory | core-engine/src/store.rs:1431-1442 | ends a sixteenth below the cap or with nothing eligible; never takes a key without a TTL under a volatile policy; under all-keys policies always reaches its aim |
| Store.KeyValueStore.Restore | core-engine/src/store.rs:1896-1905 | putting back the saved entries restores the map exactly |
| Store.KeyValueStore.Settle | core-engine/src/store.rs:1882-1890 | after a command the metadata names every key it touched that is there, and the byte total has fallen short by exactly the size of the touched keys that were out of it |
| Store.KeyValueStore.RollBack | core-engine/src/store.rs:1893-1907 | the map is as before the command; metadata and total are those of the unexpired entries |
| Store.KeyValueStore.ExecuteTouching | core-engine/src/store.rs:1861-1917 | a write either completes with metadata and total in step, or is refused with the map exactly as before, values and expiries. Under NoEviction it is refused iff the total would pass the cap and what it was, and otherwise the total is what it would be: within the cap or no higher than it was; after a refusal it may exceed that by what it was short. Under other policies it ends at the low mark or with nothing eligible |
| Store.KeyValueStore.ExecuteReporting | core-engine/src/store.rs:1837-1921 | one command from any state a run can reach, miscounts and rollbacks behind it included: ordered index and dense arrays name exactly the keys of the map but those a rollback left out, all of them expired; the byte total never exceeds the sum of sizes and falls short by exactly what the command touched that was out of it; evictions that made too little room left nothing eligible; each eviction, for room or for memory, took a key the policy could choose next, and memory eviction took none without a cap or below the low mark; the reported list is what was evicted; a refused write changes nothing; under NoEviction, when a write is refused and exactly when the total ends above both the cap and what it was |
| Store.KeyValueStore.ValidLater | core-engine/src/store.rs:976-979 | that invariant survives the passing of time |
| Store.KeyValueStore.RemoveExpired | core-engine/src/store.rs:1590-1606 | removes and reports exactly the expired ones among some keys, with the bookkeeping kept |
| Store.KeyValueStore.SweepExpired | core-engine/src/store.rs:1554-1563 | of the entries the metadata names, exactly the unexpired ones are left; the invariant is kept |
| Store.KeyValueStore.SweepExpiredBudget | core-engine/src/store.rs:1568-1606 | removes exactly the expired keys in the cursor's window and moves the cursor on, as a step of the sweep |
| Eviction.MayGoIff | core-engine/src/store.rs:1691-1723 | for every policy and sample size: a key may be evicted next iff it is eligible and no eligible key is lighter, or enough others to fill a sample are no lighter |
| Eviction.VictimIs | core-engine/src/store.rs:1691-1723 | with a sample that covers the candidates, in terms of entries and time: a key may go iff no candidate goes sooner. Expired ones go first, then under LRU the longest unused and under VolatileTtl the earliest deadline, among keys with a TTL under volatile policies; the random policy takes any |
| Eviction.LighterIsSooner | core-engine/src/store.rs:1706-1721 | that order is the order of the weights, for every policy and any two entries |
| Eviction.LightestFirst | core-engine/src/store.rs:8524-8545 | so with such a sample evictions go in that order: nothing goes before what goes sooner, neither before what goes later nor before what stays |
| Eviction.EvictableIff | core-engine/src/store.rs:1691-1731 | over every way to make room for n keys: a key can be among the evicted iff it is eligible and fewer than n eligible keys are lighter, or enough others to fill a sample are no lighter |
| Refusal.NothingShortNothingExceeds | core-engine/src/store.rs:1893-1907 | while the total falls short of nothing, a refusal never leaves it above the cap and what it was |
| Refusal.Set | core-engine/src/store.rs:1861-1917 | a SET under NoEviction: refused iff the total, adjusted by the sizes of the key before and after, would pass the cap and what it was; the new map and total in either case |
| Refusal.PassesTheCap | core-engine/src/store.rs:1880-1907 | a run of five SETs after which a refused write leaves 330 bytes under a cap of 300, with 265 counted before it |
| Expiry.EveryExpiredKeyGoes | core-engine/src/store.rs:1565-1588 | with no writes, all keys expired at the start are gone after v*ceil(v/limit) sweeps, although removals reorder the array under the cursor and the 64-bit cursor may wrap many times |
| Expiry.BudgetIs | core-engine/src/store.rs:1568-1588 | the sweeps that lose the keys one by one, in closed form: what that leaves of v*ceil(v/limit) pays for the wraps |
| Expiry.UnexpiredStays | core-engine/src/store.rs:1590-1598 | a key no sweep finds expired is never swept |
| Expiry.SomeKeyGoes | core-engine/src/store.rs:1568-1588 | ceil(n/limit) consecutive windows modulo n reach every position, so they remove something while anything expired is left |
| StoreFacts.CommandFrame | core-engine/src/store.rs:1837-1921 | a key neither in the scope nor in the reported list keeps its entry, through evictions and rollback |
| StoreFacts.EvictionsAreReal | core-engine/src/store.rs:1835-1837 | every reported key was in the map or written by the command, and those evicted for memory are gone |
| StoreFacts.UncountedIff | core-engine/src/store.rs:1882-1886 | a command falls short by nothing iff it touches no key that is out of the byte total |
| StoreFacts.OnlyCrowdedMSetMiscounts | core-engine/src/store.rs:2185-2204 | only an MSET that writes an existing key beside more new keys than the cap allows can evict a key it touches |
| StoreFacts.MSetMayMiscountIff | core-engine/src/store.rs:2185-2204 | some eviction outcome, the policy's weights and sample included, makes an MSET miscount iff it names a key that making its room can reach: eligible, with fewer lighter keys than it needs room for or with enough others to fill a sample |
| StoreFacts.MSetEvictsItsOwnKey | core-engine/src/store.rs:2185-2204 | the smallest such MSET, and that it ends above the key cap |
| StoreFacts.KeyCapHoldsIff | core-engine/src/store.rs:1975-1981 | SET and MSET leave a store within its key cap, or no further above it, iff an MSET that made room did not evict more of its own keys than it named new ones again |
| StoreFacts.RoomIsNotExcessive | core-engine/src/store.rs:2187-2202 | room is made only for new keys in a full store, and an MSET that made it ends exactly at the cap up to those two numbers |
| StoreFacts.MaxKeysReachedIff | core-engine/src/store.rs:1975-2202 | a write is refused for the key cap iff the room it needs could not be made |
| StoreFacts.SetEvictsForNothingIff | core-engine/src/store.rs:1975-2040 | a SET that evicted for a new key has written nothing iff its options forbid it |
| StoreFacts.OthersPassTheKeyCap | docs/server/configuration.md:15 | every other command that makes a key adds it past the cap, asking for no room |
| StoreFacts.LowWaterIs | core-engine/src/store.rs:1435 | memory eviction aims at fifteen sixteenths of the cap, rounded up |
| Commands.GetShowsTheString | core-engine/src/store.rs:2068-2080 | GET shows the string of a key until its deadline, marks it used, and changes nothing else |
| Commands.GetAfterSet | core-engine/src/store.rs:1973-2080 | what SET wrote is read until its deadline and not from then on |
| Commands.SetObeysItsOptions | core-engine/src/store.rs:1973-2067 | SET writes iff its condition, its GET and its TTL allow it, and then only that key with the TTL asked for; otherwise it changes nothing; GET shows the old string |
| Commands.ExpireDecides | core-engine/src/store.rs:2267-2271 | EXPIRE decides, in seconds and saturating at 64 bits, until when a live key can be read, and touches nothing else; it answers 0 and does nothing otherwise |
| Commands.PersistKeeps | core-engine/src/store.rs:2312-2322 | PERSIST leaves a live key readable at every time, and answers 1 iff there was a deadline |
| Commands.PersistUndoesExpire | core-engine/src/store.rs:2267-2322 | EXPIRE and PERSIST give back a key that had no deadline |
| Commands.RenameMoves | core-engine/src/store.rs:2439-2451 | RENAME moves the whole entry, TTL included; a source that is not live is an error, and gone if it had expired |
| Commands.DelRemovesLiveKeys | core-engine/src/store.rs:2082-2090 | DEL removes exactly the live keys named and counts each once |
| Commands.IncrAddsUp | core-engine/src/store.rs:4075-4089 | what INCR answers is the old number plus the delta, is what it stores, and keeps the TTL; each error has its exact condition and changes nothing |
| Commands.MSetWritesLast | core-engine/src/store.rs:2185-2207 | each key named ends with the last value given for it and without TTL, all others as they were |
| Commands.HSetReads | core-engine/src/store.rs:2475-2494 | a field reads as the last value given for it, other fields as before; the TTL stays; the answer is the growth iff no new field is named twice |
| Commands.HSetCountsIff | core-engine/src/store.rs:2486-2493 | the fields counted as new are those added iff no new field is named twice, and never fewer |
| Commands.SMoveConserves | core-engine/src/store.rs:3311-3370 | a member moves without loss or duplication, or nothing changes, with the exact condition of each answer |
| Commands.SMoveToItself | core-engine/src/store.rs:3311-3370 | moving a member to the set it is in keeps the set |
| Commands.SMoveMovesBytes | core-engine/src/store.rs:4062-4073 | two live sets together weigh after the move what they weighed before, less the member if the destination had it |
| Commands.FieldBytesGrow | core-engine/src/store.rs:4062-4073 | writing a field changes the size of a hash by what is written, less what it replaces |
| Commands.SInterStoreIsIntersection | core-engine/src/store.rs:3108-3127 | the stored set is the intersection of the live sources, empty if one is missing; a source of another type changes nothing |
| Commands.JMergeMerges | core-engine/src/store.rs:3647-3680 | JMERGE merges into a live document or a new one, keeps the TTL, removes the document for a null patch, and leaves another type alone |
| Scan.ScanCursors.Page | core-engine/src/store.rs:2358-2431 | whatever is inserted or deleted between calls, an iteration visits no key twice and, when it ends, has visited every key indexed at all its calls; other iterations keep their place while fewer than 4096 cursors are out |
| Scan.ScanCursors.Scan | core-engine/src/store.rs:2358-2431 | whatever happens to keys, values and TTLs between calls, and whatever other iterations do: a whole iteration returns no key twice and nothing that does not match or is not live when returned; when it ends, each key that was indexed, live and matching at all its calls has been returned; one call returns at most COUNT keys |
| Scan.ScanCursors.Issue | core-engine/src/store.rs:2395-2413 | a new cursor is distinct from all outstanding ones and displaces one only at the cap |
| Scan.Continues | core-engine/src/store.rs:2370-2391 | resuming after the last key of a page continues an increasing listing without gap or repetition |
| Scan.StaticScanEnds | core-engine/src/store.rs:2370-2391 | on a standing keyspace the next page begins where the last one ended |
| Scan.ScanCursors.Iterate | core-engine/src/store.rs:2358-2431 | a whole iteration over a standing keyspace visits its ordered listing once, in `Calls` calls |
| Scan.CallsAreKeysByBatch | core-engine/src/store.rs:2370-2415 | that is the number of keys by COUNT, rounded up, and one for an empty keyspace |
| Scan.Filter | core-engine/src/store.rs:2416-2428 | the filter loop shows what the pattern and liveness select |
| Scan.ShownOnce | core-engine/src/store.rs:2416-2428 | a visited key is shown once if it matches and is live, else not at all |
| Scan.PlainScanShowsIff | core-engine/src/store.rs:2417 | without MATCH, exactly the live keys of two bytes and more that begin with a star byte are left out |
| Order.ListingIsUnique | core-engine/src/store.rs:1203-1208 | a set has one increasing listing, so an ordered index is determined by its members |
| Order.LessIff | core-engine/src/store.rs:1203-1208 | the order of keys and members: the first differing byte decides, and a proper prefix is less |
| ZSet.ZSetInner.InsertScore | core-engine/src/store.rs:149-196 | inserts or updates a score; a materialised index stays exact or is abandoned |
| ZSet.ZSetInner.RemoveMember | core-engine/src/store.rs:213-219 | removes a member, the index following |
| ZSet.ZSetInner.Ordered | core-engine/src/store.rs:202-225 | whatever the index went through, the listing is the (score, member) order of the score map |
| ZSet.ItemLessIff | core-engine/src/store.rs:202-225 | that order in plain terms: by score, and by bytes among members of one score |
| ZSet.ZSetInner.RangeByScore | core-engine/src/store.rs:233-249 | the range walk over the index is the linear filter of the listing: in order, exactly the items at or above an inclusive bound and strictly above an exclusive one, and so at the other end |
| ZSet.ZSetInner.Rank | core-engine/src/store.rs:256-263 | the rank is the member's position in the listing |
| ZSet.WalkFindsRange | core-engine/src/store.rs:233-249 | seeking the lower bound and stopping at the upper loses and adds nothing |
| ZSet.CountIsPosition | core-engine/src/store.rs:256-263 | counting the smaller entries gives the position |
| ZSet.ZAddExec | core-engine/src/store.rs:4429-4490 | over a whole argument list each member ends as its own scores alone decide: the last one given, with NX the first for an absent member, with GT or LT the greatest or least of old and given, with XX alone each in turn that is far enough; the count of additions is the growth of the set, and with CH, for members named once, the number that are new or changed |
| ZSet.ConditionsHold | core-engine/src/store.rs:4419-4426 | over a whole command NX changes no member, XX adds none, GT never lowers, LT never raises |
| Json.JsonMergePatch | core-engine/src/store.rs:821-838 | the in-place merge, in any order of fields, computes the MergePatch of section 2 of RFC 7386 |
| Json.MergePatchIdempotent | core-engine/src/store.rs:821-838 | applying a patch twice is applying it once |
| Json.ReadMerged | core-engine/src/store.rs:821-838 | what every path of the merged document reads: the target where the patch is silent, nothing where it says null, the merge where it is an object, and the patch's value otherwise |
| Json.JsonSetAt | core-engine/src/store.rs:772-802 | the in-place walk to the slot computes the specified set, failed walks included |
| Json.JsonGetAt | core-engine/src/store.rs:805-815 | the read cursor finds what is at the path |
| Json.GetOneDeeper | core-engine/src/store.rs:805-815 | each step leads to the named field of the object, or the item of the array, found before it |
| Json.SetSucceedsIffPathIsOpen | core-engine/src/store.rs:772-802 | a set succeeds iff every step of the path finds a place that lets it through |
| Json.SetFailsWhere | core-engine/src/store.rs:772-802 | a set that fails names the first step that finds no place, and why |
| Json.GetAfterSet | core-engine/src/store.rs:772-815 | reading at or below the path gives what was set |
| Json.SetAfterSet | core-engine/src/store.rs:772-802 | the last of two sets wins and cannot fail |
| Json.SetWhatIsThere | core-engine/src/store.rs:772-815 | setting what is there changes nothing |
| Json.DivergingPathUnchanged | core-engine/src/store.rs:772-802 | a path that leaves the target's reads as before, even after a failed set |
| Json.DocumentsCost | core-engine/src/store.rs:841-855 | what a document is charged: scalars, containers, and each item and field on top of the others, in whatever order fields are added up |
| Delivery.EveryRunIsValid | server-native/src/pubsub.rs:27-73 | in every interleaving of reserve, enqueue, failed enqueue, receive, drop and close, the counter is the sum of the live messages' charges and at most 8 MiB, the queue holds at most 256 and is in order, every message is alive or was dropped exactly once |
| Delivery.StepKeepsValid | server-native/src/watch.rs:21-79 | each single step of either side keeps that |
| Delivery.RefusedIffFull | server-native/src/watch.rs:34-44 | a reservation is refused iff the live messages leave no room, and changes nothing then but the overflow signal |
| Delivery.IdleMeansFree | server-native/src/pubsub.rs:27-33 | once all messages are gone the counter is zero: no charge leaks |
| Delivery.LiveMessagesAreFew | server-native/src/watch.rs:6-11 | with a fixed charge per message the budget bounds how many can exist |
| Delivery.HistoryGrows | server-native/src/pubsub.rs:86-100 | what was accepted and received only grows at its end, and not after the receiver closed |
| Mail.SendOutcome | server-native/src/pubsub.rs:47-74 | a whole send succeeds iff the mailbox is open, its queue not full and its budget sufficient; otherwise queue, budget and messages are as before |
| Mail.SendIsARun | server-native/src/watch.rs:57-79 | a send is a run of the protocol's steps |
| Mail.AcceptedIffRoom | server-native/src/pubsub.rs:47-74 | in a row of sends with receivers acting in between, each is accepted iff there is room at its moment |
| Mail.DeliveredIsExact | server-native/src/pubsub.rs:201-240 | each mailbox accepts exactly the letters to it that were reported accepted, in order, and stays within its bounds |
| Registry.UnsubscribeUndoesSubscribe | server-native/src/pubsub.rs:129-147 | subscribing and unsubscribing again restores the registry |
| Registry.LeavingOneByOne | server-native/src/pubsub.rs:140-161 | unsubscribing name by name, in any order, is unsubscribing from all at once |
| Registry.OthersAreSome | server-native/src/pubsub.rs:140-147 | a connection that leaves a list takes exactly its own registrations |
| PubSub.PubSubHub.Subscribe | server-native/src/pubsub.rs:129-134 | appends the subscriber to the channel's list, keeping the hub's invariant |
| PubSub.PubSubHub.PSubscribe | server-native/src/pubsub.rs:136-138 | appends the pattern subscription |
| PubSub.PubSubHub.Unsubscribe | server-native/src/pubsub.rs:140-147 | removes the connection from one channel, and the channel with its last subscriber |
| PubSub.PubSubHub.PUnsubscribe | server-native/src/pubsub.rs:149-152 | removes the connection's subscription to one pattern |
| PubSub.OtherPatternsAreSome | server-native/src/pubsub.rs:149-160 | of the pattern subscriptions exactly the connection's go: those of one pattern, or all |
| PubSub.PubSubHub.UnsubscribeAll | server-native/src/pubsub.rs:154-160 | removes the connection everywhere and leaves no channel empty, in any order of channels |
| PubSub.PubSubHub.MatchingPatterns | server-native/src/pubsub.rs:225-230 | selects, in order, the subscriptions whose pattern matches |
| PubSub.PubSubHub.Publish | server-native/src/pubsub.rs:201-240 | posts to the channel, then to the matching patterns; counts the accepted; keeps on the channel exactly those that accepted and no empty channel; drops exactly the pattern subscriptions whose receiver is gone |
| PubSub.PublicationIsExact | server-native/src/pubsub.rs:201-240 | every mailbox gets one copy per registration that had room, in order, and nothing else, whatever receivers do meanwhile |
| PubSub.LettersGoToSubscribers | server-native/src/pubsub.rs:201-240 | the letters are exactly one to each subscriber of the channel, with channel and payload, and one to each subscriber of a matching pattern, with the pattern too, each charged for its bytes and the overhead |
| PubSub.OthersGetNothing | server-native/src/pubsub.rs:201-240 | who is not written to accepts nothing |
| Watch.HeapBytesAreModest | server-native/src/watch.rs:105-119 | a value costs at most twice its serialized size |
| Watch.HeapBytesAreLeaves | server-native/src/watch.rs:105-119 | a value that can arrive costs exactly the bytes of the values inside it |
| Watch.NoticesCarryTheChange | server-native/src/watch.rs:57-72 | each watcher is told key and value, charged for the key, those bytes and the overhead |
| Watch.WatchHub.Tell | server-native/src/propagation.rs:364-366 | one retain over a list tells everyone on it and keeps exactly those that accepted |
| Watch.WatchHub.FanOut | server-native/src/propagation.rs:360-391 | a batch reaches exact-key watchers, then live queries in any order; the mirrored numbers stay exact, the shortcut for an empty registry loses nothing, and no name with an empty list is left |
| Watch.WatchHub.NotifyFlushdb | server-native/src/propagation.rs:404-427 | each watched key and each live query is told once; the mirrored numbers stay exact |
| Watch.EachMentionTells | server-native/src/propagation.rs:363-370 | each mention of a key in a batch tells, in order, those the key has left by then, and leaves those that accepted |
| Watch.MentionFindsSurvivors | server-native/src/propagation.rs:363-370 | those are the survivors of the mention before, or all the key's watchers |
| Watch.ToldIffTookAll | server-native/src/propagation.rs:363-370 | a mention tells a watcher iff every earlier mention of that key in the batch was accepted by it |
| Watch.EveryWatcherIsTold | server-native/src/propagation.rs:360-371 | the notices of a whole batch are those of its mentions, in order and no others; in a batch that names each key once these go to every watcher of every changed key, however many are dropped on the way |
| Watch.QueryToldIffTookAll | server-native/src/propagation.rs:376-385 | a live query is told of exactly the changes whose keys match its pattern, and of each exactly those subscribers that accepted every one before it |
| Watch.OtherKeysKeepTheirs | server-native/src/propagation.rs:360-371 | a key that did not change keeps its watchers |
| Watch.FanOutIsExact | server-native/src/propagation.rs:360-391 | each mailbox accepts exactly the accepted notices to it, in order, within its bounds |
| Watch.FlushEmptiesIff | server-native/src/propagation.rs:404-412 | in a whole flush over the watched names each watcher is sent one notice, and a name ends with an empty list iff none of its watchers has room when its turn comes |
| Watch.FlushCanLeaveEmpty | server-native/src/propagation.rs:405-412 | a registry in which that happens |
| Watch.WatchHub.Watch | server-native/src/connection.rs:634-649 | registers the connection once for each new key, or refuses as a whole at the limit |
| Watch.WatchHub.UnregisterAllWatches | server-native/src/watch.rs:189-208 | removes the connection from the keys of its record and no one else from anything; if the record covers its registrations, none is left |
| Watch.WatchHub.UnregisterAllQsubs | server-native/src/watch.rs:166-184 | the same for live queries |
| Watch.UnregisterUndoesWatch | server-native/src/watch.rs:186-208 | watching and unregistering again restores the registry |
| Watch.RecordKeepsCovering | server-native/src/connection.rs:634-672 | a connection's record goes on covering its registrations across fan-outs, flushes and other connections' leaving |
| Watch.JoiningKeepsCovering | server-native/src/connection.rs:640-646 | and across WATCH by itself and by others |

## Left out

- RateLimiter.NoWindowAdmitsMoreThanLimit: assumes a clock that does not go backwards and a window that does not change, because a new window changes the width the old buckets are read with.
- Expiry.EveryExpiredKeyGoes: assumes at most 2^61 keys with a TTL, more than 64-bit memory can hold.
- Store.KeyValueStore.ChooseVictim: the sample is arbitrary; nothing is said about its distribution. Of several keys of the least weight the program takes the one that is first in its dense array, whose order depends on the whole history; here any of them may go.
- Store.KeyValueStore.ExecuteReporting: a command is one atomic step; the interleaving of uncapped writes on shards of the map is not modelled. An arithmetic overflow in RLCHECK is an ordinary reply, where the program unwinds.
- Scan.ScanCursors.Page: cursor tokens are unbounded numbers. Which cursor goes at the cap is arbitrary.
- Mail.DeliveredIsExact: the receivers act between sends; the interleaving inside a send is the subject of `Delivery`.
- Lossy conversion of bytes that are not UTF-8: text is bytes.
- The read buffer's size cap, sockets, TLS, tokio's tasks and the wire encoding of pub/sub messages.
- Scores that are NaN or negative zero, rounding, score text, and ZADD with INCR.
- JSON text and path text; numbers in documents are opaque.
- Compact hash and set layouts, and the read commands for lists, hashes and sets.
- Commands beyond the fifteen of `Keyspace.Command` and SCAN, command parsing, snapshots, restore and replication.
- The registration of a live query with its initial state, UNWATCH and QUNSUB of single names, and the counters for INFO.
