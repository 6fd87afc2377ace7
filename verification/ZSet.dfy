/**
 Sorted sets: a score map with a lazily built, sometimes abandoned ordered index.

 The contracts of `ZSetInner` speak only of the score map, in the terms of the
 specification functions below; that the index never shows is what its methods prove.
 Scores are ordered like floating-point numbers without NaN and negative zero.
 */
module ZSet {
  import opened Bytes
  import opened Order

  datatype Score = NegInf | Finite(v: real) | PosInf
  datatype Item = Item(score: Score, member: bytes)
  datatype ScoreBound = LowEnd | HighEnd | Inclusive(at: Score) | Exclusive(at: Score)

  predicate ScoreLess(a: Score, b: Score) {
    match (a, b)
    case (NegInf, _) => b != NegInf
    case (_, PosInf) => a != PosInf
    case (Finite(x), Finite(y)) => x < y
    case _ => false
  }

  // Ascending score, then member.
  predicate ItemLess(a: Item, b: Item) {
    ScoreLess(a.score, b.score) || (a.score == b.score && Less(a.member, b.member))
  }

  lemma ItemLessIsStrictOrder()
    ensures StrictOrder(ItemLess)
  {
    LessIsStrictOrder();
  }

  // By score, and members of one score by their bytes.
  lemma ItemLessIff(a: Item, b: Item)
    ensures ItemLess(a, b) <==>
      Beneath(a.score, b.score) || (a.score == b.score && exists n: nat :: DecidedAt(a.member, b.member, n))
  {
    LessIff(a.member, b.member);
    hide Less;
  }

  predicate AboveMin(s: Score, min: ScoreBound) {
    match min
    case LowEnd => true
    case HighEnd => false
    case Inclusive(v) => !ScoreLess(s, v)
    case Exclusive(v) => ScoreLess(v, s)
  }

  predicate BelowMax(s: Score, max: ScoreBound) {
    match max
    case HighEnd => true
    case LowEnd => false
    case Inclusive(v) => !ScoreLess(v, s)
    case Exclusive(v) => ScoreLess(s, v)
  }

  // Scores from minus to plus infinity.
  ghost predicate Beneath(a: Score, b: Score) {
    (a.NegInf? && !b.NegInf?) || (b.PosInf? && !a.PosInf?) || (a.Finite? && b.Finite? && a.v < b.v)
  }

  // ── What the queries mean ───────────────────────────────────────────────────

  ghost function Items(scores: map<bytes, Score>): set<Item> {
    set m | m in scores :: Item(scores[m], m)
  }

  // The (score, member)-sorted contents.
  ghost function Ascending(scores: map<bytes, Score>): (s: seq<Item>)
    ensures Lists(s, Items(scores), ItemLess)
  {
    ItemLessIsStrictOrder();
    Listing(Items(scores), ItemLess)
  }

  // The members within bounds, by looking at every one of them.
  function InRange(s: seq<Item>, min: ScoreBound, max: ScoreBound): seq<Item> {
    if s == [] then []
    else (if AboveMin(s[0].score, min) && BelowMax(s[0].score, max) then [s[0]] else [])
         + InRange(s[1..], min, max)
  }

  // ── How the index answers them ──────────────────────────────────────────────

  function StartOf(min: ScoreBound): Score {
    match min
    case LowEnd => NegInf
    case HighEnd => PosInf
    case Inclusive(v) => v
    case Exclusive(v) => v
  }

  function SeekFrom(s: seq<Item>, start: Item): seq<Item> {
    if s == [] then [] else if ItemLess(s[0], start) then SeekFrom(s[1..], start) else s
  }

  function WhileBelow(s: seq<Item>, max: ScoreBound): seq<Item> {
    if s == [] || !BelowMax(s[0].score, max) then [] else [s[0]] + WhileBelow(s[1..], max)
  }

  function OnlyAbove(s: seq<Item>, min: ScoreBound): seq<Item> {
    if s == [] then [] else (if AboveMin(s[0].score, min) then [s[0]] else []) + OnlyAbove(s[1..], min)
  }

  function CountBelow(s: seq<Item>, item: Item): nat {
    if s == [] || !ItemLess(s[0], item) then 0 else 1 + CountBelow(s[1..], item)
  }

  lemma {:induction false} NothingPastMax(s: seq<Item>, min: ScoreBound, max: ScoreBound)
    requires Increasing(s, ItemLess) && s != [] && !BelowMax(s[0].score, max)
    ensures InRange(s, min, max) == []
    decreases |s|
  {
    if |s| > 1 {
      assert ItemLess(s[0], s[1]);
      NothingPastMax(s[1..], min, max);
    }
  }

  lemma {:induction false} StopEarly(s: seq<Item>, min: ScoreBound, max: ScoreBound)
    requires Increasing(s, ItemLess)
    ensures OnlyAbove(WhileBelow(s, max), min) == InRange(s, min, max)
    decreases |s|
  {
    if s != [] {
      if BelowMax(s[0].score, max) {
        StopEarly(s[1..], min, max);
        assert WhileBelow(s, max)[1..] == WhileBelow(s[1..], max);
      } else {
        NothingPastMax(s, min, max);
      }
    }
  }

  // Seeking to the lower bound and stopping at the upper one finds what a scan of
  // every member finds, in the same order.
  lemma {:induction false} WalkFindsRange(s: seq<Item>, min: ScoreBound, max: ScoreBound)
    requires Increasing(s, ItemLess)
    ensures OnlyAbove(WhileBelow(SeekFrom(s, Item(StartOf(min), [])), max), min) == InRange(s, min, max)
    decreases |s|
  {
    if s != [] && ItemLess(s[0], Item(StartOf(min), [])) {
      WalkFindsRange(s[1..], min, max);
    } else {
      StopEarly(s, min, max);
    }
  }

  // What bounds admit: at or above an inclusive one, strictly above an exclusive one.
  ghost predicate Within(s: Score, min: ScoreBound, max: ScoreBound) {
    && !min.HighEnd? && !max.LowEnd?
    && (min.Inclusive? ==> s == min.at || Beneath(min.at, s)) && (min.Exclusive? ==> Beneath(min.at, s))
    && (max.Inclusive? ==> s == max.at || Beneath(s, max.at)) && (max.Exclusive? ==> Beneath(s, max.at))
  }

  // A range has exactly the items whose scores its bounds admit, in their order.
  lemma {:induction false} RangeIs(s: seq<Item>, min: ScoreBound, max: ScoreBound)
    requires Increasing(s, ItemLess)
    ensures Increasing(InRange(s, min, max), ItemLess)
    ensures forall x :: x in InRange(s, min, max) <==> x in s && Within(x.score, min, max)
    decreases |s|
  {
    hide ItemLess, Within, AboveMin, BelowMax;
    if s != [] {
      RangeIs(s[1..], min, max);
      BoundsAdmit(s[0].score, min, max);
      FirstThenRest(s);
      var others := InRange(s[1..], min, max);
      if others != InRange(s, min, max) {
        ConsLists(s[0], others, (set x | x in others), ItemLess);
        assert InRange(s, min, max) == [s[0]] + others;
      }
    }
  }

  lemma FirstThenRest(s: seq<Item>)
    requires s != [] && Increasing(s, ItemLess)
    ensures Increasing(s[1..], ItemLess) && forall x :: x in s[1..] ==> ItemLess(s[0], x)
    ensures forall x :: x in s <==> x == s[0] || x in s[1..]
  {
    hide ItemLess;
    assert s == [s[0]] + s[1..];
    forall x | x in s[1..] ensures ItemLess(s[0], x) {
      var i :| 0 <= i < |s| - 1 && s[1..][i] == x;
      assert s[i + 1] == x;
    }
  }

  lemma BoundsAdmit(s: Score, min: ScoreBound, max: ScoreBound)
    ensures AboveMin(s, min) && BelowMax(s, max) <==> Within(s, min, max)
  {
  }

  // A member's rank is its position.
  lemma {:induction false} CountIsPosition(s: seq<Item>, k: nat)
    requires Increasing(s, ItemLess) && k < |s|
    ensures CountBelow(s, s[k]) == k
    decreases k
  {
    if k == 0 {
      ItemLessIsStrictOrder();
    } else {
      assert ItemLess(s[0], s[k]);
      CountIsPosition(s[1..], k - 1);
      assert s[1..][k - 1] == s[k];
    }
  }

  const INDEX_ABANDON_FLOOR: nat := 1024

  class ZSetInner {
    var scores: map<bytes, Score>
    var index: Option<seq<Item>>
    var writesSinceRange: nat

    ghost predicate Valid()
      reads this
    {
      index.Some? ==> Lists(index.value, Items(scores), ItemLess)
    }

    constructor ()
      ensures Valid() && scores == map[]
    {
      scores, index, writesSinceRange := map[], None, 0;
    }

    function ScoreOf(member: bytes): Option<Score>
      reads this
    {
      if member in scores then Some(scores[member]) else None
    }

    // Keeps a materialised ordering in step with a write, or abandons it.
    method Reindex(old_: Option<Score>, score: Score, member: bytes)
      requires Valid() && old_ == ScoreOf(member)
      modifies this`index, this`writesSinceRange
      ensures index.Some? ==> Lists(index.value, Items(scores[member := score]), ItemLess)
    {
      if index.None? {
        return;
      }
      var writes := writesSinceRange;
      if writes > INDEX_ABANDON_FLOOR && writes > |scores| {
        index := None;
        writesSinceRange := 0;
        return;
      }
      ItemLessIsStrictOrder();
      var listed := index.value;
      ghost var elements := Items(scores);
      if old_.Some? {
        var stale := Item(old_.value, member);
        RemoveLists(listed, elements, stale, ItemLess);
        elements := elements - {stale};
        listed := Remove(listed, stale);
      }
      InsertLists(listed, elements, Item(score, member), ItemLess);
      ItemsAfterWrite(scores, member, score);
      index := Some(Insert(listed, Item(score, member), ItemLess));
      writesSinceRange := writesSinceRange + 1;
    }

    // Inserts or updates a member, returning its previous score.
    method InsertScore(member: bytes, score: Score) returns (previous: Option<Score>)
      requires Valid()
      modifies this
      ensures Valid() && previous == old(ScoreOf(member))
      ensures scores == old(scores)[member := score]
    {
      previous := ScoreOf(member);
      if previous == Some(score) {
        assert scores == scores[member := score];
        return;
      }
      Reindex(previous, score, member);
      scores := scores[member := score];
    }

    method RemoveMember(member: bytes) returns (previous: Option<Score>)
      requires Valid()
      modifies this
      ensures Valid() && previous == old(ScoreOf(member))
      ensures scores == old(scores) - {member}
    {
      previous := ScoreOf(member);
      if previous.None? {
        assert scores - {member} == scores;
        return;
      }
      if index.Some? {
        ItemLessIsStrictOrder();
        RemoveLists(index.value, Items(scores), Item(previous.value, member), ItemLess);
        ItemsAfterRemove(scores, member);
        index := Some(Remove(index.value, Item(previous.value, member)));
      }
      scores := scores - {member};
    }

    // The ordered view, built on first use.
    method Ordered() returns (listed: seq<Item>)
      requires Valid()
      modifies this`index, this`writesSinceRange
      ensures Valid() && listed == Ascending(scores)
    {
      writesSinceRange := 0;
      ItemLessIsStrictOrder();
      if index.None? {
        var todo := scores;
        listed := [];
        while todo != map[]
          invariant todo.Keys <= scores.Keys && forall m :: m in todo ==> todo[m] == scores[m]
          invariant Lists(listed, Items(scores) - Items(todo), ItemLess)
          decreases |todo|
        {
          var m :| m in todo;
          InsertLists(listed, Items(scores) - Items(todo), Item(scores[m], m), ItemLess);
          ItemsAfterRemove(todo, m);
          assert Items(scores) - Items(todo - {m}) == Items(scores) - Items(todo) + {Item(scores[m], m)};
          assert (todo - {m}).Keys < todo.Keys;
          listed := Insert(listed, Item(scores[m], m), ItemLess);
          todo := todo - {m};
        }
        assert Items(scores) - Items(todo) == Items(scores);
        index := Some(listed);
      }
      listed := index.value;
      ListingIsUnique(listed, Ascending(scores), Items(scores), ItemLess);
    }

    method RangeByScore(min: ScoreBound, max: ScoreBound) returns (found: seq<Item>)
      requires Valid()
      modifies this`index, this`writesSinceRange
      ensures Valid() && found == InRange(Ascending(scores), min, max)
      ensures Increasing(found, ItemLess)
      ensures forall x :: x in found <==> x in Items(scores) && Within(x.score, min, max)
    {
      var listed := Ordered();
      found := OnlyAbove(WhileBelow(SeekFrom(listed, Item(StartOf(min), [])), max), min);
      WalkFindsRange(listed, min, max);
      RangeIs(listed, min, max);
    }

    method Rank(member: bytes) returns (rank: Option<nat>)
      requires Valid()
      modifies this`index, this`writesSinceRange
      ensures Valid()
      ensures if member in scores then
          rank.Some? && rank.value < |Ascending(scores)|
          && Ascending(scores)[rank.value] == Item(scores[member], member)
        else rank.None?
    {
      if member !in scores {
        return None;
      }
      var item := Item(scores[member], member);
      var listed := Ordered();
      assert item in listed;
      ghost var k :| 0 <= k < |listed| && listed[k] == item;
      CountIsPosition(listed, k);
      rank := Some(CountBelow(listed, item));
    }
  }

  lemma ItemsAfterWrite(scores: map<bytes, Score>, member: bytes, score: Score)
    ensures Items(scores[member := score]) ==
      (if member in scores then Items(scores) - {Item(scores[member], member)} else Items(scores))
      + {Item(score, member)}
  {
    var after := scores[member := score];
    assert forall m :: m in after && m != member ==> m in scores && after[m] == scores[m];
    assert Item(after[member], member) in Items(after);
    forall x | x in Items(scores) && x.member != member ensures x in Items(after) {
      assert after[x.member] == x.score;
    }
  }

  lemma ItemsAfterRemove(scores: map<bytes, Score>, member: bytes)
    requires member in scores
    ensures Items(scores - {member}) == Items(scores) - {Item(scores[member], member)}
  {
    var after := scores - {member};
    assert forall m :: m in after ==> m in scores && m != member && after[m] == scores[m];
    forall x | x in Items(scores) && x.member != member ensures x in Items(after) {
      assert after[x.member] == x.score;
    }
  }

  // ── ZADD ────────────────────────────────────────────────────────────────────

  datatype Condition = Always | Nx | Xx
  datatype ZAddOptions = ZAddOptions(condition: Condition, gt: bool, lt: bool, ch: bool)

  const EPSILON: real := 1.0 / 4503599627370496.0

  // Whether two scores differ by more than one unit of rounding at 1.
  predicate Differs(a: Score, b: Score) {
    match (a, b)
    case (Finite(x), Finite(y)) => x - y > EPSILON || y - x > EPSILON
    case _ => a != b
  }

  predicate ShouldUpdate(score: Score, old_: Score, opts: ZAddOptions) {
    if opts.gt then ScoreLess(old_, score)
    else if opts.lt then ScoreLess(score, old_)
    else Differs(score, old_)
  }

  // Whether a pair is written at all. An unconditional ZADD also writes equal scores.
  predicate Writes(old_: Option<Score>, score: Score, opts: ZAddOptions) {
    match opts.condition
    case Nx => old_.None?
    case Xx => old_.Some? && ShouldUpdate(score, old_.value, opts)
    case Always => old_.None? || (!opts.gt && !opts.lt) || ShouldUpdate(score, old_.value, opts)
  }

  function Lookup(scores: map<bytes, Score>, m: bytes): Option<Score> {
    if m in scores then Some(scores[m]) else None
  }

  function ZAddAll(scores: map<bytes, Score>, opts: ZAddOptions, pairs: seq<Item>): map<bytes, Score> {
    if pairs == [] then scores
    else
      var n := |pairs| - 1;
      var before := ZAddAll(scores, opts, pairs[..n]);
      if Writes(Lookup(before, pairs[n].member), pairs[n].score, opts)
      then before[pairs[n].member := pairs[n].score] else before
  }

  function Changes(scores: map<bytes, Score>, opts: ZAddOptions, pairs: seq<Item>): nat {
    if pairs == [] then 0
    else
      var n := |pairs| - 1;
      var was := Lookup(ZAddAll(scores, opts, pairs[..n]), pairs[n].member);
      Changes(scores, opts, pairs[..n]) +
      if Writes(was, pairs[n].score, opts) && (was.None? || opts.gt || opts.lt || Differs(pairs[n].score, was.value))
      then 1 else 0
  }

  // The command over a whole argument list. The count of additions is the growth of
  // the set, whatever conditions and repetitions the arguments carry.
  method ZAddExec(zset: ZSetInner, opts: ZAddOptions, pairs: seq<Item>) returns (reply: nat)
    requires zset.Valid()
    modifies zset
    ensures zset.Valid()
    ensures zset.scores == ZAddAll(old(zset.scores), opts, pairs)
    ensures !opts.ch ==> reply + |old(zset.scores)| == |zset.scores|
    ensures opts.ch ==> reply == Changes(old(zset.scores), opts, pairs)
    ensures forall m :: EndsWith(old(zset.ScoreOf(m)), zset.ScoreOf(m), opts, Given(pairs, m))
    ensures opts.ch && DistinctMembers(pairs) ==> reply == |AlteredIn(old(zset.scores), zset.scores, opts, pairs)|
  {
    hide EndsWith, AlteredIn;
    var added, changed := 0, 0;
    for i := 0 to |pairs|
      invariant zset.Valid()
      invariant zset.scores == ZAddAll(old(zset.scores), opts, pairs[..i])
      invariant added + |old(zset.scores)| == |zset.scores|
      invariant changed == Changes(old(zset.scores), opts, pairs[..i])
    {
      assert pairs[..i + 1][..i] == pairs[..i];
      var score, member := pairs[i].score, pairs[i].member;
      if opts.condition == Always && !opts.gt && !opts.lt {
        var was := zset.InsertScore(member, score);
        if was.None? {
          added, changed := added + 1, changed + 1;
        } else if Differs(was.value, score) {
          changed := changed + 1;
        }
      } else {
        var was := zset.ScoreOf(member);
        if opts.condition == Nx {
          if was.None? {
            var _ := zset.InsertScore(member, score);
            added, changed := added + 1, changed + 1;
          }
        } else if opts.condition == Xx {
          if was.Some? && ShouldUpdate(score, was.value, opts) {
            var _ := zset.InsertScore(member, score);
            changed := changed + 1;
          }
        } else if was.None? {
          var _ := zset.InsertScore(member, score);
          added, changed := added + 1, changed + 1;
        } else if ShouldUpdate(score, was.value, opts) {
          var _ := zset.InsertScore(member, score);
          changed := changed + 1;
        }
      }
    }
    assert pairs[..|pairs|] == pairs;
    forall m ensures EndsWith(old(zset.ScoreOf(m)), zset.ScoreOf(m), opts, Given(pairs, m)) {
      EachEndsWith(old(zset.scores), opts, pairs, m);
    }
    if DistinctMembers(pairs) { ChangesAreAlterations(old(zset.scores), opts, pairs); }
    reply := if opts.ch then changed else added;
  }

  // What the conditions promise over a whole command: NX leaves present members
  // alone, XX adds none, GT never lowers and LT never raises a score that was there.
  lemma {:induction false} ConditionsHold(scores: map<bytes, Score>, opts: ZAddOptions, pairs: seq<Item>, m: bytes)
    requires m in scores
    ensures var after := ZAddAll(scores, opts, pairs);
      && m in after
      && ((forall i :: 0 <= i < |pairs| ==> pairs[i].member != m) ==> after[m] == scores[m])
      && (opts.condition == Nx ==> after[m] == scores[m])
      && (opts.condition == Xx ==> after.Keys == scores.Keys)
      && (opts.gt ==> !ScoreLess(after[m], scores[m]))
      && (opts.lt && !opts.gt ==> !ScoreLess(scores[m], after[m]))
    decreases |pairs|
  {
    if pairs != [] {
      ConditionsHold(scores, opts, pairs[..|pairs| - 1], m);
    }
  }

  // ── What ZADD leaves behind, member by member ───────────────────────────────

  // Two scores more than 2^-52 apart.
  ghost predicate Apart(a: Score, b: Score) {
    if a.Finite? && b.Finite? then (if a.v < b.v then b.v - a.v else a.v - b.v) * 4503599627370496.0 > 1.0 else a != b
  }

  // The scores given for a member, in order.
  function Given(pairs: seq<Item>, m: bytes): seq<Score> {
    if pairs == [] then []
    else
      var n := |pairs| - 1;
      Given(pairs[..n], m) + if pairs[n].member == m then [pairs[n].score] else []
  }

  // The score is the greatest of one that was there, if any, and those given.
  ghost predicate Greatest(s: Score, was: Option<Score>, given: seq<Score>) {
    && (was == Some(s) || s in given)
    && (was.Some? ==> !Beneath(s, was.value)) && forall g :: g in given ==> !Beneath(s, g)
  }

  ghost predicate Least(s: Score, was: Option<Score>, given: seq<Score>) {
    && (was == Some(s) || s in given)
    && (was.Some? ==> !Beneath(was.value, s)) && forall g :: g in given ==> !Beneath(g, s)
  }

  // Moves to each score given that is far enough from where it is.
  ghost function Moved(s: Score, given: seq<Score>): Score {
    if given == [] then s
    else
      var before := Moved(s, given[..|given| - 1]);
      var g := given[|given| - 1];
      if Apart(g, before) then g else before
  }

  // What a member ends with.
  ghost predicate EndsWith(was: Option<Score>, is_: Option<Score>, opts: ZAddOptions, given: seq<Score>) {
    if given == [] then is_ == was
    else if opts.condition == Nx then is_ == if was.Some? then was else Some(given[0])
    else if opts.condition == Xx && was.None? then is_ == None
    else if opts.gt then is_.Some? && Greatest(is_.value, was, given)
    else if opts.lt then is_.Some? && Least(is_.value, was, given)
    else if opts.condition == Xx then is_ == Some(Moved(was.value, given))
    else is_ == Some(given[|given| - 1])
  }

  lemma ScoresAreOrdered(a: Score, b: Score)
    ensures ScoreLess(a, b) <==> Beneath(a, b)
    ensures Differs(a, b) <==> Apart(a, b)
    ensures Beneath(a, b) || Beneath(b, a) || a == b
  {
  }

  lemma BeneathIsTransitive(a: Score, b: Score, c: Score)
    ensures !Beneath(b, a) && !Beneath(c, b) ==> !Beneath(c, a)
  {
  }

  lemma GreatestOfMore(s: Score, was: Option<Score>, given: seq<Score>, g: Score)
    requires if given == [] then was == Some(s) else Greatest(s, was, given)
    ensures Greatest(if Beneath(s, g) then g else s, was, given + [g])
  {
    var more := given + [g];
    assert forall x :: x in more <==> x in given || x == g;
    ScoresAreOrdered(s, g);
    forall x | x in given { BeneathIsTransitive(x, s, g); }
    if was.Some? { BeneathIsTransitive(was.value, s, g); }
  }

  lemma LeastOfMore(s: Score, was: Option<Score>, given: seq<Score>, g: Score)
    requires if given == [] then was == Some(s) else Least(s, was, given)
    ensures Least(if Beneath(g, s) then g else s, was, given + [g])
  {
    var more := given + [g];
    assert forall x :: x in more <==> x in given || x == g;
    ScoresAreOrdered(s, g);
    forall x | x in given { BeneathIsTransitive(g, s, x); }
    if was.Some? { BeneathIsTransitive(g, s, was.value); }
  }

  lemma EndsWithOneMore(was: Option<Score>, is_: Option<Score>, opts: ZAddOptions, given: seq<Score>, g: Score)
    requires EndsWith(was, is_, opts, given)
    ensures EndsWith(was, if Writes(is_, g, opts) then Some(g) else is_, opts, given + [g])
  {
    if is_.Some? {
      ScoresAreOrdered(is_.value, g);
      ScoresAreOrdered(g, is_.value);
      if opts.gt && (given == [] || Greatest(is_.value, was, given)) { GreatestOfMore(is_.value, was, given, g); }
      if opts.lt && (given == [] || Least(is_.value, was, given)) { LeastOfMore(is_.value, was, given, g); }
      assert (given + [g])[..|given|] == given;
    } else {
      assert given + [g] == [g] || given != [];
    }
  }

  // Each member ends as its own scores alone decide.
  lemma {:induction false} EachEndsWith(scores: map<bytes, Score>, opts: ZAddOptions, pairs: seq<Item>, m: bytes)
    ensures EndsWith(Lookup(scores, m), Lookup(ZAddAll(scores, opts, pairs), m), opts, Given(pairs, m))
    decreases |pairs|
  {
    if pairs != [] {
      hide EndsWith, Writes;
      var n := |pairs| - 1;
      var given := Given(pairs[..n], m);
      EachEndsWith(scores, opts, pairs[..n], m);
      if pairs[n].member == m {
        EndsWithOneMore(Lookup(scores, m), Lookup(ZAddAll(scores, opts, pairs[..n]), m), opts, given, pairs[n].score);
      } else {
        assert given + [] == given;
      }
    }
  }

  ghost function Named(pairs: seq<Item>): set<bytes> {
    set p | p in pairs :: p.member
  }

  predicate DistinctMembers(pairs: seq<Item>) {
    forall i, j :: 0 <= i < j < |pairs| ==> pairs[i].member != pairs[j].member
  }

  // New, or with a score that has changed: with GT or LT at all, else by more than rounding.
  ghost predicate Altered(was: Option<Score>, is_: Option<Score>, opts: ZAddOptions) {
    is_.Some? && (was.None? || if opts.gt || opts.lt then is_ != was else Apart(is_.value, was.value))
  }

  ghost function AlteredIn(before: map<bytes, Score>, after: map<bytes, Score>, opts: ZAddOptions, pairs: seq<Item>)
    : set<bytes>
  {
    set m | m in Named(pairs) && Altered(Lookup(before, m), Lookup(after, m), opts)
  }

  lemma {:induction false} NotGiven(pairs: seq<Item>, m: bytes)
    requires m !in Named(pairs)
    ensures Given(pairs, m) == []
    decreases |pairs|
  {
    if pairs != [] {
      var n := |pairs| - 1;
      assert pairs[n] in pairs;
      assert forall p :: p in pairs[..n] ==> p in pairs;
      NotGiven(pairs[..n], m);
    }
  }

  lemma CountedIffAltered(was: Option<Score>, score: Score, opts: ZAddOptions)
    ensures Altered(was, if Writes(was, score, opts) then Some(score) else was, opts) <==>
      Writes(was, score, opts) && (was.None? || opts.gt || opts.lt || Differs(score, was.value))
  {
    if was.Some? {
      ScoresAreOrdered(score, was.value);
      ScoresAreOrdered(was.value, score);
    }
  }

  // The last pair decides about its own member and no other.
  lemma LastPairAlters(scores: map<bytes, Score>, opts: ZAddOptions, pairs: seq<Item>)
    requires DistinctMembers(pairs) && pairs != []
    ensures var n := |pairs| - 1;
      var m, before, after := pairs[n].member, ZAddAll(scores, opts, pairs[..n]), ZAddAll(scores, opts, pairs);
      && Lookup(before, m) == Lookup(scores, m)
      && Lookup(after, m) ==
           (if Writes(Lookup(scores, m), pairs[n].score, opts) then Some(pairs[n].score) else Lookup(scores, m))
      && forall x :: x != m ==> Lookup(after, x) == Lookup(before, x)
  {
    var n := |pairs| - 1;
    var m := pairs[n].member;
    OneMoreNamed(pairs);
    NotGiven(pairs[..n], m);
    EachEndsWith(scores, opts, pairs[..n], m);
    hide Writes, Named;
  }

  lemma OneMoreAltered(scores: map<bytes, Score>, opts: ZAddOptions, pairs: seq<Item>)
    requires DistinctMembers(pairs) && pairs != []
    ensures var n := |pairs| - 1;
      var m, before, after := pairs[n].member, ZAddAll(scores, opts, pairs[..n]), ZAddAll(scores, opts, pairs);
      |AlteredIn(scores, after, opts, pairs)| == |AlteredIn(scores, before, opts, pairs[..n])| +
        if Altered(Lookup(scores, m), Lookup(after, m), opts) then 1 else 0
  {
    hide Writes, Altered, ZAddAll, Named, Lookup;
    LastPairAlters(scores, opts, pairs);
    OneMoreNamed(pairs);
    var n := |pairs| - 1;
    var m, before, after := pairs[n].member, ZAddAll(scores, opts, pairs[..n]), ZAddAll(scores, opts, pairs);
    var was, is_ := AlteredIn(scores, before, opts, pairs[..n]), AlteredIn(scores, after, opts, pairs);
    var last := Altered(Lookup(scores, m), Lookup(after, m), opts);
    forall x ensures x in is_ <==> x in was || (x == m && last) {
      assert x != m ==> Lookup(after, x) == Lookup(before, x);
    }
    OneMoreOrNot(was, is_, m, last);
  }

  lemma OneMoreOrNot(a: set<bytes>, b: set<bytes>, m: bytes, more: bool)
    requires m !in a && forall x :: x in b <==> x in a || (x == m && more)
    ensures |b| == |a| + if more then 1 else 0
  {
    assert b == if more then a + {m} else a;
  }

  // With each member named once, CH counts the members that are new or changed.
  lemma {:induction false} ChangesAreAlterations(scores: map<bytes, Score>, opts: ZAddOptions, pairs: seq<Item>)
    requires DistinctMembers(pairs)
    ensures Changes(scores, opts, pairs) == |AlteredIn(scores, ZAddAll(scores, opts, pairs), opts, pairs)|
    decreases |pairs|
  {
    if pairs == [] {
      assert AlteredIn(scores, scores, opts, pairs) == {};
    } else {
      hide Writes, Altered, ZAddAll, AlteredIn, Differs, Lookup;
      var n := |pairs| - 1;
      ChangesAreAlterations(scores, opts, pairs[..n]);
      LastPairAlters(scores, opts, pairs);
      OneMoreAltered(scores, opts, pairs);
      CountedIffAltered(Lookup(scores, pairs[n].member), pairs[n].score, opts);
    }
  }

  lemma OneMoreNamed(pairs: seq<Item>)
    requires pairs != [] && DistinctMembers(pairs)
    ensures var n := |pairs| - 1;
      Named(pairs) == Named(pairs[..n]) + {pairs[n].member} && pairs[n].member !in Named(pairs[..n])
  {
    var n := |pairs| - 1;
    assert pairs == pairs[..n] + [pairs[n]];
    forall p | p in pairs ensures p.member in Named(pairs[..n]) + {pairs[n].member} {}
    assert forall p :: p in pairs[..n] ==> p in pairs;
  }
}
