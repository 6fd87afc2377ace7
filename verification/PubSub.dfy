/** The publish/subscribe hub: who is subscribed to what, and who gets a publication. */
module PubSub {
  import opened Bytes
  import opened Delivery
  import opened Mail
  import opened Registry
  import Glob

  datatype PatternSub = PatternSub(pattern: bytes, conn: nat, tx: Tx)

  // What a message costs, in the fixed-width arithmetic of the byte budget.
  function MessageBytes(m: Message): nat
    requires !m.KeyChange?
  {
    match m
    case Published(channel, payload) => SaturatingAdd(|channel|, |payload|)
    case PatternPublished(pattern, channel, payload) =>
      SaturatingAdd(SaturatingAdd(|pattern|, |channel|), |payload|)
  }

  function ToChannel(sub: Subscriber, channel: bytes, payload: bytes, overhead: nat): Letter {
    var m := Published(channel, payload);
    Letter(sub.tx, m, SaturatingAdd(MessageBytes(m), overhead))
  }

  function ToPattern(sub: PatternSub, channel: bytes, payload: bytes, overhead: nat): Letter {
    var m := PatternPublished(sub.pattern, channel, payload);
    Letter(sub.tx, m, SaturatingAdd(MessageBytes(m), overhead))
  }

  function ChannelLetters(subs: seq<Subscriber>, channel: bytes, payload: bytes, overhead: nat): (letters: seq<Letter>)
    ensures |letters| == |subs|
  {
    seq(|subs|, i requires 0 <= i < |subs| => ToChannel(subs[i], channel, payload, overhead))
  }

  // The pattern subscriptions a channel matches, in order.
  ghost function Matching(subs: seq<PatternSub>, channel: bytes): seq<PatternSub> {
    if subs == [] then []
    else
      var n := |subs| - 1;
      Matching(subs[..n], channel) + if Glob.ShadowedMatches(subs[n].pattern, channel) then [subs[n]] else []
  }

  function PatternLetters(subs: seq<PatternSub>, channel: bytes, payload: bytes, overhead: nat): (letters: seq<Letter>)
    ensures |letters| == |subs|
  {
    seq(|subs|, i requires 0 <= i < |subs| => ToPattern(subs[i], channel, payload, overhead))
  }

  // All letters of one publication, in the order they are posted.
  ghost function Letters(channels: Lists, patterns: seq<PatternSub>, channel: bytes, payload: bytes,
                         overhead: nat): seq<Letter>
  {
    ChannelLetters(ListOf(channels, channel), channel, payload, overhead) +
    PatternLetters(Matching(patterns, channel), channel, payload, overhead)
  }

  function OtherPatterns(subs: seq<PatternSub>, conn: nat, pattern: Option<bytes>): seq<PatternSub> {
    if subs == [] then []
    else
      var n := |subs| - 1;
      var goes := subs[n].conn == conn && (pattern == None || pattern == Some(subs[n].pattern));
      OtherPatterns(subs[..n], conn, pattern) + if !goes then [subs[n]] else []
  }

  function StillOpen(subs: seq<PatternSub>, boxes: Boxes): seq<PatternSub>
    requires forall i :: 0 <= i < |subs| ==> subs[i].tx in boxes
  {
    if subs == [] then []
    else
      var n := |subs| - 1;
      StillOpen(subs[..n], boxes) + if boxes[subs[n].tx].open then [subs[n]] else []
  }

  ghost predicate HasBoxes(channels: Lists, patterns: seq<PatternSub>, boxes: Boxes) {
    && ListsHaveBoxes(channels, boxes)
    && forall i :: 0 <= i < |patterns| ==> patterns[i].tx in boxes
  }

  class PubSubHub {
    var channelSubs: Lists
    var patternSubs: seq<PatternSub>
    const post: Post
    const overhead: nat

    // No channel has an empty list, and every sender has a mailbox within its bounds.
    ghost predicate Valid()
      reads this, post
    {
      NobodyMissing(channelSubs) && HasBoxes(channelSubs, patternSubs, post.boxes) && AllValid(post.boxes)
    }

    constructor (post: Post, overhead: nat)
      requires AllValid(post.boxes)
      ensures Valid() && channelSubs == map[] && patternSubs == []
      ensures this.post == post && this.overhead == overhead
    {
      channelSubs, patternSubs := map[], [];
      this.post, this.overhead := post, overhead;
    }

    method Subscribe(conn: nat, channel: bytes, tx: Tx)
      requires Valid() && tx in post.boxes
      modifies this
      ensures Valid() && patternSubs == old(patternSubs)
      ensures channelSubs == old(channelSubs)[channel :=
        ListOf(old(channelSubs), channel) + [Subscriber(conn, tx)]]
    {
      hide AllValid;
      channelSubs := channelSubs[channel := ListOf(channelSubs, channel) + [Subscriber(conn, tx)]];
    }

    method PSubscribe(conn: nat, pattern: bytes, tx: Tx)
      requires Valid() && tx in post.boxes
      modifies this
      ensures Valid() && channelSubs == old(channelSubs)
      ensures patternSubs == old(patternSubs) + [PatternSub(pattern, conn, tx)]
    {
      hide AllValid;
      patternSubs := patternSubs + [PatternSub(pattern, conn, tx)];
    }

    method RetainPatterns(conn: nat, pattern: Option<bytes>)
      modifies this`patternSubs
      ensures patternSubs == OtherPatterns(old(patternSubs), conn, pattern)
    {
      var subs, left := patternSubs, [];
      for i := 0 to |subs|
        invariant left == OtherPatterns(subs[..i], conn, pattern)
      {
        assert subs[..i + 1][..i] == subs[..i];
        var sub := subs[i];
        if !(sub.conn == conn && (pattern == None || pattern == Some(sub.pattern))) {
          left := left + [sub];
        }
      }
      assert subs[..|subs|] == subs;
      patternSubs := left;
    }

    method Unsubscribe(conn: nat, channel: bytes)
      requires Valid()
      modifies this
      ensures Valid() && patternSubs == old(patternSubs)
      ensures channelSubs == Unsubscribed(old(channelSubs), channel, conn)
    {
      hide AllValid;
      if channel in channelSubs {
        var left := Retain(channelSubs[channel], conn);
        OthersAreSome(channelSubs[channel], conn);
        channelSubs := if left == [] then channelSubs - {channel} else channelSubs[channel := left];
      }
    }

    method PUnsubscribe(conn: nat, pattern: bytes)
      requires Valid()
      modifies this
      ensures Valid() && channelSubs == old(channelSubs)
      ensures patternSubs == OtherPatterns(old(patternSubs), conn, Some(pattern))
    {
      hide AllValid;
      OtherPatternsAreSome(patternSubs, conn, Some(pattern));
      RetainPatterns(conn, Some(pattern));
    }

    // The channels are visited in any order.
    method RetainAll(conn: nat)
      modifies this`channelSubs
      ensures channelSubs == WithoutConn(old(channelSubs), conn)
    {
      ghost var was := channelSubs;
      var todo := channelSubs.Keys;
      while todo != {}
        invariant todo <= channelSubs.Keys
        invariant forall c :: c in todo ==> c in was && channelSubs[c] == was[c]
        invariant forall c :: c !in todo ==> (c in channelSubs <==> c in WithoutConn(was, conn))
        invariant forall c :: c !in todo && c in channelSubs ==> channelSubs[c] == Others(was[c], conn)
        decreases todo
      {
        var channel :| channel in todo;
        var left := Retain(channelSubs[channel], conn);
        channelSubs := if left == [] then channelSubs - {channel} else channelSubs[channel := left];
        todo := todo - {channel};
      }
      assert channelSubs == WithoutConn(was, conn);
    }

    method UnsubscribeAll(conn: nat)
      requires Valid()
      modifies this
      ensures Valid()
      ensures channelSubs == WithoutConn(old(channelSubs), conn)
      ensures patternSubs == OtherPatterns(old(patternSubs), conn, None)
    {
      WithoutConnHasBoxes(channelSubs, patternSubs, post.boxes, conn);
      OtherPatternsAreSome(patternSubs, conn, None);
      hide AllValid, WithoutConn, OtherPatterns;
      RetainAll(conn);
      RetainPatterns(conn, None);
    }

    method MatchingPatterns(channel: bytes) returns (matching: seq<PatternSub>)
      ensures matching == Matching(patternSubs, channel)
    {
      matching := [];
      for i := 0 to |patternSubs|
        invariant matching == Matching(patternSubs[..i], channel)
      {
        assert patternSubs[..i + 1][..i] == patternSubs[..i];
        var matched, _ := Glob.GlobMatch(patternSubs[i].pattern, channel);
        if matched {
          matching := matching + [patternSubs[i]];
        }
      }
      assert patternSubs[..|patternSubs|] == patternSubs;
    }

    method RetainOpen()
      requires HasBoxes(channelSubs, patternSubs, post.boxes)
      modifies this`patternSubs
      ensures HasBoxes(channelSubs, old(patternSubs), post.boxes)
      ensures patternSubs == StillOpen(old(patternSubs), post.boxes)
      ensures HasBoxes(channelSubs, patternSubs, post.boxes)
    {
      var subs, left := patternSubs, [];
      for i := 0 to |subs|
        invariant left == StillOpen(subs[..i], post.boxes)
        invariant forall j :: 0 <= j < |left| ==> left[j].tx in post.boxes
      {
        assert subs[..i + 1][..i] == subs[..i];
        if post.boxes[subs[i].tx].open {
          left := left + [subs[i]];
        }
      }
      assert subs[..|subs|] == subs;
      patternSubs := left;
    }

    // Posts to the channel's subscribers and keeps those that accepted, then to the
    // matching patterns; drops the patterns whose receiver is gone; counts deliveries.
    method Publish(channel: bytes, payload: bytes, others: nat -> seq<Happening>)
      returns (count: nat, ghost oks: seq<bool>)
      requires Valid()
      modifies this, post
      ensures Valid()
      ensures var letters := Letters(old(channelSubs), old(patternSubs), channel, payload, overhead);
        && Known(old(post.boxes), letters) && |oks| == |letters| && count == Count(oks)
        && oks == Delivered(old(post.boxes), letters, others, 0).oks
        && post.boxes == Meanwhile(Delivered(old(post.boxes), letters, others, 0).boxes, others(|letters|))
      ensures var subs := ListOf(old(channelSubs), channel);
        channelSubs == if channel in old(channelSubs)
                       then WithList(old(channelSubs), channel, Kept(subs, oks[..|subs|]))
                       else old(channelSubs)
      ensures HasBoxes(old(channelSubs), old(patternSubs), post.boxes)
      ensures patternSubs == StillOpen(old(patternSubs), post.boxes)
    {
      hide AllValid, Delivered, Meanwhile, Kept, Count, HasBoxes, StillOpen, ChannelLetters, PatternLetters, Known;
      hide Matching, WithList;
      var subs := ListOf(channelSubs, channel);
      var first := ChannelLetters(subs, channel, payload, overhead);
      LettersAreKnown(channelSubs, patternSubs, post.boxes, channel, payload, overhead);
      ghost var was := post.boxes;
      DeliveredNothing(was, others);
      NothingUnknown(was);
      var toChannel, kept := post.SendAll(first, others, 0, was, [], []);
      assert [] + first == first && [] + kept == kept;
      if channel in channelSubs {
        ListHasBoxes(channelSubs, patternSubs, was, channel, kept);
        channelSubs := WithList(channelSubs, channel, Kept(subs, kept));
      }
      var matching := MatchingPatterns(channel);
      var second := PatternLetters(matching, channel, payload, overhead);
      var toPatterns, more := post.SendAll(second, others, |first|, was, first, kept);
      CountTogether(kept, more);
      count, oks := toChannel + toPatterns, kept + more;
      assert oks[..|kept|] == kept;
      HasSameBoxes(channelSubs, patternSubs, was, post.boxes);
      HasSameBoxes(old(channelSubs), patternSubs, was, post.boxes);
      post.Elapse(others(|first| + |second|));
      HasSameBoxes(channelSubs, patternSubs, was, post.boxes);
      HasSameBoxes(old(channelSubs), patternSubs, was, post.boxes);
      RetainOpen();
    }
  }

  lemma HasSameBoxes(channels: Lists, patterns: seq<PatternSub>, before: Boxes, after: Boxes)
    requires after.Keys == before.Keys
    ensures HasBoxes(channels, patterns, before) == HasBoxes(channels, patterns, after)
  {
  }

  lemma ListHasBoxes(channels: Lists, patterns: seq<PatternSub>, boxes: Boxes, channel: bytes, oks: seq<bool>)
    requires HasBoxes(channels, patterns, boxes) && NobodyMissing(channels)
    requires channel in channels && |oks| == |channels[channel]|
    ensures var after := WithList(channels, channel, Kept(channels[channel], oks));
      HasBoxes(after, patterns, boxes) && NobodyMissing(after)
  {
    KeptIsSome(channels[channel], oks);
    assert forall s :: s in channels[channel] ==> s.tx in boxes;
  }

  lemma {:induction false} MatchingIsSome(subs: seq<PatternSub>, channel: bytes)
    ensures forall s :: s in Matching(subs, channel) <==> s in subs && Glob.ShadowedMatches(s.pattern, channel)
  {
    if subs != [] {
      var n := |subs| - 1;
      MatchingIsSome(subs[..n], channel);
      assert subs == subs[..n] + [subs[n]];
      hide Glob.ShadowedMatches;
    }
  }

  lemma NothingUnknown(boxes: Boxes)
    ensures Known(boxes, [])
  {
  }

  lemma LettersAreKnown(channels: Lists, patterns: seq<PatternSub>, boxes: Boxes, channel: bytes, payload: bytes,
                        overhead: nat)
    requires HasBoxes(channels, patterns, boxes)
    ensures Known(boxes, ChannelLetters(ListOf(channels, channel), channel, payload, overhead))
    ensures Known(boxes, PatternLetters(Matching(patterns, channel), channel, payload, overhead))
  {
    MatchingIsSome(patterns, channel);
    assert forall s :: s in patterns ==> s.tx in boxes;
  }

  lemma {:induction false} CountTogether(some: seq<bool>, more: seq<bool>)
    ensures Count(some + more) == Count(some) + Count(more)
    decreases |more|
  {
    if more == [] {
      assert some + more == some;
    } else {
      var n := |more| - 1;
      CountTogether(some, more[..n]);
      assert (some + more)[..|some| + n] == some + more[..n];
    }
  }

  lemma {:induction false} OtherPatternsAreSome(subs: seq<PatternSub>, conn: nat, pattern: Option<bytes>)
    ensures forall s :: s in OtherPatterns(subs, conn, pattern) <==>
      s in subs && !(s.conn == conn && (pattern == None || pattern == Some(s.pattern)))
  {
    if subs != [] {
      var n := |subs| - 1;
      OtherPatternsAreSome(subs[..n], conn, pattern);
      assert subs == subs[..n] + [subs[n]];
    }
  }

  lemma WithoutConnHasBoxes(channels: Lists, patterns: seq<PatternSub>, boxes: Boxes, conn: nat)
    requires HasBoxes(channels, patterns, boxes)
    ensures HasBoxes(WithoutConn(channels, conn), patterns, boxes) && NobodyMissing(WithoutConn(channels, conn))
  {
    forall c | c in WithoutConn(channels, conn)
      ensures forall i :: 0 <= i < |WithoutConn(channels, conn)[c]| ==> WithoutConn(channels, conn)[c][i].tx in boxes
    {
      OthersAreSome(channels[c], conn);
      assert forall s :: s in channels[c] ==> s.tx in boxes;
    }
  }

  // ── What a publication does ─────────────────────────────────────────────────

  // A mailbox gets one copy for each of its registrations on the channel and on a
  // matching pattern that had room, in that order, and nothing else; nothing already
  // accepted is lost; and that is what the returned count counts.
  lemma PublicationIsExact(channels: Lists, patterns: seq<PatternSub>, boxes: Boxes, channel: bytes,
                           payload: bytes, overhead: nat, others: nat -> seq<Happening>)
    requires HasBoxes(channels, patterns, boxes) && AllValid(boxes)
    ensures var letters := Letters(channels, patterns, channel, payload, overhead);
      && Known(boxes, letters)
      && var Postings(posted, oks) := Delivered(boxes, letters, others, 0);
         && Accepts(boxes, Meanwhile(posted, others(|letters|)), letters, oks)
         && AllValid(Meanwhile(posted, others(|letters|)))
  {
    hide AllValid, HasBoxes, Meanwhile, Delivered, Accepts;
    var letters := Letters(channels, patterns, channel, payload, overhead);
    LettersAreKnown(channels, patterns, boxes, channel, payload, overhead);
    DeliveredIsExact(boxes, letters, others, 0);
    var Postings(posted, oks) := Delivered(boxes, letters, others, 0);
    MeanwhileKeeps(posted, others(|letters|));
    AcceptsAfter(boxes, posted, Meanwhile(posted, others(|letters|)), letters, oks);
  }

  lemma AcceptsAfter(boxes: Boxes, posted: Boxes, after: Boxes, letters: seq<Letter>, oks: seq<bool>)
    requires |oks| == |letters| && Accepts(boxes, posted, letters, oks) && SameAccepted(posted, after)
    ensures Accepts(boxes, after, letters, oks)
  {
    hide Addressed;
  }

  // Who is not subscribed, by name or by a pattern that matches, gets nothing.
  lemma {:induction false} OthersGetNothing(letters: seq<Letter>, oks: seq<bool>, tx: Tx)
    requires |oks| == |letters| && forall i :: 0 <= i < |letters| ==> letters[i].to != tx
    ensures Addressed(letters, oks, tx) == []
  {
    if letters != [] {
      OthersGetNothing(letters[..|letters| - 1], oks[..|letters| - 1], tx);
    }
  }

  // A sum in the width of the byte budget.
  function Capped(n: nat): nat { if n >= 0x1_0000_0000_0000_0000 then 0xFFFF_FFFF_FFFF_FFFF else n }

  // The letters of a publication: to each subscriber of the channel one with channel and
  // payload, to each subscriber of a pattern that matches one that names the pattern too,
  // each charged for its bytes and the fixed overhead; and no others.
  lemma LettersGoToSubscribers(channels: Lists, patterns: seq<PatternSub>, channel: bytes, payload: bytes,
                               overhead: nat, l: Letter)
    ensures l in Letters(channels, patterns, channel, payload, overhead) <==>
      || (exists s :: s in ListOf(channels, channel) &&
            l == Letter(s.tx, Published(channel, payload), Capped(|channel| + |payload| + overhead)))
      || (exists s :: s in patterns && Glob.ShadowedMatches(s.pattern, channel) &&
            l == Letter(s.tx, PatternPublished(s.pattern, channel, payload),
                        Capped(|s.pattern| + |channel| + |payload| + overhead)))
  {
    MatchingIsSome(patterns, channel);
    hide Glob.ShadowedMatches, ListOf, Matching, ChannelLetters, PatternLetters;
    ChannelLettersAre(ListOf(channels, channel), channel, payload, overhead, l);
    PatternLettersAre(Matching(patterns, channel), channel, payload, overhead, l);
  }

  lemma ChannelLettersAre(subs: seq<Subscriber>, channel: bytes, payload: bytes, overhead: nat, l: Letter)
    ensures l in ChannelLetters(subs, channel, payload, overhead) <==>
      exists s :: s in subs && l == Letter(s.tx, Published(channel, payload), Capped(|channel| + |payload| + overhead))
  {
    var letters := ChannelLetters(subs, channel, payload, overhead);
    forall i | 0 <= i < |subs|
      ensures letters[i] == Letter(subs[i].tx, Published(channel, payload), Capped(|channel| + |payload| + overhead))
    {
    }
    hide ChannelLetters, Capped;
    if s :| s in subs && l == Letter(s.tx, Published(channel, payload), Capped(|channel| + |payload| + overhead)) {
      var i :| 0 <= i < |subs| && subs[i] == s;
      assert letters[i] == l;
    }
  }

  lemma PatternLettersAre(subs: seq<PatternSub>, channel: bytes, payload: bytes, overhead: nat, l: Letter)
    ensures l in PatternLetters(subs, channel, payload, overhead) <==>
      exists s :: s in subs && l == Letter(s.tx, PatternPublished(s.pattern, channel, payload),
                                           Capped(|s.pattern| + |channel| + |payload| + overhead))
  {
    var letters := PatternLetters(subs, channel, payload, overhead);
    forall i | 0 <= i < |subs|
      ensures letters[i] == Letter(subs[i].tx, PatternPublished(subs[i].pattern, channel, payload),
                                   Capped(|subs[i].pattern| + |channel| + |payload| + overhead))
    {
    }
    hide PatternLetters, Capped;
    if s :| s in subs && l == Letter(s.tx, PatternPublished(s.pattern, channel, payload),
                                     Capped(|s.pattern| + |channel| + |payload| + overhead)) {
      var i :| 0 <= i < |subs| && subs[i] == s;
      assert letters[i] == l;
    }
  }
}
