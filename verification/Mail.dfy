/**
 Posting to several mailboxes in a row, as the hubs do, while their receivers go on
 taking and dropping messages between one posting and the next.
 */
module Mail {
  import opened Delivery

  // Clones of a sender share one mailbox, named here by a number.
  type Tx = nat
  type Boxes = map<Tx, Mailbox>

  datatype Letter = Letter(to: Tx, message: Message, bytes: nat)
  datatype Sending = Sending(box: Mailbox, ok: bool)
  datatype Posting = Posting(boxes: Boxes, ok: bool)
  datatype Postings = Postings(boxes: Boxes, oks: seq<bool>)
  datatype Happening = Happening(tx: Tx, step: ReceiverStep)

  ghost predicate AllValid(boxes: Boxes) {
    forall tx :: tx in boxes ==> Valid(boxes[tx])
  }

  predicate Known(boxes: Boxes, letters: seq<Letter>) {
    forall i :: 0 <= i < |letters| ==> letters[i].to in boxes
  }

  // Whether a mailbox has room for a message now.
  ghost predicate HasRoom(b: Mailbox, bytes: nat) {
    b.open && |b.queue| < QUEUE_ITEMS && Live(b) + bytes <= QUEUE_BYTES
  }

  // A whole send: reserve, enqueue, and drop the message if it was turned away.
  function Sent(b: Mailbox, message: Message, bytes: nat): Sending {
    if !Fits(b.pending, bytes) then Sending(b.(overflowed := true), false)
    else
      var reserved := Reserved(b, Charged(message, bytes));
      var queued := Enqueued(reserved, |b.inFlight|);
      if b.open && |b.queue| < QUEUE_ITEMS then Sending(queued, true) else Sending(Released(queued, |b.held|), false)
  }

  lemma ReservesLast(b: Mailbox, c: Charged)
    requires Fits(b.pending, c.bytes)
    ensures var r := Reserved(b, c);
      && |b.inFlight| < |r.inFlight| && r.open == b.open && r.queue == b.queue
      && (!(b.open && |b.queue| < QUEUE_ITEMS) ==> |b.held| < |Enqueued(r, |b.inFlight|).held|)
  {
  }

  lemma WithoutLast(s: seq<Charged>, c: Charged)
    ensures Without(s + [c], |s|) == s
  {
  }

  lemma RoomIffFits(b: Mailbox, bytes: nat)
    requires Budgeted(b)
    ensures HasRoom(b, bytes) <==> Fits(b.pending, bytes) && b.open && |b.queue| < QUEUE_ITEMS
  {
    hide Charges;
  }

  lemma SendRefused(b: Mailbox, message: Message, bytes: nat)
    requires Valid(b) && !Fits(b.pending, bytes)
    ensures var Sending(after, ok) := Sent(b, message, bytes);
      Valid(after) && !ok && !HasRoom(b, bytes) && after == b.(overflowed := true)
  {
    hide Charges;
    RoomIffFits(b, bytes);
    hide HasRoom;
  }

  // What the mailbox looks like after a send that was accepted.
  function Taken(b: Mailbox, c: Charged): Mailbox {
    b.(pending := b.pending + c.bytes, reserved := b.reserved + [c], queue := b.queue + [c], accepted := b.accepted + [c])
  }

  lemma SendAccepted(b: Mailbox, message: Message, bytes: nat)
    requires Valid(b) && Fits(b.pending, bytes) && b.open && |b.queue| < QUEUE_ITEMS
    ensures var c, Sending(after, ok) := Charged(message, bytes), Sent(b, message, bytes);
      Valid(after) && ok && after == Taken(b, c)
  {
    hide Valid, Without, Fits;
    var c := Charged(message, bytes);
    ReservedIsValid(b, c);
    EnqueuedIsValid(Reserved(b, c), |b.inFlight|);
    WithoutLast(b.inFlight, c);
  }

  // And after one that was turned away: only the history knows.
  function TurnedAway(b: Mailbox, c: Charged): Mailbox {
    b.(pending := Dropped(b.pending + c.bytes, c.bytes), reserved := b.reserved + [c], released := b.released + [c],
       overflowed := true)
  }

  lemma SendTurnedAway(b: Mailbox, message: Message, bytes: nat)
    requires Valid(b) && Fits(b.pending, bytes) && !(b.open && |b.queue| < QUEUE_ITEMS)
    ensures var c, Sending(after, ok) := Charged(message, bytes), Sent(b, message, bytes);
      Valid(after) && !ok && after == TurnedAway(b, c)
  {
    hide Valid, Without, Fits, Dropped;
    var c := Charged(message, bytes);
    var reserved := Reserved(b, c);
    ReservedIsValid(b, c);
    EnqueuedIsValid(reserved, |b.inFlight|);
    WithoutLast(b.inFlight, c);
    ReleasedIsValid(Enqueued(reserved, |b.inFlight|), |b.held|);
    WithoutLast(b.held, c);
  }

  // A send succeeds iff there is room; otherwise it leaves nothing behind but the
  // overflow signal.
  lemma SendOutcome(b: Mailbox, message: Message, bytes: nat)
    requires Valid(b)
    ensures var c, Sending(after, ok) := Charged(message, bytes), Sent(b, message, bytes);
      && Valid(after) && (ok <==> HasRoom(b, bytes))
      && after.accepted == b.accepted + (if ok then [c] else [])
      && after.queue == b.queue + (if ok then [c] else [])
      && after.inFlight == b.inFlight && after.held == b.held && (!ok ==> after.overflowed)
  {
    hide Valid, HasRoom, Sent, Fits, Dropped;
    RoomIfValid(b, bytes);
    if !Fits(b.pending, bytes) {
      SendRefused(b, message, bytes);
    } else if b.open && |b.queue| < QUEUE_ITEMS {
      SendAccepted(b, message, bytes);
    } else {
      SendTurnedAway(b, message, bytes);
    }
  }

  lemma RoomIfValid(b: Mailbox, bytes: nat)
    requires Valid(b)
    ensures HasRoom(b, bytes) <==> Fits(b.pending, bytes) && b.open && |b.queue| < QUEUE_ITEMS
  {
    RoomIffFits(b, bytes);
  }

  function Meanwhile(boxes: Boxes, happenings: seq<Happening>): Boxes {
    if happenings == [] then boxes
    else
      var n := |happenings| - 1;
      Happened(Meanwhile(boxes, happenings[..n]), happenings[n])
  }

  // The steps of a send.
  function SendSteps(b: Mailbox, message: Message, bytes: nat): seq<Step> {
    var reserve, enqueue, release := Reserve(message, bytes), Enqueue(|b.inFlight|), Receiver(Release(|b.held|));
    if !Fits(b.pending, bytes) then [reserve]
    else if b.open && |b.queue| < QUEUE_ITEMS then [reserve] + [enqueue]
    else [reserve] + [enqueue] + [release]
  }

  // A send is a run of the protocol's steps.
  lemma SendIsARun(b: Mailbox, message: Message, bytes: nat)
    ensures Sent(b, message, bytes).box == Run(b, SendSteps(b, message, bytes))
  {
    hide Run, Dropped, Without, Fits;
    var reserve, enqueue, release := Reserve(message, bytes), Enqueue(|b.inFlight|), Receiver(Release(|b.held|));
    RunOne(b, reserve);
    RunMore(b, [reserve], enqueue);
    RunMore(b, [reserve] + [enqueue], release);
  }

  lemma RunOne(b: Mailbox, step: Step)
    ensures Run(b, [step]) == Apply(b, step)
  {
    assert [step][..0] == [];
    hide Apply;
  }

  lemma RunMore(b: Mailbox, steps: seq<Step>, last: Step)
    ensures Run(b, steps + [last]) == Apply(Run(b, steps), last)
  {
    assert (steps + [last])[..|steps|] == steps;
    hide Apply;
  }

  function Happened(boxes: Boxes, h: Happening): Boxes {
    if h.tx in boxes then boxes[h.tx := ReceiverTakes(boxes[h.tx], h.step)] else boxes
  }

  // Receivers take nothing out of the history of what was accepted.
  ghost predicate SameAccepted(boxes: Boxes, after: Boxes) {
    after.Keys == boxes.Keys && forall tx :: tx in boxes ==> after[tx].accepted == boxes[tx].accepted
  }

  lemma HappenedKeeps(boxes: Boxes, h: Happening)
    ensures SameAccepted(boxes, Happened(boxes, h)) && (AllValid(boxes) ==> AllValid(Happened(boxes, h)))
  {
    HappenedSameAccepted(boxes, h);
    hide ReceiverTakes, AllValid, SameAccepted;
    if h.tx in boxes && AllValid(boxes) { ReplacedIsValid(boxes, h.tx, h.step); }
  }

  lemma HappenedSameAccepted(boxes: Boxes, h: Happening)
    ensures SameAccepted(boxes, Happened(boxes, h))
  {
    if h.tx in boxes { AcceptedUntouched(boxes[h.tx], h.step); }
    hide ReceiverTakes;
  }

  lemma AcceptedUntouched(b: Mailbox, step: ReceiverStep)
    ensures ReceiverTakes(b, step).accepted == b.accepted
  {
  }

  lemma ReplacedIsValid(boxes: Boxes, tx: Tx, step: ReceiverStep)
    requires AllValid(boxes) && tx in boxes
    ensures AllValid(boxes[tx := ReceiverTakes(boxes[tx], step)])
  {
    ReceiverKeepsValid(boxes[tx], step);
    hide Valid, ReceiverTakes;
  }

  lemma {:induction false} MeanwhileKeeps(boxes: Boxes, happenings: seq<Happening>)
    ensures var after := Meanwhile(boxes, happenings);
      SameAccepted(boxes, after) && (AllValid(boxes) ==> AllValid(after))
  {
    hide AllValid, Happened;
    if happenings != [] {
      var n := |happenings| - 1;
      MeanwhileKeeps(boxes, happenings[..n]);
      HappenedKeeps(Meanwhile(boxes, happenings[..n]), happenings[n]);
    }
  }

  // One posting, after what others did first.
  function Posted(boxes: Boxes, letter: Letter, happenings: seq<Happening>): (r: Posting)
    requires letter.to in boxes
    ensures r.boxes.Keys == boxes.Keys
  {
    MeanwhileKeeps(boxes, happenings);
    var before := Meanwhile(boxes, happenings);
    var Sending(after, ok) := Sent(before[letter.to], letter.message, letter.bytes);
    Posting(before[letter.to := after], ok)
  }

  // Every mailbox accepted exactly what was accepted of the letters to it, in order.
  ghost predicate Accepts(before: Boxes, after: Boxes, letters: seq<Letter>, oks: seq<bool>)
    requires |oks| == |letters|
  {
    && after.Keys == before.Keys
    && forall tx :: tx in before ==> after[tx].accepted == before[tx].accepted + Addressed(letters, oks, tx)
  }

  lemma PostedIsExact(boxes: Boxes, letter: Letter, happenings: seq<Happening>)
    requires AllValid(boxes) && letter.to in boxes
    ensures var before, Posting(after, ok) := Meanwhile(boxes, happenings), Posted(boxes, letter, happenings);
      && AllValid(after) && Accepts(boxes, after, [letter], [ok])
      && letter.to in before && (ok <==> HasRoom(before[letter.to], letter.bytes))
  {
    MeanwhileKeeps(boxes, happenings);
    var before := Meanwhile(boxes, happenings);
    var Sending(box, ok) := Sent(before[letter.to], letter.message, letter.bytes);
    SendOutcome(before[letter.to], letter.message, letter.bytes);
    var after := before[letter.to := box];
    assert Posted(boxes, letter, happenings) == Posting(after, ok);
    hide Valid, Sent, Meanwhile, HasRoom, Posted;
    assert AllValid(after);
    hide AllValid, Accepts;
    OneAccepted(boxes, before, letter, box, ok);
  }

  lemma OneAccepted(boxes: Boxes, before: Boxes, letter: Letter, box: Mailbox, ok: bool)
    requires before.Keys == boxes.Keys && letter.to in boxes
    requires forall tx :: tx in boxes ==> before[tx].accepted == boxes[tx].accepted
    requires box.accepted == before[letter.to].accepted +
      (if ok then [Charged(letter.message, letter.bytes)] else [])
    ensures Accepts(boxes, before[letter.to := box], [letter], [ok])
  {
    forall tx | tx in boxes
      ensures before[letter.to := box][tx].accepted == boxes[tx].accepted + Addressed([letter], [ok], tx)
    {
      AddressedOne(letter, ok, tx);
      hide Addressed;
    }
  }

  // Posts letters one after the other; `others(from + i)` happens before the i-th.
  function Delivered(boxes: Boxes, letters: seq<Letter>, others: nat -> seq<Happening>, from: nat):
    (r: Postings)
    requires Known(boxes, letters)
    ensures r.boxes.Keys == boxes.Keys && |r.oks| == |letters|
    decreases |letters|
  {
    if letters == [] then Postings(boxes, [])
    else
      var n := |letters| - 1;
      var Postings(mid, oks) := Delivered(boxes, letters[..n], others, from);
      var Posting(after, ok) := Posted(mid, letters[n], others(from + n));
      Postings(after, oks + [ok])
  }

  // The messages of the letters to one mailbox that were accepted, in order.
  function Addressed(letters: seq<Letter>, oks: seq<bool>, tx: Tx): seq<Charged>
    requires |oks| == |letters|
  {
    if letters == [] then []
    else
      var n := |letters| - 1;
      Addressed(letters[..n], oks[..n], tx) +
      if oks[n] && letters[n].to == tx then [Charged(letters[n].message, letters[n].bytes)] else []
  }

  lemma AddressedOne(letter: Letter, ok: bool, tx: Tx)
    ensures Addressed([letter], [ok], tx) ==
      if ok && letter.to == tx then [Charged(letter.message, letter.bytes)] else []
  {
    assert Addressed([letter][..0], [ok][..0], tx) == [];
  }

  lemma AddressedMore(letters: seq<Letter>, oks: seq<bool>, ok: bool, tx: Tx)
    requires |letters| == |oks| + 1
    ensures var n := |oks|;
      Addressed(letters, oks + [ok], tx) == Addressed(letters[..n], oks, tx) + Addressed([letters[n]], [ok], tx)
  {
    AddressedOne(letters[|oks|], ok, tx);
    assert (oks + [ok])[..|oks|] == oks;
  }

  lemma AcceptsMore(boxes: Boxes, mid: Boxes, after: Boxes, letters: seq<Letter>, oks: seq<bool>, ok: bool)
    requires |letters| == |oks| + 1
    requires Accepts(boxes, mid, letters[..|oks|], oks) && Accepts(mid, after, [letters[|oks|]], [ok])
    ensures Accepts(boxes, after, letters, oks + [ok])
  {
    forall tx | tx in boxes
      ensures after[tx].accepted == boxes[tx].accepted + Addressed(letters, oks + [ok], tx)
    {
      AddressedMore(letters, oks, ok, tx);
      hide Addressed;
      var was, some := boxes[tx].accepted, Addressed(letters[..|oks|], oks, tx);
      var one := Addressed([letters[|oks|]], [ok], tx);
      assert mid[tx].accepted == was + some && after[tx].accepted == was + some + one;
      assert was + some + one == was + (some + one);
    }
  }

  // Whatever the receivers do meanwhile, each mailbox accepts exactly the letters to
  // it that the sender was told were accepted, in order, and stays within its bounds.
  lemma {:induction false} DeliveredIsExact(boxes: Boxes, letters: seq<Letter>, others: nat -> seq<Happening>, from: nat)
    requires AllValid(boxes) && Known(boxes, letters)
    ensures var Postings(after, oks) := Delivered(boxes, letters, others, from);
      AllValid(after) && Accepts(boxes, after, letters, oks)
    decreases |letters|
  {
    hide AllValid, Posted, HasRoom, Meanwhile, Accepts;
    if letters == [] {
      NothingAccepted(boxes);
    } else {
      var n := |letters| - 1;
      var Postings(mid, oks) := Delivered(boxes, letters[..n], others, from);
      DeliveredIsExact(boxes, letters[..n], others, from);
      PostedIsExact(mid, letters[n], others(from + n));
      var Posting(after, ok) := Posted(mid, letters[n], others(from + n));
      AcceptsMore(boxes, mid, after, letters, oks, ok);
    }
  }

  lemma NothingAccepted(boxes: Boxes)
    ensures Accepts(boxes, boxes, [], [])
  {
  }

  // The i-th letter is accepted iff its mailbox has room at that moment.
  lemma {:induction false} AcceptedIffRoom(boxes: Boxes, letters: seq<Letter>,
                                              others: nat -> seq<Happening>, from: nat, i: nat)
    requires AllValid(boxes) && Known(boxes, letters) && i < |letters|
    ensures var mid := Meanwhile(Delivered(boxes, letters[..i], others, from).boxes, others(from + i));
      letters[i].to in mid &&
      (Delivered(boxes, letters, others, from).oks[i] <==> HasRoom(mid[letters[i].to], letters[i].bytes))
    decreases |letters|
  {
    hide AllValid, Posted, HasRoom, Meanwhile, Accepts, Delivered;
    var n := |letters| - 1;
    if i < n {
      AcceptedIffRoom(boxes, letters[..n], others, from, i);
      DeliveredEarlier(boxes, letters, others, from, i);
      assert letters[..n][..i] == letters[..i];
    } else {
      DeliveredIsExact(boxes, letters[..n], others, from);
      PostedIsExact(Delivered(boxes, letters[..n], others, from).boxes, letters[n], others(from + n));
      DeliveredLast(boxes, letters, others, from);
    }
  }

  lemma DeliveredEarlier(boxes: Boxes, letters: seq<Letter>, others: nat -> seq<Happening>, from: nat, i: nat)
    requires Known(boxes, letters) && i + 1 < |letters|
    ensures Delivered(boxes, letters, others, from).oks[i] == Delivered(boxes, letters[..|letters| - 1], others, from).oks[i]
  {
    hide Posted;
  }

  lemma DeliveredLast(boxes: Boxes, letters: seq<Letter>, others: nat -> seq<Happening>, from: nat)
    requires Known(boxes, letters) && letters != []
    ensures var n := |letters| - 1;
      Delivered(boxes, letters, others, from).oks[n] ==
      Posted(Delivered(boxes, letters[..n], others, from).boxes, letters[n], others(from + n)).ok
  {
  }

  lemma DeliveredNext(boxes: Boxes, letters: seq<Letter>, others: nat -> seq<Happening>, from: nat, i: nat)
    requires Known(boxes, letters) && i < |letters|
    ensures var Postings(mid, oks) := Delivered(boxes, letters[..i], others, from);
      var Posting(after, ok) := Posted(mid, letters[i], others(from + i));
      Delivered(boxes, letters[..i + 1], others, from) == Postings(after, oks + [ok])
  {
    assert letters[..i + 1][..i] == letters[..i];
    hide Posted;
  }

  function Count(oks: seq<bool>): nat {
    if oks == [] then 0 else Count(oks[..|oks| - 1]) + if oks[|oks| - 1] then 1 else 0
  }

  // What a retain leaves.
  function Kept<T>(subs: seq<T>, oks: seq<bool>): seq<T>
    requires |oks| == |subs|
  {
    if subs == [] then []
    else
      var n := |subs| - 1;
      Kept(subs[..n], oks[..n]) + if oks[n] then [subs[n]] else []
  }

  lemma {:induction false} KeptIff<T>(subs: seq<T>, oks: seq<bool>, s: T)
    requires |oks| == |subs|
    ensures s in Kept(subs, oks) <==> exists p :: 0 <= p < |subs| && subs[p] == s && oks[p]
  {
    if subs != [] {
      var n := |subs| - 1;
      KeptIff(subs[..n], oks[..n], s);
      if exists p :: 0 <= p < |subs| && subs[p] == s && oks[p] {
        var p :| 0 <= p < |subs| && subs[p] == s && oks[p];
        if p < n { assert subs[..n][p] == s && oks[..n][p]; }
      }
    }
  }

  lemma {:induction false} KeptIsSome<T>(subs: seq<T>, oks: seq<bool>)
    requires |oks| == |subs|
    ensures forall s :: s in Kept(subs, oks) ==> s in subs
  {
    if subs != [] {
      var n := |subs| - 1;
      KeptIsSome(subs[..n], oks[..n]);
      assert subs == subs[..n] + [subs[n]];
    }
  }

  class Post {
    var boxes: Boxes

    constructor (boxes: Boxes)
      ensures this.boxes == boxes
    {
      this.boxes := boxes;
    }

    // Time in which only the receivers act.
    method Elapse(others: seq<Happening>)
      modifies this
      ensures boxes == Meanwhile(old(boxes), others)
      ensures SameAccepted(old(boxes), boxes) && (AllValid(old(boxes)) ==> AllValid(boxes))
    {
      MeanwhileKeeps(boxes, others);
      boxes := Meanwhile(boxes, others);
    }

    // One send: reserve room, try to enqueue, drop the message if it is turned away.
    method Send(letter: Letter, others: seq<Happening>) returns (ok: bool)
      requires letter.to in boxes
      modifies this
      ensures Posting(boxes, ok) == Posted(old(boxes), letter, others)
      ensures boxes.Keys == old(boxes).Keys && (AllValid(old(boxes)) ==> AllValid(boxes))
    {
      if AllValid(boxes) { PostedIsExact(boxes, letter, others); }
      hide AllValid, Accepts, HasRoom;
      hide Meanwhile, Reserved, Enqueued, Released, Fits, Valid, Charges;
      MeanwhileKeeps(boxes, others);
      var before := Meanwhile(boxes, others);
      var b := before[letter.to];
      if !Fits(b.pending, letter.bytes) {
        boxes := before[letter.to := b.(overflowed := true)];
        return false;
      }
      ReservesLast(b, Charged(letter.message, letter.bytes));
      var inFlight, held := |b.inFlight|, |b.held|;
      ok := b.open && |b.queue| < QUEUE_ITEMS;
      b := Reserved(b, Charged(letter.message, letter.bytes));
      b := Enqueued(b, inFlight);
      if !ok {
        b := Released(b, held);
      }
      boxes := before[letter.to := b];
    }

    // Sends some letters in a row, after `before`, and counts those accepted.
    method SendAll(letters: seq<Letter>, others: nat -> seq<Happening>, from: nat,
                   ghost start: Boxes, ghost before: seq<Letter>, ghost sent: seq<bool>)
      returns (count: nat, oks: seq<bool>)
      requires Known(start, before) && Known(start, letters) && from == |before|
      requires Postings(boxes, sent) == Delivered(start, before, others, 0)
      requires AllValid(boxes) && boxes.Keys == start.Keys
      modifies this
      ensures Known(start, before + letters) && |oks| == |letters| && count == Count(oks)
      ensures Postings(boxes, sent + oks) == Delivered(start, before + letters, others, 0)
      ensures AllValid(boxes) && boxes.Keys == start.Keys
    {
      hide AllValid, Posted, Delivered;
      count, oks := 0, [];
      ghost var all := before + letters;
      assert all[..from] == before && sent + [] == sent;
      for i := 0 to |letters|
        invariant |oks| == i && count == Count(oks) && Known(start, all)
        invariant Postings(boxes, sent + oks) == Delivered(start, all[..from + i], others, 0)
        invariant AllValid(boxes) && boxes.Keys == start.Keys
      {
        DeliveredNext(start, all, others, 0, from + i);
        assert all[from + i] == letters[i];
        var ok := Send(letters[i], others(from + i));
        CountNext(oks, ok);
        count := if ok then count + 1 else count;
        assert sent + (oks + [ok]) == sent + oks + [ok];
        oks := oks + [ok];
      }
      assert all[..|all|] == all;
    }
  }

  lemma DeliveredNothing(boxes: Boxes, others: nat -> seq<Happening>)
    ensures Delivered(boxes, [], others, 0) == Postings(boxes, [])
  {
  }

  lemma CountNext(oks: seq<bool>, ok: bool)
    ensures Count(oks + [ok]) == Count(oks) + if ok then 1 else 0
  {
    assert (oks + [ok])[..|oks|] == oks;
  }
}
