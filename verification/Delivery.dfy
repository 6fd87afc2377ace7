/**
 Bounded mailboxes. A connection's messages are charged, in bytes, against one budget
 from the moment a sender reserves room until the message is dropped, and wait in one
 bounded queue. Senders and the receiver take their steps in any order: a message is in
 flight between its reservation and its enqueueing, and held after it was received or
 turned away, until it is dropped.
 */
module Delivery {
  import opened Bytes
  import Resp

  const QUEUE_ITEMS: nat := 256
  const QUEUE_BYTES: nat := 8 * 1024 * 1024
  const WORD: nat := 0x1_0000_0000_0000_0000

  // What the hubs send: publications, and the new value of a watched key.
  datatype Message =
    | Published(channel: bytes, payload: bytes)
    | PatternPublished(pattern: bytes, channel: bytes, payload: bytes)
    | KeyChange(key: bytes, value: Resp.Value)

  datatype Charged = Charged(message: Message, bytes: nat)

  // `reserved`, `accepted`, `taken`, `received` and `released` are the history: what
  // got room, entered the queue, left it, reached the receiver, and was dropped.
  datatype Mailbox = Mailbox(
    pending: nat,
    inFlight: seq<Charged>,
    queue: seq<Charged>,
    held: seq<Charged>,
    open: bool,
    overflowed: bool,
    reserved: seq<Charged>,
    accepted: seq<Charged>,
    taken: seq<Charged>,
    received: seq<Charged>,
    released: seq<Charged>
  )

  // What the receiving side does; `Release` drops a held message, `Close` drops the
  // receiver, after which the queue is drained message by message.
  datatype ReceiverStep = Receive | Release(i: nat) | Close | Drain

  datatype Step = Reserve(message: Message, bytes: nat) | Enqueue(i: nat) | Receiver(step: ReceiverStep)

  function Empty(): Mailbox {
    Mailbox(0, [], [], [], true, false, [], [], [], [], [])
  }

  function Without<T>(s: seq<T>, i: nat): seq<T>
    requires i < |s|
  {
    s[..i] + s[i + 1..]
  }

  function SaturatingAdd(a: nat, b: nat): nat {
    if a + b < WORD then a + b else WORD - 1
  }

  // checked_add, then the cap.
  predicate Fits(pending: nat, bytes: nat) {
    pending + bytes < WORD && pending + bytes <= QUEUE_BYTES
  }

  function Dropped(pending: nat, bytes: nat): nat {
    (pending + (WORD - bytes % WORD)) % WORD
  }

  function Reserved(b: Mailbox, c: Charged): Mailbox {
    if Fits(b.pending, c.bytes)
    then b.(pending := b.pending + c.bytes, inFlight := b.inFlight + [c], reserved := b.reserved + [c])
    else b.(overflowed := true)
  }

  function Enqueued(b: Mailbox, i: nat): Mailbox
    requires i < |b.inFlight|
  {
    var c, left := b.inFlight[i], Without(b.inFlight, i);
    if b.open && |b.queue| < QUEUE_ITEMS
    then b.(inFlight := left, queue := b.queue + [c], accepted := b.accepted + [c])
    else b.(inFlight := left, held := b.held + [c], overflowed := true)
  }

  function Released(b: Mailbox, i: nat): Mailbox
    requires i < |b.held|
  {
    var c := b.held[i];
    b.(pending := Dropped(b.pending, c.bytes), held := Without(b.held, i), released := b.released + [c])
  }

  function ReceiverTakes(b: Mailbox, step: ReceiverStep): Mailbox {
    match step
    case Receive =>
      if !b.open || b.queue == [] then b
      else
        var c := b.queue[0];
        b.(queue := b.queue[1..], held := b.held + [c], taken := b.taken + [c], received := b.received + [c])
    case Release(i) => if i < |b.held| then Released(b, i) else b
    case Close => b.(open := false)
    case Drain =>
      if b.open || b.queue == [] then b
      else
        var c := b.queue[0];
        b.(queue := b.queue[1..], taken := b.taken + [c], released := b.released + [c],
           pending := Dropped(b.pending, c.bytes))
  }

  // A step that is not enabled changes nothing.
  function Apply(b: Mailbox, step: Step): Mailbox {
    match step
    case Reserve(m, bytes) => Reserved(b, Charged(m, bytes))
    case Enqueue(i) => if i < |b.inFlight| then Enqueued(b, i) else b
    case Receiver(r) => ReceiverTakes(b, r)
  }

  function Run(b: Mailbox, steps: seq<Step>): Mailbox {
    if steps == [] then b else Apply(Run(b, steps[..|steps| - 1]), steps[|steps| - 1])
  }

  // ── The invariant ───────────────────────────────────────────────────────────

  function Charges(s: seq<Charged>): nat {
    if s == [] then 0 else s[0].bytes + Charges(s[1..])
  }

  // Charges of all messages that exist.
  function Live(b: Mailbox): nat {
    Charges(b.inFlight) + Charges(b.queue) + Charges(b.held)
  }

  ghost predicate Valid(b: Mailbox) {
    Budgeted(b) && InOrder(b) && Accounted(b)
  }

  ghost predicate Budgeted(b: Mailbox) {
    b.pending == Live(b) <= QUEUE_BYTES
  }

  ghost predicate InOrder(b: Mailbox) {
    && |b.queue| <= QUEUE_ITEMS
    && b.accepted == b.taken + b.queue
    && b.received <= b.taken && (b.open ==> b.received == b.taken)
  }

  // Every message that got room is alive or was dropped, exactly once.
  ghost predicate Accounted(b: Mailbox) {
    multiset(b.reserved) == multiset(b.inFlight) + multiset(b.queue) + multiset(b.held) + multiset(b.released)
  }

  lemma {:induction false} BytesOfTwo(s: seq<Charged>, t: seq<Charged>)
    ensures Charges(s + t) == Charges(s) + Charges(t)
  {
    if s == [] {
      assert s + t == t;
    } else {
      BytesOfTwo(s[1..], t);
      assert (s + t)[1..] == s[1..] + t;
    }
  }

  lemma BytesOfOne(s: seq<Charged>, c: Charged)
    ensures Charges(s + [c]) == Charges(s) + c.bytes
  {
    BytesOfTwo(s, [c]);
    assert Charges([c]) == c.bytes + Charges([c][1..]);
  }

  lemma AroundOne(s: seq<Charged>, i: nat)
    requires i < |s|
    ensures s == s[..i] + [s[i]] + s[i + 1..]
  {
  }

  lemma {:induction false} TakeOutCharges(s: seq<Charged>, i: nat)
    requires i < |s|
    ensures Charges(s) == Charges(Without(s, i)) + s[i].bytes
  {
    AroundOne(s, i);
    BytesOfOne(s[..i], s[i]);
    hide Charges;
    BytesOfTwo(s[..i] + [s[i]], s[i + 1..]);
    BytesOfTwo(s[..i], s[i + 1..]);
  }

  lemma {:induction false} TakeOut(s: seq<Charged>, i: nat)
    requires i < |s|
    ensures Charges(s) == Charges(Without(s, i)) + s[i].bytes
    ensures multiset(s) == multiset(Without(s, i)) + multiset{s[i]}
  {
    TakeOutCharges(s, i);
    hide Charges;
    AroundOne(s, i);
  }

  lemma {:induction false} PopFront(s: seq<Charged>)
    requires s != []
    ensures Charges(s) == s[0].bytes + Charges(s[1..]) && multiset(s) == multiset(s[1..]) + multiset{s[0]}
  {
    assert s == [s[0]] + s[1..];
  }

  lemma ReservedIsValid(b: Mailbox, c: Charged)
    requires Valid(b)
    ensures Valid(Reserved(b, c))
  {
    BytesOfOne(b.inFlight, c);
  }

  lemma EnqueuedIsValid(b: Mailbox, i: nat)
    requires Valid(b) && i < |b.inFlight|
    ensures Valid(Enqueued(b, i))
  {
    EnqueuedIsBudgeted(b, i);
    EnqueuedIsAccounted(b, i);
    EnqueuedIsInOrder(b, i);
    hide Enqueued, Budgeted, Accounted, InOrder;
  }

  lemma EnqueuedIsInOrder(b: Mailbox, i: nat)
    requires InOrder(b) && i < |b.inFlight|
    ensures InOrder(Enqueued(b, i))
  {
    hide Without;
    var c := b.inFlight[i];
    assert (b.taken + b.queue) + [c] == b.taken + (b.queue + [c]);
  }

  lemma EnqueuedIsBudgeted(b: Mailbox, i: nat)
    requires Budgeted(b) && i < |b.inFlight|
    ensures Budgeted(Enqueued(b, i))
  {
    TakeOut(b.inFlight, i);
    BytesOfOne(b.queue, b.inFlight[i]);
    BytesOfOne(b.held, b.inFlight[i]);
    hide Without, Charges;
  }

  lemma EnqueuedIsAccounted(b: Mailbox, i: nat)
    requires Accounted(b) && i < |b.inFlight|
    ensures Accounted(Enqueued(b, i))
  {
    TakeOut(b.inFlight, i);
    hide Without, Charges;
    var c := b.inFlight[i];
    assert multiset(b.queue + [c]) == multiset(b.queue) + multiset{c};
    assert multiset(b.held + [c]) == multiset(b.held) + multiset{c};
  }

  lemma NoUnderflow(pending: nat, bytes: nat)
    requires bytes <= pending < WORD
    ensures Dropped(pending, bytes) == pending - bytes
  {
  }

  lemma ReleasedIsValid(b: Mailbox, i: nat)
    requires Valid(b) && i < |b.held|
    ensures Valid(Released(b, i))
    ensures Released(b, i).pending == b.pending - b.held[i].bytes
  {
    hide Without, Charges, Dropped, Accounted;
    TakeOutCharges(b.held, i);
    NoUnderflow(b.pending, b.held[i].bytes);
    ReleasedIsAccounted(b, i);
  }

  lemma ReleasedIsAccounted(b: Mailbox, i: nat)
    requires Accounted(b) && i < |b.held|
    ensures Accounted(Released(b, i))
  {
    hide Charges, Dropped;
    var c := b.held[i];
    TakeOut(b.held, i);
    hide Without;
    assert multiset(b.released + [c]) == multiset(b.released) + multiset{c};
  }

  // What leaves the front of the queue is the oldest accepted message.
  lemma PoppedInOrder(taken: seq<Charged>, queue: seq<Charged>)
    requires queue != []
    ensures taken + [queue[0]] + queue[1..] == taken + queue
  {
  }

  lemma ReceivedIsValid(b: Mailbox)
    requires Valid(b) && b.open && b.queue != []
    ensures Valid(ReceiverTakes(b, Receive))
  {
    var c := b.queue[0];
    var after := ReceiverTakes(b, Receive);
    PopFront(b.queue);
    BytesOfOne(b.held, c);
    PoppedInOrder(b.taken, b.queue);
    hide Charges;
    assert Budgeted(after) && InOrder(after);
    assert multiset(b.held + [c]) == multiset(b.held) + multiset{c};
  }

  lemma DrainedIsValid(b: Mailbox)
    requires Valid(b) && !b.open && b.queue != []
    ensures Valid(ReceiverTakes(b, Drain))
  {
    var c := b.queue[0];
    var after := ReceiverTakes(b, Drain);
    PopFront(b.queue);
    NoUnderflow(b.pending, c.bytes);
    PoppedInOrder(b.taken, b.queue);
    hide Charges;
    assert Budgeted(after) && InOrder(after);
    assert multiset(b.released + [c]) == multiset(b.released) + multiset{c};
  }

  lemma ReceiverKeepsValid(b: Mailbox, step: ReceiverStep)
    requires Valid(b)
    ensures Valid(ReceiverTakes(b, step))
  {
    match step {
      case Receive => if b.open && b.queue != [] { ReceivedIsValid(b); }
      case Release(i) => if i < |b.held| { ReleasedIsValid(b, i); }
      case Close =>
      case Drain => if !b.open && b.queue != [] { DrainedIsValid(b); }
    }
  }

  lemma {:induction false} StepKeepsValid(b: Mailbox, step: Step)
    requires Valid(b)
    ensures Valid(Apply(b, step))
  {
    hide Valid;
    match step {
      case Reserve(m, bytes) => ReservedIsValid(b, Charged(m, bytes));
      case Enqueue(i) => if i < |b.inFlight| { EnqueuedIsValid(b, i); }
      case Receiver(r) => ReceiverKeepsValid(b, r);
    }
  }

  // ── Every run ───────────────────────────────────────────────────────────────

  // Whatever senders and receiver do in whatever order: the counter is the sum of the
  // charges of the live messages and within the budget, the queue within its size, and
  // messages leave the queue in the order they entered it.
  lemma {:induction false} EveryRunIsValid(steps: seq<Step>)
    ensures Valid(Run(Empty(), steps))
  {
    var n := |steps|;
    if n > 0 {
      EveryRunIsValid(steps[..n - 1]);
      StepKeepsValid(Run(Empty(), steps[..n - 1]), steps[n - 1]);
    }
  }

  // A reservation is refused iff the live messages leave no room for it.
  lemma RefusedIffFull(steps: seq<Step>, message: Message, bytes: nat)
    ensures var b := Run(Empty(), steps);
      var after := Apply(b, Reserve(message, bytes));
      if Live(b) + bytes > QUEUE_BYTES then after == b.(overflowed := true)
      else Live(after) == Live(b) + bytes && after.inFlight == b.inFlight + [Charged(message, bytes)]
  {
    EveryRunIsValid(steps);
    BytesOfOne(Run(Empty(), steps).inFlight, Charged(message, bytes));
  }

  // No charge leaks: once every message is gone the whole budget is free again.
  lemma {:induction false} IdleMeansFree(steps: seq<Step>)
    ensures var b := Run(Empty(), steps);
      b.inFlight == [] && b.queue == [] && b.held == [] ==>
        b.pending == 0 && multiset(b.released) == multiset(b.reserved)
  {
    EveryRunIsValid(steps);
  }

  lemma {:induction false} ChargesCount(s: seq<Charged>, overhead: nat)
    requires forall i :: 0 <= i < |s| ==> s[i].bytes >= overhead
    ensures overhead * |s| <= Charges(s)
  {
    if s != [] {
      ChargesCount(s[1..], overhead);
      assert overhead * |s| == overhead + overhead * (|s| - 1);
    }
  }

  // A per-message overhead bounds how many messages can exist at a time.
  lemma LiveMessagesAreFew(steps: seq<Step>, overhead: nat)
    requires overhead > 0
    requires forall s :: s in steps && s.Reserve? ==> s.bytes >= overhead
    ensures var b := Run(Empty(), steps);
      overhead * (|b.inFlight| + |b.queue| + |b.held|) <= QUEUE_BYTES
  {
    hide Run, Charges, Accounted, InOrder, Budgeted;
    var b := Run(Empty(), steps);
    EveryRunIsValid(steps);
    ReservationsAreCharged(steps, overhead);
    ChargedEach(b, overhead);
    FewWithin(b, overhead);
  }

  lemma ChargedEach(b: Mailbox, overhead: nat)
    requires Accounted(b) && forall c :: c in b.reserved ==> c.bytes >= overhead
    ensures forall i :: 0 <= i < |b.inFlight| ==> b.inFlight[i].bytes >= overhead
    ensures forall i :: 0 <= i < |b.queue| ==> b.queue[i].bytes >= overhead
    ensures forall i :: 0 <= i < |b.held| ==> b.held[i].bytes >= overhead
  {
    LiveWereReserved(b);
    hide Accounted;
  }

  lemma FewWithin(b: Mailbox, overhead: nat)
    requires Budgeted(b)
    requires forall i :: 0 <= i < |b.inFlight| ==> b.inFlight[i].bytes >= overhead
    requires forall i :: 0 <= i < |b.queue| ==> b.queue[i].bytes >= overhead
    requires forall i :: 0 <= i < |b.held| ==> b.held[i].bytes >= overhead
    ensures overhead * (|b.inFlight| + |b.queue| + |b.held|) <= QUEUE_BYTES
  {
    hide Charges;
    ChargesCount(b.inFlight, overhead);
    ChargesCount(b.queue, overhead);
    ChargesCount(b.held, overhead);
    ThreeProducts(overhead, |b.inFlight|, |b.queue|, |b.held|);
  }

  lemma ThreeProducts(o: nat, x: nat, y: nat, z: nat)
    ensures o * (x + y + z) == o * x + o * y + o * z
  {
  }

  lemma LiveWereReserved(b: Mailbox)
    requires Accounted(b)
    ensures forall i :: 0 <= i < |b.inFlight| ==> b.inFlight[i] in b.reserved
    ensures forall i :: 0 <= i < |b.queue| ==> b.queue[i] in b.reserved
    ensures forall i :: 0 <= i < |b.held| ==> b.held[i] in b.reserved
  {
    forall c | c in b.inFlight || c in b.queue || c in b.held ensures c in b.reserved {
      assert c in multiset(b.reserved);
    }
  }

  lemma {:induction false} ReservationsAreCharged(steps: seq<Step>, overhead: nat)
    requires forall s :: s in steps && s.Reserve? ==> s.bytes >= overhead
    ensures forall c :: c in Run(Empty(), steps).reserved ==> c.bytes >= overhead
  {
    var n := |steps|;
    if n > 0 {
      ReservationsAreCharged(steps[..n - 1], overhead);
      assert steps[n - 1] in steps;
    }
  }

  // A later state of the same mailbox: the histories only grow, and a closed mailbox
  // takes in and hands out nothing more.
  ghost predicate Follows(b: Mailbox, after: Mailbox) {
    && b.accepted <= after.accepted && b.taken <= after.taken && b.received <= after.received
    && b.reserved <= after.reserved && b.released <= after.released
    && (!b.open ==> !after.open && after.accepted == b.accepted && after.received == b.received)
  }

  lemma ReceiverStepFollows(b: Mailbox, step: ReceiverStep)
    ensures Follows(b, ReceiverTakes(b, step))
  {
    hide Without, Dropped;
  }

  lemma StepFollows(b: Mailbox, step: Step)
    ensures Follows(b, Apply(b, step))
  {
    hide Without, Dropped, Fits, ReceiverTakes;
    if step.Receiver? { ReceiverStepFollows(b, step.step); }
  }

  lemma FollowsTwice(a: Mailbox, b: Mailbox, c: Mailbox)
    requires Follows(a, b) && Follows(b, c)
    ensures Follows(a, c)
  {
  }

  lemma {:induction false} HistoryGrows(b: Mailbox, steps: seq<Step>)
    ensures Follows(b, Run(b, steps))
  {
    hide Follows, Apply;
    var n := |steps|;
    if n == 0 {
      FollowsItself(b);
    } else {
      HistoryGrows(b, steps[..n - 1]);
      StepFollows(Run(b, steps[..n - 1]), steps[n - 1]);
      FollowsTwice(b, Run(b, steps[..n - 1]), Run(b, steps));
    }
  }

  lemma FollowsItself(b: Mailbox)
    ensures Follows(b, b)
  {
  }
}
