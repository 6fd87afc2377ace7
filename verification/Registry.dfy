/** Who is registered under which name: channels, watched keys and live-query patterns. */
module Registry {
  import opened Bytes
  import opened Mail

  // A connection and the sender of its mailbox.
  datatype Subscriber = Subscriber(conn: nat, tx: Tx)

  type Lists = map<bytes, seq<Subscriber>>

  function ListOf(lists: Lists, name: bytes): seq<Subscriber> {
    if name in lists then lists[name] else []
  }

  // A new list; a name nobody is left under goes.
  function WithList(lists: Lists, name: bytes, subs: seq<Subscriber>): Lists {
    if subs == [] then lists - {name} else lists[name := subs]
  }

  function Others(subs: seq<Subscriber>, conn: nat): seq<Subscriber> {
    if subs == [] then []
    else
      var n := |subs| - 1;
      Others(subs[..n], conn) + if subs[n].conn != conn then [subs[n]] else []
  }

  function Unsubscribed(lists: Lists, name: bytes, conn: nat): Lists {
    if name in lists then WithList(lists, name, Others(lists[name], conn)) else lists
  }

  function WithoutConn(lists: Lists, conn: nat): Lists {
    map name | name in lists && Others(lists[name], conn) != [] :: Others(lists[name], conn)
  }

  ghost predicate NobodyMissing(lists: Lists) {
    forall name :: name in lists ==> lists[name] != []
  }

  ghost predicate ListsHaveBoxes(lists: Lists, boxes: Boxes) {
    forall name, i :: name in lists && 0 <= i < |lists[name]| ==> lists[name][i].tx in boxes
  }

  method Retain(subs: seq<Subscriber>, conn: nat) returns (left: seq<Subscriber>)
    ensures left == Others(subs, conn)
  {
    left := [];
    for i := 0 to |subs|
      invariant left == Others(subs[..i], conn)
    {
      assert subs[..i + 1][..i] == subs[..i];
      if subs[i].conn != conn {
        left := left + [subs[i]];
      }
    }
    assert subs[..|subs|] == subs;
  }

  lemma {:induction false} OthersAreSome(subs: seq<Subscriber>, conn: nat)
    ensures forall s :: s in Others(subs, conn) <==> s in subs && s.conn != conn
  {
    if subs != [] {
      var n := |subs| - 1;
      OthersAreSome(subs[..n], conn);
      assert subs == subs[..n] + [subs[n]];
    }
  }

  // Subscribing and unsubscribing again leaves everything as it was.
  lemma UnsubscribeUndoesSubscribe(lists: Lists, name: bytes, conn: nat, tx: Tx)
    requires NobodyMissing(lists) && forall s :: s in ListOf(lists, name) ==> s.conn != conn
    ensures var subscribed := lists[name := ListOf(lists, name) + [Subscriber(conn, tx)]];
      Unsubscribed(subscribed, name, conn) == lists
  {
    var subs := ListOf(lists, name);
    var more := subs + [Subscriber(conn, tx)];
    assert more[..|subs|] == subs;
    OthersOfNone(subs, conn);
    assert Others(more, conn) == subs;
    assert lists[name := more] - {name} == lists - {name};
  }

  lemma {:induction false} OthersOfNone(subs: seq<Subscriber>, conn: nat)
    requires forall i :: 0 <= i < |subs| ==> subs[i].conn != conn
    ensures Others(subs, conn) == subs
  {
    if subs != [] {
      var n := |subs| - 1;
      OthersOfNone(subs[..n], conn);
      assert subs == subs[..n] + [subs[n]];
    }
  }

  function UnsubscribedEach(lists: Lists, names: seq<bytes>, conn: nat): Lists {
    if names == [] then lists
    else Unsubscribed(UnsubscribedEach(lists, names[..|names| - 1], conn), names[|names| - 1], conn)
  }

  // Leaving name by name, in any order and with repetitions, is leaving all at
  // once, as long as none of the connection's is forgotten.
  lemma LeavingOneByOne(lists: Lists, names: seq<bytes>, conn: nat)
    requires NobodyMissing(lists)
    requires forall c :: c in lists && (exists s :: s in lists[c] && s.conn == conn) ==> c in names
    ensures UnsubscribedEach(lists, names, conn) == WithoutConn(lists, conn)
  {
    var after, all := UnsubscribedEach(lists, names, conn), WithoutConn(lists, conn);
    EachLeaves(lists, names, conn);
    assert Others([], conn) == [];
    forall c ensures ListOf(after, c) == ListOf(all, c) && !HasEmpty(after, c) {
      assert LeftThis(lists, after, c in names, conn, c);
      if c in lists && c !in names {
        OthersOfNone(lists[c], conn);
      }
    }
    assert forall c :: c in after ==> !HasEmpty(after, c);
    SameLists(after, all);
  }

  // The connection has left the lists named, none of which is empty now, and all else
  // is as before.
  ghost predicate LeftThese(lists: Lists, after: Lists, names: seq<bytes>, conn: nat) {
    forall c :: LeftThis(lists, after, c in names, conn, c)
  }

  ghost predicate LeftThis(lists: Lists, after: Lists, named: bool, conn: nat, c: bytes) {
    if named then ListOf(after, c) == Others(ListOf(lists, c), conn) && !HasEmpty(after, c)
    else ListOf(after, c) == ListOf(lists, c) && (c in after <==> c in lists)
  }

  predicate HasEmpty(lists: Lists, name: bytes) {
    name in lists && lists[name] == []
  }

  lemma {:induction false} EachLeaves(lists: Lists, names: seq<bytes>, conn: nat)
    ensures LeftThese(lists, UnsubscribedEach(lists, names, conn), names, conn)
  {
    if names != [] {
      var n := |names| - 1;
      EachLeaves(lists, names[..n], conn);
      assert names == names[..n] + [names[n]];
      OneMoreLeaves(lists, UnsubscribedEach(lists, names[..n], conn), names[..n], names[n], conn);
    }
  }

  lemma OneMoreLeaves(lists: Lists, mid: Lists, names: seq<bytes>, last: bytes, conn: nat)
    requires LeftThese(lists, mid, names, conn)
    ensures LeftThese(lists, Unsubscribed(mid, last, conn), names + [last], conn)
  {
    var after := Unsubscribed(mid, last, conn);
    forall c ensures LeftThis(lists, after, c in names + [last], conn, c) {
      assert LeftThis(lists, mid, c in names, conn, c);
      assert c in names + [last] <==> c in names || c == last;
      ListAfterLeaving(mid, last, conn, c);
      OthersTwice(ListOf(lists, c), conn);
      hide Others, Unsubscribed, HasEmpty;
    }
  }

  lemma ListAfterLeaving(lists: Lists, last: bytes, conn: nat, c: bytes)
    ensures var after := Unsubscribed(lists, last, conn);
      && ListOf(after, c) == (if c == last then Others(ListOf(lists, c), conn) else ListOf(lists, c))
      && (c != last ==> (c in after <==> c in lists))
      && (HasEmpty(after, c) ==> c != last && HasEmpty(lists, c))
  {
    assert Others([], conn) == [];
  }

  lemma OthersTwice(subs: seq<Subscriber>, conn: nat)
    ensures Others(Others(subs, conn), conn) == Others(subs, conn)
  {
    OthersAreSome(subs, conn);
    OthersOfNone(Others(subs, conn), conn);
  }

  lemma SameLists(a: Lists, b: Lists)
    requires NobodyMissing(a) && NobodyMissing(b) && forall c :: ListOf(a, c) == ListOf(b, c)
    ensures a == b
  {
    forall c ensures c in a <==> c in b {
      assert ListOf(a, c) == ListOf(b, c);
    }
    forall c | c in a ensures a[c] == b[c] {
      assert ListOf(a, c) == ListOf(b, c);
    }
  }
}
