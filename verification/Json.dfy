/**
 JSON documents: merge patch (JMERGE) and paths (JSET, JGET).

 Objects are maps, so nothing here depends on the order of fields. Numbers are left
 abstract; the operations only move them around.
 */
module Json {
  import opened Bytes
  import Order

  datatype Json =
    | Null
    | Bool(b: bool)
    | Number(n: int)
    | String(s: bytes)
    | Array(items: seq<Json>)
    | Object(fields: map<bytes, Json>)

  // ── Merge patch, RFC 7386 ───────────────────────────────────────────────────

  function FieldsOf(j: Json): map<bytes, Json> {
    if j.Object? then j.fields else map[]
  }

  function Member(fields: map<bytes, Json>, k: bytes): Json {
    if k in fields then fields[k] else Null
  }

  // MergePatch of section 2: nulls remove, objects merge, anything else replaces.
  function MergePatch(target: Json, patch: Json): Json
    decreases patch
  {
    if patch.Object? then
      var base := FieldsOf(target);
      Object(map k | k in base.Keys + patch.fields.Keys && !(k in patch.fields && patch.fields[k] == Null) ::
        if k in patch.fields then MergePatch(Member(base, k), patch.fields[k]) else base[k])
    else patch
  }

  lemma {:induction false} MergePatchIdempotent(target: Json, patch: Json)
    ensures MergePatch(MergePatch(target, patch), patch) == MergePatch(target, patch)
    decreases patch
  {
    if patch.Object? {
      var once := MergePatch(target, patch);
      forall k | k in once.fields && k in patch.fields
        ensures MergePatch(once.fields[k], patch.fields[k]) == once.fields[k]
      {
        MergePatchIdempotent(Member(FieldsOf(target), k), patch.fields[k]);
      }
      assert MergePatch(once, patch).fields == once.fields;
    }
  }

  predicate SameAt(a: map<bytes, Json>, b: map<bytes, Json>, k: bytes) {
    (k in a <==> k in b) && (k in a ==> a[k] == b[k])
  }

  // What one pass over the patch has to leave behind, field by field.
  lemma PatchedField(target: Json, patch: Json, k: bytes)
    requires patch.Object?
    ensures var base, goal := FieldsOf(target), MergePatch(target, patch);
      && goal.Object?
      && if k !in patch.fields then
           SameAt(goal.fields, base, k)
         else if patch.fields[k] == Null then k !in goal.fields
         else k in goal.fields && goal.fields[k] == MergePatch(Member(base, k), patch.fields[k])
  {
  }

  // Half-way through the pass: done fields as in the goal, all others untouched.
  ghost predicate Merging(fields: map<bytes, Json>, base: map<bytes, Json>, goal: map<bytes, Json>,
                          done: set<bytes>)
  {
    forall k :: SameAt(fields, if k in done then goal else base, k)
  }

  lemma MergeOneMore(fields: map<bytes, Json>, next: map<bytes, Json>, base: map<bytes, Json>,
                     goal: map<bytes, Json>, done: set<bytes>, f: bytes)
    requires Merging(fields, base, goal, done)
    requires SameAt(next, goal, f) && forall k :: k != f ==> SameAt(next, fields, k)
    ensures Merging(next, base, goal, done + {f})
  {
    forall k ensures SameAt(next, if k in done + {f} then goal else base, k) {
      assert SameAt(fields, if k in done then goal else base, k);
      assert k != f ==> SameAt(next, fields, k);
    }
  }

  lemma MergeFinished(target: Json, patch: Json, fields: map<bytes, Json>)
    requires patch.Object?
    requires Merging(fields, FieldsOf(target), MergePatch(target, patch).fields, patch.fields.Keys)
    ensures MergePatch(target, patch) == Object(fields)
  {
    hide MergePatch;
    PatchedField(target, patch, []);
    var goal := MergePatch(target, patch);
    forall k ensures SameAt(fields, goal.fields, k) {
      PatchedField(target, patch, k);
      assert SameAt(fields, if k in patch.fields.Keys then goal.fields else FieldsOf(target), k);
    }
    assert forall k :: SameAt(fields, goal.fields, k) ==> (k in fields <==> k in goal.fields);
  }

  // One field of a patch applied to the fields merged so far.
  function AfterField(fields: map<bytes, Json>, k: bytes, v: Json): map<bytes, Json> {
    if v == Null then fields - {k} else fields[k := MergePatch(Member(fields, k), v)]
  }

  lemma MergeStep(target: Json, patch: Json, fields: map<bytes, Json>, done: set<bytes>, k: bytes)
    requires patch.Object? && k in patch.fields && k !in done
    requires Merging(fields, FieldsOf(target), MergePatch(target, patch).fields, done)
    ensures Merging(AfterField(fields, k, patch.fields[k]), FieldsOf(target),
                    MergePatch(target, patch).fields, done + {k})
  {
    PatchedField(target, patch, k);
    MergeUntouched(fields, FieldsOf(target), MergePatch(target, patch).fields, done, k);
    hide MergePatch, Merging;
    MergeOneMore(fields, AfterField(fields, k, patch.fields[k]), FieldsOf(target),
                 MergePatch(target, patch).fields, done, k);
  }

  lemma OnlyObjectsMerge(target: Json, patch: Json)
    ensures if patch.Object? then MergePatch(target, patch).Object? else MergePatch(target, patch) == patch
  {
  }

  // The in-place form: one pass over the patch in whatever order it is iterated.
  method JsonMergePatch(target: Json, patch: Json) returns (merged: Json)
    ensures merged == MergePatch(target, patch)
    decreases patch
  {
    hide MergePatch, Merging, FieldsOf, Member;
    OnlyObjectsMerge(target, patch);
    if !patch.Object? {
      return patch;
    }
    var fields := FieldsOf(target);
    var todo := patch.fields.Keys;
    ghost var done: set<bytes> := {};
    MergeBegins(fields, MergePatch(target, patch).fields);
    while todo != {}
      invariant todo <= patch.fields.Keys && done == patch.fields.Keys - todo
      invariant Merging(fields, FieldsOf(target), MergePatch(target, patch).fields, done)
      decreases |todo|
    {
      var k :| k in todo;
      var v := patch.fields[k];
      MergeStep(target, patch, fields, done, k);
      if v == Null {
        fields := fields - {k};
      } else {
        var slot := JsonMergePatch(Member(fields, k), v);
        fields := fields[k := slot];
      }
      todo, done := todo - {k}, done + {k};
    }
    assert done == patch.fields.Keys;
    MergeFinished(target, patch, fields);
    merged := Object(fields);
  }

  lemma MergeBegins(base: map<bytes, Json>, goal: map<bytes, Json>)
    ensures Merging(base, base, goal, {})
  {
  }

  lemma MergeUntouched(fields: map<bytes, Json>, base: map<bytes, Json>, goal: map<bytes, Json>,
                       done: set<bytes>, k: bytes)
    requires Merging(fields, base, goal, done) && k !in done
    ensures Member(fields, k) == Member(base, k)
  {
    assert SameAt(fields, if k in done then goal else base, k);
  }

  // ── Paths ───────────────────────────────────────────────────────────────────

  datatype Seg = Field(name: bytes) | Index(i: nat)
  datatype PathError = NotAnObject(name: bytes) | NotAnArray(i: nat) | OutOfBounds(i: nat, len: nat)
  datatype Outcome = Done | Failed(error: PathError)

  function Child(j: Json, seg: Seg): Option<Json> {
    match seg
    case Field(f) => if j.Object? && f in j.fields then Some(j.fields[f]) else None
    case Index(i) => if j.Array? && i < |j.items| then Some(j.items[i]) else None
  }

  function GetAt(j: Json, path: seq<Seg>): Option<Json> {
    if path == [] then Some(j)
    else
      match Child(j, path[0])
      case None => None
      case Some(c) => GetAt(c, path[1..])
  }

  // A failed set keeps the objects and nulls it created on the way.
  function SetAt(j: Json, path: seq<Seg>, v: Json): (Json, Outcome)
    decreases |path|
  {
    if path == [] then (v, Done)
    else
      match path[0]
      case Field(f) =>
        var obj := if j == Null then Object(map[]) else j;
        if !obj.Object? then (obj, Failed(NotAnObject(f)))
        else
          var (slot, outcome) := SetAt(Member(obj.fields, f), path[1..], v);
          (Object(obj.fields[f := slot]), outcome)
      case Index(i) =>
        if !j.Array? then (j, Failed(NotAnArray(i)))
        else if i >= |j.items| then (j, Failed(OutOfBounds(i, |j.items|)))
        else
          var (slot, outcome) := SetAt(j.items[i], path[1..], v);
          (Array(j.items[i := slot]), outcome)
  }

  // Whether the value found where a segment applies lets it through: a field wants an
  // object, or a null or nothing to turn into one; an index wants an existing slot.
  predicate LetsThrough(at: Option<Json>, seg: Seg) {
    match seg
    case Field(_) => at.None? || at.value == Null || at.value.Object?
    case Index(i) => at.Some? && at.value.Array? && i < |at.value.items|
  }

  lemma {:induction false} SetSucceedsIffPathIsOpen(j: Json, path: seq<Seg>, v: Json)
    ensures SetAt(j, path, v).1.Done? <==>
      forall n :: 0 <= n < |path| ==> LetsThrough(GetAt(j, path[..n]), path[n])
    decreases |path|
  {
    if path != [] {
      var seg, rest := path[0], path[1..];
      assert path[..0] == [];
      var c := Child(j, seg);
      forall n | 0 < n < |path|
        ensures GetAt(j, path[..n]) == if c.Some? then GetAt(c.value, rest[..n - 1]) else None
      {
        assert path[..n][1..] == rest[..n - 1];
      }
      var next := if c.Some? then c.value else Null;
      SetSucceedsIffPathIsOpen(next, rest, v);
      if c.None? {
        forall n | 0 <= n < |rest|
          ensures LetsThrough(GetAt(Null, rest[..n]), rest[n]) <==> LetsThrough(None, rest[n])
        {
          NothingBelowNull(rest[..n]);
        }
      }
      if LetsThrough(Some(j), seg) {
        assert SetAt(j, path, v).1 == SetAt(next, rest, v).1;
        assert forall n :: 0 < n < |path| ==> path[n] == rest[n - 1];
        assert forall n :: 0 <= n < |rest| ==> rest[n] == path[n + 1] && rest[..n] == rest[..(n + 1) - 1];
      } else {
        assert !LetsThrough(GetAt(j, path[..0]), path[0]);
      }
    }
  }

  // Where a path leads, one step at a time from its end: a field of the object or an item
  // of the array found before it.
  lemma {:induction false} GetOneDeeper(j: Json, path: seq<Seg>, last: Seg)
    ensures var at, found := GetAt(j, path), GetAt(j, path + [last]);
      found ==
        match last
        case Field(f) =>
          if at.Some? && at.value.Object? && f in at.value.fields then Some(at.value.fields[f]) else None
        case Index(i) =>
          if at.Some? && at.value.Array? && i < |at.value.items| then Some(at.value.items[i]) else None
    decreases |path|
  {
    var longer := path + [last];
    if path == [] {
      assert longer[1..] == [] && longer[0] == last;
    } else {
      assert longer[1..] == path[1..] + [last] && longer[0] == path[0];
      var next := Child(j, path[0]);
      if next.Some? { GetOneDeeper(next.value, path[1..], last); }
    }
  }

  // A set that fails names the first step that finds no place, and why.
  lemma {:induction false} SetFailsWhere(j: Json, path: seq<Seg>, v: Json, n: nat)
    requires n < |path| && !LetsThrough(GetAt(j, path[..n]), path[n])
    requires forall m :: 0 <= m < n ==> LetsThrough(GetAt(j, path[..m]), path[m])
    ensures var at := GetAt(j, path[..n]);
      SetAt(j, path, v).1 == Failed(
        match path[n]
        case Field(f) => NotAnObject(f)
        case Index(i) => if at.Some? && at.value.Array? then OutOfBounds(i, |at.value.items|) else NotAnArray(i))
    decreases |path|
  {
    assert path[..0] == [];
    if n > 0 {
      var seg, rest := path[0], path[1..];
      assert LetsThrough(GetAt(j, path[..0]), path[0]);
      var c := Child(j, seg);
      var next := if c.Some? then c.value else Null;
      forall m | 0 < m <= n
        ensures GetAt(j, path[..m]) == if c.Some? then GetAt(c.value, rest[..m - 1]) else None
      {
        assert path[..m][1..] == rest[..m - 1];
      }
      assert forall m :: 0 <= m < n ==> rest[m] == path[m + 1];
      forall m | 0 <= m < n
        ensures LetsThrough(GetAt(next, rest[..m]), rest[m]) <==> LetsThrough(GetAt(j, path[..m + 1]), path[m + 1])
      {
        if c.None? { NothingBelowNull(rest[..m]); }
      }
      if c.None? { NothingBelowNull(rest[..n - 1]); }
      SetFailsWhere(next, rest, v, n - 1);
      assert SetAt(j, path, v).1 == SetAt(next, rest, v).1;
    }
  }

  lemma NothingBelowNull(path: seq<Seg>)
    ensures GetAt(Null, path) == if path == [] then Some(Null) else None
  {
  }

  // Reading at the path, or anywhere below it, finds what was set.
  lemma {:induction false} GetAfterSet(j: Json, path: seq<Seg>, v: Json, below: seq<Seg>)
    requires SetAt(j, path, v).1.Done?
    ensures GetAt(SetAt(j, path, v).0, path + below) == GetAt(v, below)
    decreases |path|
  {
    if path == [] {
      assert path + below == below;
    } else {
      assert (path + below)[1..] == path[1..] + below;
      var next := Child(j, path[0]);
      GetAfterSet(if next.Some? then next.value else Null, path[1..], v, below);
    }
  }

  // The last of two sets at the same path wins.
  lemma {:induction false} SetAfterSet(j: Json, path: seq<Seg>, v: Json, w: Json)
    requires SetAt(j, path, v).1.Done?
    ensures SetAt(SetAt(j, path, v).0, path, w) == SetAt(j, path, w)
    ensures SetAt(j, path, w).1.Done?
    decreases |path|
  {
    if path != [] {
      var next := Child(j, path[0]);
      SetAfterSet(if next.Some? then next.value else Null, path[1..], v, w);
      var first, both := SetAt(j, path, v).0, SetAt(j, path, w).0;
      if path[0].Field? {
        var f := path[0].name;
        var base := FieldsOf(j);
        assert first.fields[f := both.fields[f]] == base[f := both.fields[f]];
      } else {
        var i := path[0].i;
        assert first.items[i := both.items[i]] == j.items[i := both.items[i]];
      }
    }
  }

  predicate OnlyFields(path: seq<Seg>) {
    forall n :: 0 <= n < |path| ==> path[n].Field?
  }

  // The patch has nothing to say at the path: it is an object down to a missing field.
  predicate Silent(patch: Json, path: seq<Seg>)
    requires OnlyFields(path)
  {
    path != [] && patch.Object? &&
    (path[0].name !in patch.fields || Silent(patch.fields[path[0].name], path[1..]))
  }

  // Reading a merged document: where the patch is silent the target shows through, a
  // null has removed the field, an object has been merged, anything else stands.
  lemma {:induction false} ReadMerged(target: Json, patch: Json, path: seq<Seg>)
    requires OnlyFields(path)
    ensures var merged, said, was := MergePatch(target, patch), GetAt(patch, path), GetAt(target, path);
      GetAt(merged, path) ==
        if Silent(patch, path) then was
        else if said.None? || (said.value == Null && path != []) then None
        else if !said.value.Object? then said
        else Some(MergePatch(if was.Some? then was.value else Null, said.value))
    ensures patch.Object? ==> MergePatch(target, patch).Object?
    decreases |path|
  {
    if path != [] && patch.Object? {
      var f, rest := path[0].name, path[1..];
      PatchedField(target, patch, f);
      if f in patch.fields {
        NothingBelowNull(rest);
        ReadMerged(Member(FieldsOf(target), f), patch.fields[f], rest);
      }
    }
  }

  // Setting what is already there changes nothing.
  lemma {:induction false} SetWhatIsThere(j: Json, path: seq<Seg>)
    requires GetAt(j, path).Some?
    ensures SetAt(j, path, GetAt(j, path).value) == (j, Done)
    decreases |path|
  {
    if path != [] {
      SetWhatIsThere(Child(j, path[0]).value, path[1..]);
      if path[0].Field? {
        var f := path[0].name;
        assert j.fields[f := j.fields[f]] == j.fields;
      } else {
        assert j.items[path[0].i := j.items[path[0].i]] == j.items;
      }
    }
  }

  ghost predicate Diverges(p: seq<Seg>, q: seq<Seg>) {
    exists n :: 0 <= n < |p| && n < |q| && p[..n] == q[..n] && p[n] != q[n]
  }

  lemma DivergesFurther(p: seq<Seg>, q: seq<Seg>, n: nat)
    requires 0 < n < |p| && n < |q| && p[..n] == q[..n] && p[n] != q[n]
    ensures p[0] == q[0] && Diverges(p[1..], q[1..])
  {
    assert p[0] == p[..n][0] && q[0] == q[..n][0];
    var front, back := p[1..], q[1..];
    assert front[..n - 1] == p[..n][1..] && back[..n - 1] == q[..n][1..];
    assert front[n - 1] == p[n] && back[n - 1] == q[n];
  }

  // A path that leaves the target's reads the same afterwards, even if the set failed.
  lemma {:induction false} DivergingPathUnchanged(j: Json, path: seq<Seg>, v: Json, other: seq<Seg>)
    requires Diverges(path, other)
    ensures GetAt(SetAt(j, path, v).0, other) == GetAt(j, other)
    decreases |path|
  {
    var n :| 0 <= n < |path| && n < |other| && path[..n] == other[..n] && path[n] != other[n];
    if n > 0 {
      DivergesFurther(path, other, n);
      var next := Child(j, path[0]);
      DivergingPathUnchanged(if next.Some? then next.value else Null, path[1..], v, other[1..]);
      if next.None? { NothingBelowNull(other[1..]); }
    }
  }

  // The in-place walk to the slot.
  method JsonSetAt(j: Json, path: seq<Seg>, v: Json) returns (doc: Json, outcome: Outcome)
    ensures (doc, outcome) == SetAt(j, path, v)
    decreases |path|
  {
    if path == [] {
      return v, Done;
    }
    doc := j;
    match path[0] {
      case Field(f) =>
        if doc == Null {
          doc := Object(map[]);
        }
        if !doc.Object? {
          return doc, Failed(NotAnObject(f));
        }
        var slot;
        slot, outcome := JsonSetAt(Member(doc.fields, f), path[1..], v);
        doc := Object(doc.fields[f := slot]);
      case Index(i) =>
        if !doc.Array? {
          return doc, Failed(NotAnArray(i));
        }
        if i >= |doc.items| {
          return doc, Failed(OutOfBounds(i, |doc.items|));
        }
        var slot;
        slot, outcome := JsonSetAt(doc.items[i], path[1..], v);
        doc := Array(doc.items[i := slot]);
    }
  }

  // The read cursor of JGET.
  method JsonGetAt(j: Json, path: seq<Seg>) returns (found: Option<Json>)
    ensures found == GetAt(j, path)
  {
    var c := j;
    assert path[0..] == path;
    for n := 0 to |path|
      invariant GetAt(c, path[n..]) == GetAt(j, path)
    {
      assert path[n..][1..] == path[n + 1..];
      var next := Child(c, path[n]);
      if next.None? {
        return None;
      }
      c := next.value;
    }
    found := Some(c);
  }

  // ── Size ────────────────────────────────────────────────────────────────────

  // The byte charge of a document.
  function ApproxSize(j: Json): nat
    decreases j, 1, 0
  {
    match j
    case Null => 8
    case Bool(_) => 8
    case Number(_) => 16
    case String(s) => |s| + 8
    case Array(items) => 8 + SizeOfItems(j, |items|)
    case Object(fields) => 8 + SizeOfFields(j, fields.Keys)
  }

  function SizeOfItems(j: Json, n: nat): nat
    requires j.Array? && n <= |j.items|
    decreases j, 0, n
  {
    if n == 0 then 0 else SizeOfItems(j, n - 1) + ApproxSize(j.items[n - 1])
  }

  function SizeOfFields(j: Json, todo: set<bytes>): nat
    requires j.Object? && todo <= j.fields.Keys
    decreases j, 0, |todo|
  {
    if todo == {} then 0
    else
      var k := Order.Least(todo);
      |k| + ApproxSize(j.fields[k]) + SizeOfFields(j, todo - {k})
  }

  // The order in which fields are added up does not matter: each counts for its name and
  // its value.
  lemma {:induction false} FieldsAddUp(j: Json, todo: set<bytes>, k: bytes)
    requires j.Object? && todo <= j.fields.Keys && k in todo
    ensures SizeOfFields(j, todo) == |k| + ApproxSize(j.fields[k]) + SizeOfFields(j, todo - {k})
    decreases |todo|
  {
    var least := Order.Least(todo);
    if least != k {
      FieldsAddUp(j, todo - {least}, k);
      FieldsAddUp(j, todo - {k}, least);
      assert todo - {least} - {k} == todo - {k} - {least};
    }
  }

  // What a document is charged: eight bytes and a string's length for a scalar, sixteen for
  // a number; eight for an empty container, and then each item by its value and each field
  // by its name and its value.
  lemma DocumentsCost(j: Json, items: seq<Json>, fields: map<bytes, Json>, k: bytes)
    ensures !j.Array? && !j.Object? ==>
      ApproxSize(j) == if j.String? then 8 + |j.s| else if j.Number? then 16 else 8
    ensures ApproxSize(Array([])) == ApproxSize(Object(map[])) == 8
    ensures ApproxSize(Array(items + [j])) == ApproxSize(Array(items)) + ApproxSize(j)
    ensures k !in fields ==> ApproxSize(Object(fields[k := j])) == ApproxSize(Object(fields)) + |k| + ApproxSize(j)
  {
    var longer := Array(items + [j]);
    SameItems(longer, Array(items), |items|);
    assert longer.items[|items|] == j;
    if k !in fields {
      var more := Object(fields[k := j]);
      FieldsAddUp(more, more.fields.Keys, k);
      assert more.fields.Keys - {k} == fields.Keys;
      SameFields(more, Object(fields), fields.Keys);
    }
  }

  lemma {:induction false} SameItems(a: Json, b: Json, n: nat)
    requires a.Array? && b.Array? && n <= |a.items| && n <= |b.items| && a.items[..n] == b.items[..n]
    ensures SizeOfItems(a, n) == SizeOfItems(b, n)
    decreases n
  {
    if n > 0 {
      assert a.items[..n - 1] == a.items[..n][..n - 1] && b.items[..n - 1] == b.items[..n][..n - 1];
      assert a.items[n - 1] == a.items[..n][n - 1] && b.items[n - 1] == b.items[..n][n - 1];
      SameItems(a, b, n - 1);
    }
  }

  lemma {:induction false} SameFields(a: Json, b: Json, todo: set<bytes>)
    requires a.Object? && b.Object? && todo <= a.fields.Keys && todo <= b.fields.Keys
    requires forall k :: k in todo ==> a.fields[k] == b.fields[k]
    ensures SizeOfFields(a, todo) == SizeOfFields(b, todo)
    decreases |todo|
  {
    if todo != {} {
      SameFields(a, b, todo - {Order.Least(todo)});
    }
  }
}
