/** What json_value_equals means, said without it: two values look the same from outside, along every path. */
module JsonSame {
  import opened Bytes
  import opened JsonTree
  import opened JsonEquality

  datatype Step = Name(name: seq<byte>) | Index(i: nat)

  /** What there is to see at one place. */
  datatype Look =
    | SeesNull | SeesBool(b: bool) | SeesNumber(n: int) | SeesString(s: seq<byte>)
    | SeesArray(count: nat) | SeesObject(count: nat)

  function LookOf(v: Json): Look
  {
    match v
    case Null => SeesNull
    case Bool(b) => SeesBool(b)
    case Number(n) => SeesNumber(n)
    case String(s) => SeesString(s)
    case Array(items) => SeesArray(|items|)
    case Object(ms) => SeesObject(|ms|)
  }

  /** The value of the first member of that name. */
  function Under(ms: seq<Member>, name: seq<byte>): Option<Json>
  {
    if ms == [] then None else if ms[0].name == name then Some(ms[0].value) else Under(ms[1..], name)
  }

  function Inside(v: Json, step: Step): Option<Json>
  {
    match step
    case Index(i) => if v.Array? && i < |v.items| then Some(v.items[i]) else None
    case Name(name) => if v.Object? then Under(v.members, name) else None
  }

  /** What there is to see at the end of a path, None where it leads nowhere. */
  function LookAt(v: Json, path: seq<Step>): Option<Look>
    decreases |path|
  {
    if path == [] then Some(LookOf(v))
    else
      match Inside(v, path[0])
      case None => None
      case Some(w) => LookAt(w, path[1..])
  }

  /** Order of members does not matter to what is seen. */
  ghost predicate Same(a: Json, b: Json)
  {
    forall path :: LookAt(a, path) == LookAt(b, path)
  }

  lemma {:induction false} UnderIsLookup(ms: seq<Member>, name: seq<byte>)
    ensures Under(ms, name) == Lookup(ms, name)
  {
    if ms != [] && ms[0].name != name {
      UnderIsLookup(ms[1..], name);
    }
  }

  lemma EqualInside(a: Json, b: Json, step: Step)
    requires WellFormed(a) && WellFormed(b) && Equals(a, b)
    ensures Inside(a, step).Some? <==> Inside(b, step).Some?
    ensures Inside(a, step).Some? ==>
      var v, w := Inside(a, step).value, Inside(b, step).value; WellFormed(v) && WellFormed(w) && Equals(v, w)
  {
    if step.Name? && a.Object? {
      var ms, ns := a.members, b.members;
      UnderIsLookup(ms, step.name);
      UnderIsLookup(ns, step.name);
      SameNames(ms, ns);
      if HasName(ms, step.name) {
        LookupUnique(ms, Find(ms, step.name));
      }
      if HasName(ns, step.name) {
        assert HasName(ms, ns[Find(ns, step.name)].name);
      }
    }
  }

  lemma {:induction false} EqualsLookSame(a: Json, b: Json, path: seq<Step>)
    requires WellFormed(a) && WellFormed(b) && Equals(a, b)
    ensures LookAt(a, path) == LookAt(b, path)
    decreases |path|
  {
    if path != [] {
      EqualInside(a, b, path[0]);
      if Inside(a, path[0]).Some? {
        EqualsLookSame(Inside(a, path[0]).value, Inside(b, path[0]).value, path[1..]);
      }
    }
  }

  /** One step further in, the same is seen. */
  lemma SameInside(a: Json, b: Json, step: Step)
    requires Same(a, b) && Inside(a, step).Some?
    ensures Inside(b, step).Some? && Same(Inside(a, step).value, Inside(b, step).value)
  {
    assert LookAt(a, [step]) == LookAt(b, [step]);
    var v := Inside(a, step).value;
    assert [step][1..] == [] && LookAt(v, []).Some?;
    forall path ensures LookAt(v, path) == LookAt(Inside(b, step).value, path) {
      assert ([step] + path)[1..] == path;
      assert LookAt(a, [step] + path) == LookAt(b, [step] + path);
    }
  }

  lemma {:induction false} LookingSameIsEqual(a: Json, b: Json)
    requires WellFormed(a) && WellFormed(b) && Same(a, b)
    ensures Equals(a, b)
    decreases a
  {
    assert LookAt(a, []) == LookAt(b, []);
    match a
    case Array(items) =>
      forall i | 0 <= i < |items| ensures Equals(items[i], b.items[i]) {
        SameInside(a, b, Index(i));
        LookingSameIsEqual(items[i], b.items[i]);
      }
    case Object(ms) =>
      forall i | 0 <= i < |ms|
        ensures HasName(b.members, ms[i].name) && Equals(Named(ms, i), Lookup(b.members, ms[i].name).value)
      {
        MemberIsSame(a, b, i);
        LookingSameIsEqual(ms[i].value, Lookup(b.members, ms[i].name).value);
      }
    case _ =>
  }

  lemma MemberIsSame(a: Json, b: Json, i: nat)
    requires WellFormed(a) && WellFormed(b) && Same(a, b) && a.Object? && b.Object? && i < |a.members|
    ensures var name := a.members[i].name;
      && Named(a.members, i) == a.members[i].value && HasName(b.members, name)
      && WellFormed(Lookup(b.members, name).value) && Same(a.members[i].value, Lookup(b.members, name).value)
  {
    hide Same;
    var name := a.members[i].name;
    LookupUnique(a.members, i);
    UnderIsLookup(a.members, name);
    UnderIsLookup(b.members, name);
    SameInside(a, b, Name(name));
  }

  /** Two values of the library are equal if and only if they look the same along every path. */
  lemma EqualIffSame(a: Json, b: Json)
    requires WellFormed(a) && WellFormed(b)
    ensures Equals(a, b) <==> Same(a, b)
  {
    if Equals(a, b) {
      forall path ensures LookAt(a, path) == LookAt(b, path) {
        EqualsLookSame(a, b, path);
      }
    }
    if Same(a, b) {
      LookingSameIsEqual(a, b);
    }
  }

  predicate NoObjects(v: Json)
  {
    !v.Object? && (v.Array? ==> forall i :: 0 <= i < |v.items| ==> NoObjects(v.items[i]))
  }

  /** Without objects, equal values are one and the same. */
  lemma {:induction false} EqualIsSameValue(a: Json, b: Json)
    requires NoObjects(a)
    ensures Equals(a, b) <==> a == b
  {
    if a.Array? && b.Array? && |a.items| == |b.items| {
      forall i | 0 <= i < |a.items| ensures Equals(a.items[i], b.items[i]) <==> a.items[i] == b.items[i] {
        EqualIsSameValue(a.items[i], b.items[i]);
      }
      assert a.items == b.items <==> forall i :: 0 <= i < |a.items| ==> a.items[i] == b.items[i];
    }
  }
}
