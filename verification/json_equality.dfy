/** json_value_equals. Items are compared in order, members by name. */
module JsonEquality {
  import opened Bytes
  import opened JsonTree

  /** The comparison of two values; numbers are exact integers, for which closer than 10^-6 means equal. */
  predicate Equals(a: Json, b: Json)
    decreases a
  {
    match a
    case Null => b.Null?
    case Bool(x) => b == Bool(x)
    case Number(n) => b.Number? && -1 < n - b.n < 1
    case String(s) => b == String(s)
    case Array(items) =>
      b.Array? && |items| == |b.items| && forall i :: 0 <= i < |items| ==> Equals(items[i], b.items[i])
    case Object(ms) =>
      b.Object? && |ms| == |b.members| &&
      forall i :: 0 <= i < |ms| ==>
        HasName(b.members, ms[i].name) && Equals(Named(ms, i), Lookup(b.members, ms[i].name).value)
  }

  /** The loops of json_value_equals. */
  method ValuesEqual(a: Json, b: Json) returns (same: bool)
    ensures same == Equals(a, b)
    decreases a
  {
    match a
    case Null => return b.Null?;
    case Bool(x) => return b == Bool(x);
    case Number(n) => return b.Number? && -1 < n - b.n < 1;
    case String(s) => return b == String(s);
    case Array(items) =>
      if !b.Array? || |items| != |b.items| {
        return false;
      }
      var i := 0;
      while i < |items|
        invariant 0 <= i <= |items|
        invariant forall k :: 0 <= k < i ==> Equals(items[k], b.items[k])
      {
        var eq := ValuesEqual(items[i], b.items[i]);
        if !eq {
          return false;
        }
        i := i + 1;
      }
      return true;
    case Object(ms) =>
      if !b.Object? || |ms| != |b.members| {
        return false;
      }
      var i := 0;
      while i < |ms|
        invariant 0 <= i <= |ms|
        invariant forall k :: 0 <= k < i ==>
          HasName(b.members, ms[k].name) && Equals(Named(ms, k), Lookup(b.members, ms[k].name).value)
      {
        var other := Lookup(b.members, ms[i].name);
        if other == None {
          return false;
        }
        var eq := ValuesEqual(Named(ms, i), other.value);
        if !eq {
          return false;
        }
        i := i + 1;
      }
      return true;
  }

  lemma {:induction false} Reflexive(a: Json)
    requires WellFormed(a)
    ensures Equals(a, a)
  {
    match a
    case Array(items) =>
      forall i | 0 <= i < |items| ensures Equals(items[i], items[i]) {
        Reflexive(items[i]);
      }
    case Object(ms) =>
      forall i | 0 <= i < |ms|
        ensures HasName(ms, ms[i].name) && Equals(Named(ms, i), Lookup(ms, ms[i].name).value)
      {
        LookupUnique(ms, i);
        Reflexive(ms[i].value);
      }
    case _ =>
  }

  // ---- symmetry needs the pigeonhole principle on names ----

  function Names(ms: seq<Member>): set<seq<byte>>
  {
    set i | 0 <= i < |ms| :: ms[i].name
  }

  lemma {:induction false} CountNames(ms: seq<Member>)
    requires UniqueNames(ms)
    ensures |Names(ms)| == |ms|
  {
    if ms != [] {
      var front, last := ms[..|ms| - 1], ms[|ms| - 1];
      CountNames(front);
      assert forall i :: 0 <= i < |front| ==> front[i] == ms[i];
      assert Names(ms) == Names(front) + {last.name};
    }
  }

  /** If every name of one object is in another with as many members, then so is the converse. */
  lemma SameNames(ms: seq<Member>, ns: seq<Member>)
    requires UniqueNames(ms) && UniqueNames(ns) && |ms| == |ns|
    requires forall i :: 0 <= i < |ms| ==> HasName(ns, ms[i].name)
    ensures forall j :: 0 <= j < |ns| ==> HasName(ms, ns[j].name)
  {
    CountNames(ms);
    CountNames(ns);
    assert Names(ms) <= Names(ns);
    Pigeonhole(Names(ms), Names(ns));
    forall j | 0 <= j < |ns| ensures HasName(ms, ns[j].name) {
      assert ns[j].name in Names(ms);
    }
  }

  lemma Pigeonhole<T>(a: set<T>, b: set<T>)
    requires a <= b && |a| == |b|
    ensures a == b
  {
    if x :| x in b && x !in a {
      assert a <= b - {x};
      SubsetSize(a, b - {x});
    }
  }

  lemma {:induction false} SubsetSize<T>(a: set<T>, b: set<T>)
    requires a <= b
    ensures |a| <= |b|
  {
    if x :| x in a {
      SubsetSize(a - {x}, b - {x});
    }
  }

  lemma {:induction false} Symmetric(a: Json, b: Json)
    requires WellFormed(a) && WellFormed(b) && Equals(a, b)
    ensures Equals(b, a)
    decreases a
  {
    match a
    case Array(items) =>
      forall i | 0 <= i < |items| ensures Equals(b.items[i], items[i]) {
        Symmetric(items[i], b.items[i]);
      }
    case Object(ms) =>
      var ns := b.members;
      SameNames(ms, ns);
      forall j | 0 <= j < |ns|
        ensures HasName(ms, ns[j].name) && Equals(Named(ns, j), Lookup(ms, ns[j].name).value)
      {
        var i := Find(ms, ns[j].name);
        LookupUnique(ms, i);
        LookupUnique(ns, j);
        Symmetric(ms[i].value, ns[j].value);
      }
    case _ =>
  }

  lemma {:induction false} Transitive(a: Json, b: Json, c: Json)
    requires WellFormed(a) && WellFormed(b) && WellFormed(c) && Equals(a, b) && Equals(b, c)
    ensures Equals(a, c)
    decreases a
  {
    match a
    case Array(items) =>
      forall i | 0 <= i < |items| ensures Equals(items[i], c.items[i]) {
        Transitive(items[i], b.items[i], c.items[i]);
      }
    case Object(ms) =>
      var ns, ps := b.members, c.members;
      forall i | 0 <= i < |ms|
        ensures HasName(ps, ms[i].name) && Equals(Named(ms, i), Lookup(ps, ms[i].name).value)
      {
        var j := Find(ns, ms[i].name);
        LookupUnique(ms, i);
        LookupUnique(ns, j);
        assert HasName(ps, ns[j].name);
        var k := Find(ps, ns[j].name);
        LookupUnique(ps, k);
        Transitive(ms[i].value, ns[j].value, ps[k].value);
      }
    case _ =>
  }

  /** Without unique names the comparison is not even symmetric: {"a":1,"a":1} against {"a":1,"b":2}. */
  lemma DuplicatesBreakSymmetry()
    ensures
      var a := Object([Member([97], Number(1)), Member([97], Number(1))]);
      var b := Object([Member([97], Number(1)), Member([98], Number(2))]);
      Equals(a, b) && !Equals(b, a)
  {
    var ms := [Member([97], Number(1)), Member([97], Number(1))];
    var ns := [Member([97], Number(1)), Member([98], Number(2))];
    assert ms[0].name == [97] && ns[0].name == [97] && ns[1].name == [98] && ns[1].name[0] != 97;
    assert Find(ms, [97]) == 0 && Find(ns, [97]) == 0;
    assert HasName(ns, [97]);
    assert forall i :: 0 <= i < |ms| ==> ms[i].name != ns[1].name;
    assert !HasName(ms, ns[1].name);
  }

  /** Two objects are equal exactly when they have the same names, with equal values. */
  lemma EqualObjects(ms: seq<Member>, ns: seq<Member>)
    requires UniqueNames(ms) && UniqueNames(ns)
    ensures Equals(Object(ms), Object(ns)) <==>
      Names(ms) == Names(ns) && SameValues(ms, ns)
  {
    CountNames(ms);
    CountNames(ns);
    if Equals(Object(ms), Object(ns)) {
      EqualValues(ms, ns);
    }
    if Names(ms) == Names(ns) && SameValues(ms, ns) {
      hide Names;
      forall i | 0 <= i < |ms|
        ensures HasName(ns, ms[i].name) && Equals(Named(ms, i), Lookup(ns, ms[i].name).value)
      {
        InNames(ms, i);
        NamedIn(ns, ms[i].name);
        LookupUnique(ms, i);
        LookupUnique(ns, Find(ns, ms[i].name));
      }
    }
  }

  /** Members of one name have equal values. */
  predicate SameValues(ms: seq<Member>, ns: seq<Member>)
  {
    forall i, j :: 0 <= i < |ms| && 0 <= j < |ns| && ms[i].name == ns[j].name ==> Equals(ms[i].value, ns[j].value)
  }

  lemma InNames(ms: seq<Member>, i: nat)
    requires i < |ms|
    ensures ms[i].name in Names(ms)
  {
  }

  lemma NamedIn(ms: seq<Member>, name: seq<byte>)
    requires name in Names(ms)
    ensures HasName(ms, name)
  {
  }

  lemma EqualValues(ms: seq<Member>, ns: seq<Member>)
    requires UniqueNames(ms) && UniqueNames(ns) && Equals(Object(ms), Object(ns))
    ensures Names(ms) == Names(ns) && SameValues(ms, ns)
  {
    SameNames(ms, ns);
    forall x | x in Names(ms) ensures x in Names(ns) {}
    forall x | x in Names(ns) ensures x in Names(ms) {}
    forall i, j | 0 <= i < |ms| && 0 <= j < |ns| && ms[i].name == ns[j].name ensures Equals(ms[i].value, ns[j].value) {
      LookupUnique(ms, i);
      LookupUnique(ns, j);
    }
  }
}
