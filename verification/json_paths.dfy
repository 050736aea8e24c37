/** Adding, setting and removing members by name or by dotted path, on trees. */
module JsonPaths {
  import opened Bytes
  import opened JsonTree

  /** json_object_add; None when the name is taken. */
  function Add(ms: seq<Member>, name: seq<byte>, v: Json): Option<seq<Member>>
  {
    if HasName(ms, name) then None else Some(ms + [Member(name, v)])
  }

  /** json_object_set_value, of a value without a parent. */
  function Set(ms: seq<Member>, name: seq<byte>, v: Json): seq<Member>
  {
    var k := Find(ms, name);
    if k < |ms| then ms[k := Member(name, v)] else ms + [Member(name, v)]
  }

  /** json_object_remove: the last member takes the free place. */
  function Remove(ms: seq<Member>, name: seq<byte>): Option<seq<Member>>
  {
    var k, last := Find(ms, name), |ms| - 1;
    if k == |ms| then None else Some(ms[k := ms[last]][..last])
  }

  /** strchr(name, '.'): the number of bytes in front of the first dot, |name| when there is none. */
  function FirstDot(name: seq<byte>): (d: nat)
    ensures d <= |name|
    ensures d < |name| ==> name[d] == DOT
  {
    if name == [] || name[0] == DOT then 0 else 1 + FirstDot(name[1..])
  }

  function MembersOf(v: Option<Json>): Option<seq<Member>>
  {
    if v.Some? && v.value.Object? then Some(v.value.members) else None
  }

  /** json_object_dotget_value; None stands for a null object too. */
  function DotGet(o: Option<seq<Member>>, name: seq<byte>): Option<Json>
    decreases |name|
  {
    var d := FirstDot(name);
    if d == |name| then
      if o.None? then None else Lookup(o.value, name)
    else
      DotGet(if o.None? then None else MembersOf(Lookup(o.value, name[..d])), name[d + 1..])
  }

  datatype Update = Update(ok: bool, members: seq<Member>)

  /** json_object_dotset_value; `attached` says that the value has a parent already. Objects on the
      way are created as needed, and stay when the value is refused at the end. */
  function DotSet(ms: seq<Member>, name: seq<byte>, v: Json, attached: bool): Update
    decreases |name|
  {
    var d := FirstDot(name);
    if d == |name| then
      if attached then Update(false, ms) else Update(true, Set(ms, name, v))
    else
      var key, rest := name[..d], name[d + 1..];
      var found := Lookup(ms, key);
      if found == None then
        var u := DotSet([], rest, v, attached);
        Update(u.ok, ms + [Member(key, Object(u.members))])
      else if !found.value.Object? then Update(false, ms)
      else
        var u := DotSet(found.value.members, rest, v, attached);
        Update(u.ok, Set(ms, key, Object(u.members)))
  }

  lemma DotSetStep(ms: seq<Member>, name: seq<byte>, v: Json, attached: bool)
    requires FirstDot(name) < |name|
    ensures var key, rest := name[..FirstDot(name)], name[FirstDot(name) + 1..];
      var k, r := Find(ms, key), DotSet(ms, name, v, attached);
      if k == |ms| then
        var u := DotSet([], rest, v, attached);
        r == Update(u.ok, (ms + [Member(key, Object([]))])[k := Member(key, Object(u.members))])
      else if ms[k].value.Object? then
        var u := DotSet(ms[k].value.members, rest, v, attached);
        r == Update(u.ok, ms[k := Member(key, Object(u.members))])
      else r == Update(false, ms)
  {
  }

  lemma DotSetEnd(ms: seq<Member>, name: seq<byte>, v: Json, attached: bool)
    requires FirstDot(name) == |name|
    ensures DotSet(ms, name, v, attached) == if attached then Update(false, ms) else Update(true, Set(ms, name, v))
  {
  }

  /** Whether a value is refused does not depend on it, nor what is left behind then. */
  lemma {:induction false} RefusedAlike(ms: seq<Member>, name: seq<byte>, v: Json, w: Json, attached: bool)
    ensures DotSet(ms, name, v, attached).ok == DotSet(ms, name, w, attached).ok
    ensures !DotSet(ms, name, v, attached).ok ==> DotSet(ms, name, v, attached) == DotSet(ms, name, w, attached)
    decreases |name|
  {
    hide DotSet, Find, FirstDot;
    var d := FirstDot(name);
    if d == |name| {
      DotSetEnd(ms, name, v, attached);
      DotSetEnd(ms, name, w, attached);
    } else {
      DotSetStep(ms, name, v, attached);
      DotSetStep(ms, name, w, attached);
      var k := Find(ms, name[..d]);
      RefusedAlike(if k < |ms| && ms[k].value.Object? then ms[k].value.members else [], name[d + 1..], v, w, attached);
    }
  }

  /** json_object_dotremove */
  function DotRemove(ms: seq<Member>, name: seq<byte>): Option<seq<Member>>
    decreases |name|
  {
    var d := FirstDot(name);
    if d == |name| then Remove(ms, name)
    else
      match MembersOf(Lookup(ms, name[..d]))
      case None => None
      case Some(sub) =>
        match DotRemove(sub, name[d + 1..])
        case None => None
        case Some(left) => Some(Set(ms, name[..d], Object(left)))
  }

  lemma DotRemoveStep(ms: seq<Member>, name: seq<byte>)
    requires FirstDot(name) < |name|
    ensures var key, rest := name[..FirstDot(name)], name[FirstDot(name) + 1..];
      var k, r := Find(ms, key), DotRemove(ms, name);
      if k == |ms| || !ms[k].value.Object? then r == None
      else
        var left := DotRemove(ms[k].value.members, rest);
        r == match left case None => None case Some(l) => Some(ms[k := Member(ms[k].name, Object(l))])
  {
  }

  // ---- what one name sees of an update ----

  lemma LookupSet(ms: seq<Member>, name: seq<byte>, v: Json, other: seq<byte>)
    ensures Lookup(Set(ms, name, v), other) == if other == name then Some(v) else Lookup(ms, other)
  {
    var k, ns := Find(ms, name), Set(ms, name, v);
    if other == name {
      assert ns[k].name == name && Find(ns, name) == k;
    } else {
      FindAgain(ms, ns, other);
    }
  }

  /** Two objects with the same member of a name at the same place, and no other of that name. */
  lemma FindAgain(ms: seq<Member>, ns: seq<Member>, name: seq<byte>)
    requires |ms| <= |ns| && forall i :: |ms| <= i < |ns| ==> ns[i].name != name
    requires forall i :: 0 <= i < |ms| ==> ms[i] == ns[i] || (ms[i].name != name && ns[i].name != name)
    ensures Lookup(ns, name) == Lookup(ms, name)
  {
    var k := Find(ms, name);
    if k < |ms| {
      assert ns[k].name == name && Find(ns, name) == k;
    }
  }

  lemma LookupRemove(ms: seq<Member>, name: seq<byte>, other: seq<byte>)
    requires UniqueNames(ms) && HasName(ms, name)
    ensures Lookup(Remove(ms, name).value, other) == if other == name then None else Lookup(ms, other)
  {
    var k, last, ns := Find(ms, name), |ms| - 1, Remove(ms, name).value;
    assert forall i :: 0 <= i < |ns| ==> ns[i] == if i == k then ms[last] else ms[i];
    assert !HasName(ns, name);
    if other != name {
      var j := Find(ms, other);
      if j < |ms| {
        var j' := if j == last then k else j;
        assert ns[j'].name == other;
        RemoveKeepsUnique(ms, name);
        LookupUnique(ns, j');
      } else {
        assert !HasName(ns, other);
      }
    }
  }

  lemma SetKeepsUnique(ms: seq<Member>, name: seq<byte>, v: Json)
    requires UniqueNames(ms)
    ensures UniqueNames(Set(ms, name, v))
  {
  }

  lemma RemoveKeepsUnique(ms: seq<Member>, name: seq<byte>)
    requires UniqueNames(ms) && HasName(ms, name)
    ensures UniqueNames(Remove(ms, name).value)
  {
    var k, last, ns := Find(ms, name), |ms| - 1, Remove(ms, name).value;
    assert forall i :: 0 <= i < |ns| ==> ns[i] == if i == k then ms[last] else ms[i];
  }

  // ---- paths ----

  /** The names between the dots. */
  function Split(name: seq<byte>): (p: seq<seq<byte>>)
    ensures p != []
    decreases |name|
  {
    var d := FirstDot(name);
    if d == |name| then [name] else [name[..d]] + Split(name[d + 1..])
  }

  predicate Apart(p: seq<seq<byte>>, q: seq<seq<byte>>) { !(p <= q) && !(q <= p) }

  lemma ApartTail(p: seq<seq<byte>>, q: seq<seq<byte>>)
    requires p != [] && q != [] && Apart(p, q)
    ensures p[0] != q[0] || (p[1..] != [] && q[1..] != [] && Apart(p[1..], q[1..]))
  {
    assert p == [p[0]] + p[1..] && q == [q[0]] + q[1..];
    assert p[0] == q[0] && p[1..] <= q[1..] ==> p <= q;
    assert p[0] == q[0] && q[1..] <= p[1..] ==> q <= p;
  }

  /** The name itself when it has no dot, else the part in front of the first. */
  function Head(name: seq<byte>): seq<byte> { name[..FirstDot(name)] }

  lemma SplitHead(name: seq<byte>)
    ensures Split(name)[0] == Head(name)
    ensures |Split(name)| == 1 <==> FirstDot(name) == |name|
    ensures FirstDot(name) < |name| ==> Split(name)[1..] == Split(name[FirstDot(name) + 1..])
  {
  }

  /** After a successful dotset, dotget of the path is the value. */
  lemma {:induction false} GetAfterSet(ms: seq<Member>, name: seq<byte>, v: Json, attached: bool)
    requires DotSet(ms, name, v, attached).ok
    ensures DotGet(Some(DotSet(ms, name, v, attached).members), name) == Some(v)
    decreases |name|
  {
    var d := FirstDot(name);
    if d == |name| {
      LookupSet(ms, name, v, name);
    } else {
      var key, rest := name[..d], name[d + 1..];
      var found := Lookup(ms, key);
      var sub := if found == None then [] else found.value.members;
      var u := DotSet(sub, rest, v, attached);
      GetAfterSet(sub, rest, v, attached);
      SetIsAdd(ms, key, Object(u.members));
      LookupSet(ms, key, Object(u.members), key);
    }
  }

  lemma SetIsAdd(ms: seq<Member>, name: seq<byte>, v: Json)
    ensures !HasName(ms, name) ==> Set(ms, name, v) == ms + [Member(name, v)]
  {
  }

  /** A name that fails: nothing under a null object. */
  lemma {:induction false} GetFromNothing(name: seq<byte>)
    ensures DotGet(None, name) == None
    decreases |name|
  {
    var d := FirstDot(name);
    if d < |name| { GetFromNothing(name[d + 1..]); }
  }

  lemma {:induction false} GetFromEmpty(name: seq<byte>)
    ensures DotGet(Some([]), name) == None
  {
    var d := FirstDot(name);
    assert !HasName([], name) && !HasName([], name[..d]);
    if d < |name| { GetFromNothing(name[d + 1..]); }
  }

  /** What a path sees depends on the member of its first name only. */
  lemma GetDependsOnHead(ms: seq<Member>, ns: seq<Member>, q: seq<byte>)
    requires Lookup(ms, Head(q)) == Lookup(ns, Head(q))
    ensures DotGet(Some(ms), q) == DotGet(Some(ns), q)
  {
    if FirstDot(q) == |q| {
      assert Head(q) == q;
    }
  }

  lemma GetStep(ms: seq<Member>, q: seq<byte>)
    requires FirstDot(q) < |q|
    ensures DotGet(Some(ms), q) == DotGet(MembersOf(Lookup(ms, Head(q))), q[FirstDot(q) + 1..])
  {
    hide FirstDot, Lookup, MembersOf;
  }

  /** The members that the next step of a path works on: none under a free name. */
  function Below(ms: seq<Member>, key: seq<byte>): seq<Member>
  {
    match Lookup(ms, key)
    case None => []
    case Some(v) => if v.Object? then v.members else []
  }

  /** A path with a dot sets one member, or changes nothing where that member is no object. */
  lemma DotSetIsSet(ms: seq<Member>, name: seq<byte>, v: Json, attached: bool)
    requires FirstDot(name) < |name|
    ensures var key, found, after := Head(name), Lookup(ms, Head(name)), DotSet(ms, name, v, attached).members;
      if found.Some? && !found.value.Object? then after == ms
      else after == Set(ms, key, Object(DotSet(Below(ms, key), name[FirstDot(name) + 1..], v, attached).members))
  {
    hide FirstDot, Lookup, Set;
    SetIsAdd(ms, Head(name), Object(DotSet(Below(ms, Head(name)), name[FirstDot(name) + 1..], v, attached).members));
  }

  /** Under a free name every path finds what it finds in an empty object: nothing. */
  lemma GetBelow(ms: seq<Member>, q: seq<byte>)
    requires FirstDot(q) < |q| && (Lookup(ms, Head(q)).Some? ==> Lookup(ms, Head(q)).value.Object?)
    ensures DotGet(Some(ms), q) == DotGet(Some(Below(ms, Head(q))), q[FirstDot(q) + 1..])
  {
    hide DotGet, FirstDot, Find, Lookup;
    GetStep(ms, q);
    GetFromEmpty(q[FirstDot(q) + 1..]);
    GetFromNothing(q[FirstDot(q) + 1..]);
  }

  /** Every path apart from the one that was set (neither a prefix nor an extension) keeps its value,
      whether or not the call succeeded. */
  lemma {:induction false} SetElsewhere(ms: seq<Member>, name: seq<byte>, v: Json, attached: bool, q: seq<byte>)
    requires Apart(Split(name), Split(q))
    ensures DotGet(Some(DotSet(ms, name, v, attached).members), q) == DotGet(Some(ms), q)
    decreases |name|
  {
    hide DotSet, DotGet, FirstDot, Find, Set;
    var d, key, after := FirstDot(name), Head(name), DotSet(ms, name, v, attached).members;
    SplitHead(name);
    SplitHead(q);
    ApartTail(Split(name), Split(q));
    if d == |name| {
      DotSetEnd(ms, name, v, attached);
      LookupSet(ms, name, v, Head(q));
      GetDependsOnHead(ms, after, q);
    } else {
      DotSetIsSet(ms, name, v, attached);
      if after != ms {
        var rest := name[d + 1..];
        var below := DotSet(Below(ms, key), rest, v, attached).members;
        LookupSet(ms, key, Object(below), Head(q));
        if Head(q) != key {
          GetDependsOnHead(ms, after, q);
        } else {
          SetElsewhere(Below(ms, key), rest, v, attached, q[FirstDot(q) + 1..]);
          GetBelow(ms, q);
          GetBelow(after, q);
        }
      }
    }
  }

  /** A step of the path, not its last, that holds something other than an object. */
  predicate Blocked(ms: seq<Member>, path: seq<seq<byte>>)
    decreases |path|
  {
    |path| > 1 &&
    var v := Lookup(ms, path[0]);
    v.Some? && (!v.value.Object? || Blocked(v.value.members, path[1..]))
  }

  /** dotset succeeds exactly for a value without a parent on a path that is not blocked; and a
      value without a parent leaves the object alone when it fails. */
  lemma {:induction false} SetSucceeds(ms: seq<Member>, name: seq<byte>, v: Json, attached: bool)
    ensures DotSet(ms, name, v, attached).ok <==> !attached && !Blocked(ms, Split(name))
    ensures !DotSet(ms, name, v, attached).ok && !attached ==> DotSet(ms, name, v, attached).members == ms
    decreases |name|
  {
    var d := FirstDot(name);
    SplitHead(name);
    if d < |name| {
      var key, rest := name[..d], name[d + 1..];
      var found := Lookup(ms, key);
      if found == None {
        SetSucceeds([], rest, v, attached);
        assert !HasName([], Split(rest)[0]);
      } else if found.value.Object? {
        SetSucceeds(found.value.members, rest, v, attached);
        SetSame(ms, key);
      }
    }
  }

  lemma SetSame(ms: seq<Member>, name: seq<byte>)
    requires HasName(ms, name)
    ensures Set(ms, name, Lookup(ms, name).value) == ms
  {
  }

  /** The names, values and uniqueness the library relies on survive. */
  lemma {:induction false} DotSetKeepsWellFormed(ms: seq<Member>, name: seq<byte>, v: Json, attached: bool)
    requires WellFormed(Object(ms)) && WellFormed(v) && 0 !in name
    ensures WellFormed(Object(DotSet(ms, name, v, attached).members))
    decreases |name|
  {
    var d := FirstDot(name);
    if d == |name| {
      SetKeepsWellFormed(ms, name, v);
    } else {
      var key, rest := name[..d], name[d + 1..];
      var found := Lookup(ms, key);
      var sub := if found == None then [] else if found.value.Object? then found.value.members else [];
      DotSetKeepsWellFormed(sub, rest, v, attached);
      SetKeepsWellFormed(ms, key, Object(DotSet(sub, rest, v, attached).members));
      SetIsAdd(ms, key, Object(DotSet(sub, rest, v, attached).members));
    }
  }

  lemma SetKeepsWellFormed(ms: seq<Member>, name: seq<byte>, v: Json)
    requires WellFormed(Object(ms)) && WellFormed(v) && 0 !in name
    ensures WellFormed(Object(Set(ms, name, v)))
  {
    SetKeepsUnique(ms, name, v);
  }

  // ---- removal by path ----

  /** dotremove succeeds exactly when dotget finds something. */
  lemma {:induction false} RemoveSucceeds(ms: seq<Member>, name: seq<byte>)
    ensures DotRemove(ms, name).Some? <==> DotGet(Some(ms), name).Some?
    decreases |name|
  {
    hide FirstDot, Lookup, Find;
    var d := FirstDot(name);
    if d < |name| {
      var sub := MembersOf(Lookup(ms, name[..d]));
      if sub == None {
        GetFromNothing(name[d + 1..]);
      } else {
        RemoveSucceeds(sub.value, name[d + 1..]);
      }
    }
  }

  /** Afterwards the path is gone, and every path apart from it keeps its value. */
  lemma {:induction false} GetAfterRemove(ms: seq<Member>, name: seq<byte>)
    requires WellFormed(Object(ms)) && DotRemove(ms, name).Some?
    ensures DotGet(Some(DotRemove(ms, name).value), name) == None
    decreases |name|
  {
    var d := FirstDot(name);
    if d == |name| {
      LookupRemove(ms, name, name);
    } else {
      var key, rest := name[..d], name[d + 1..];
      var sub := Lookup(ms, key).value.members;
      GetAfterRemove(sub, rest);
      LookupSet(ms, key, Object(DotRemove(sub, rest).value), key);
    }
  }

  lemma SubObject(ms: seq<Member>, key: seq<byte>)
    requires WellFormed(Object(ms)) && MembersOf(Lookup(ms, key)).Some?
    ensures WellFormed(Object(MembersOf(Lookup(ms, key)).value))
  {
  }

  lemma RemoveStep(ms: seq<Member>, name: seq<byte>)
    requires FirstDot(name) < |name| && DotRemove(ms, name).Some?
    ensures var key, rest := name[..FirstDot(name)], name[FirstDot(name) + 1..];
      var sub := MembersOf(Lookup(ms, key));
      sub.Some? && DotRemove(sub.value, rest).Some?
      && DotRemove(ms, name) == Some(Set(ms, key, Object(DotRemove(sub.value, rest).value)))
  {
  }

  lemma {:induction false} RemoveElsewhere(ms: seq<Member>, name: seq<byte>, q: seq<byte>)
    requires WellFormed(Object(ms)) && DotRemove(ms, name).Some? && Apart(Split(name), Split(q))
    ensures DotGet(Some(DotRemove(ms, name).value), q) == DotGet(Some(ms), q)
    decreases |name|
  {
    var d := FirstDot(name);
    SplitHead(name);
    SplitHead(q);
    ApartTail(Split(name), Split(q));
    if d == |name| {
      assert Head(name) == name;
      LookupRemove(ms, name, Head(q));
      GetDependsOnHead(ms, Remove(ms, name).value, q);
    } else {
      var key, rest := name[..d], name[d + 1..];
      RemoveStep(ms, name);
      SubObject(ms, key);
      var sub := MembersOf(Lookup(ms, key)).value;
      var after := Set(ms, key, Object(DotRemove(sub, rest).value));
      LookupSet(ms, key, Object(DotRemove(sub, rest).value), Head(q));
      if Head(q) != key {
        GetDependsOnHead(ms, after, q);
      } else {
        RemoveElsewhere(sub, rest, q[FirstDot(q) + 1..]);
        GetStep(ms, q);
        GetStep(after, q);
      }
    }
  }

  // ---- names with dots, byte by byte ----

  /** Names without dots, with a dot between them. */
  function Dotted(names: seq<seq<byte>>): seq<byte>
    requires names != []
  {
    if |names| == 1 then names[0] else names[0] + [46] + Dotted(names[1..])
  }

  predicate NoDots(names: seq<seq<byte>>)
  {
    forall i :: 0 <= i < |names| ==> 46 !in names[i]
  }

  /** Where the names lead, one after the other. */
  function Walk(v: Json, names: seq<seq<byte>>): Option<Json>
    decreases |names|
  {
    if names == [] then Some(v)
    else if !v.Object? then None
    else match Lookup(v.members, names[0]) case None => None case Some(w) => Walk(w, names[1..])
  }

  lemma {:induction false} DotOf(name: seq<byte>, rest: seq<byte>)
    requires 46 !in name
    ensures FirstDot(name) == |name| && FirstDot(name + [46] + rest) == |name|
  {
    if name != [] {
      assert name[0] in name;
      DotOf(name[1..], rest);
      assert (name + [46] + rest)[1..] == name[1..] + [46] + rest;
    }
  }

  lemma DottedParts(names: seq<seq<byte>>)
    requires names != [] && NoDots(names)
    ensures var name := Dotted(names);
      && FirstDot(name) == |names[0]|
      && if |names| == 1 then name == names[0]
         else |names[0]| < |name| && name[..|names[0]|] == names[0] && name[|names[0]| + 1..] == Dotted(names[1..])
  {
    if |names| > 1 {
      DotOf(names[0], Dotted(names[1..]));
    } else {
      DotOf(names[0], []);
    }
  }

  /** dotget follows the names. */
  lemma {:induction false} DotGetWalks(ms: seq<Member>, names: seq<seq<byte>>)
    requires names != [] && NoDots(names)
    ensures DotGet(Some(ms), Dotted(names)) == Walk(Object(ms), names)
    decreases |names|
  {
    hide FirstDot, Lookup, Dotted;
    DottedParts(names);
    if |names| == 1 {
      LastStep(ms, names[0]);
    } else {
      var found := Lookup(ms, names[0]);
      if found.Some? && found.value.Object? {
        DotGetWalks(found.value.members, names[1..]);
      } else {
        GetFromNothing(Dotted(names[1..]));
        if found.Some? {
          WalkStops(found.value, names[1..]);
        }
      }
    }
  }

  lemma LastStep(ms: seq<Member>, name: seq<byte>)
    ensures Walk(Object(ms), [name]) == Lookup(ms, name)
  {
    assert [name][1..] == [];
  }

  lemma WalkStops(v: Json, names: seq<seq<byte>>)
    requires !v.Object? && names != []
    ensures Walk(v, names) == None
  {
  }

  /** One object in the other, with the value in the innermost. */
  function Nested(names: seq<seq<byte>>, v: Json): seq<Member>
    requires names != []
  {
    [Member(names[0], if |names| == 1 then v else Object(Nested(names[1..], v)))]
  }

  /** dotset makes an object for every name on the way. */
  lemma {:induction false} DotSetNests(names: seq<seq<byte>>, v: Json)
    requires names != [] && NoDots(names)
    ensures DotSet([], Dotted(names), v, false) == Update(true, Nested(names, v))
    decreases |names|
  {
    hide FirstDot, Dotted;
    DottedParts(names);
    assert !HasName([], names[0]);
    if |names| > 1 {
      DotSetNests(names[1..], v);
      assert [] + [Member(names[0], Object(Nested(names[1..], v)))] == Nested(names, v);
    } else {
      assert [] + [Member(names[0], v)] == Nested(names, v);
    }
  }

  // ---- the order of the members ----

  /** A new value takes the place of the old one, or comes last. */
  lemma SetKeepsOrder(ms: seq<Member>, name: seq<byte>, v: Json)
    requires UniqueNames(ms)
    ensures !HasName(ms, name) ==>
      Set(ms, name, v) == ms + [Member(name, v)] && Add(ms, name, v) == Some(Set(ms, name, v))
    ensures HasName(ms, name) ==>
      && Add(ms, name, v) == None && |Set(ms, name, v)| == |ms|
      && forall i :: 0 <= i < |ms| ==> Set(ms, name, v)[i] == if ms[i].name == name then Member(name, v) else ms[i]
  {
  }

  /** The last member takes the place of the one that is removed; the others stay where they are. */
  lemma RemoveKeepsOrder(ms: seq<Member>, i: nat)
    requires UniqueNames(ms) && i < |ms|
    ensures Remove(ms, ms[i].name).Some?
    ensures var r := Remove(ms, ms[i].name).value;
      && |r| == |ms| - 1
      && forall j :: 0 <= j < |r| ==> r[j] == if j == i then ms[|ms| - 1] else ms[j]
  {
    LookupUnique(ms, i);
  }
}
