/** JSON values as the linked, growable structures of parson.c. A JSON_Value and the JSON_Object or
    JSON_Array it wraps are one Node; a freed value simply leaves the structure. */
module JsonHeap {
  import opened Bytes
  import opened JsonTree
  import P = JsonPaths
  import E = JsonEquality
  import J = JsonParser

  const STARTING_CAPACITY: nat := 16

  datatype Kind = Leaf | Items | Members

  lemma AppendedUnique(ms: seq<Member>, m: Member)
    requires UniqueNames(ms) && !HasName(ms, m.name)
    ensures UniqueNames(ms + [m])
  {
  }

  lemma ReplacedUnique(ms: seq<Member>, k: nat, v: Json)
    requires UniqueNames(ms) && k < |ms|
    ensures UniqueNames(ms[k := Member(ms[k].name, v)])
  {
  }

  /** A call on an object, with any value where it takes one. */
  datatype Call = Add(name: seq<byte>, v: Json) | Set(name: seq<byte>, v: Json) | DotSet(name: seq<byte>, v: Json)
                | Remove(name: seq<byte>) | DotRemove(name: seq<byte>) | Clear
  {
    predicate Sound() { Add? || Set? || DotSet? ==> WellFormed(v) }
  }

  /** The members after one call. */
  function Called(ms: seq<Member>, c: Call): seq<Member>
  {
    match c
    case Add(name, v) => (match P.Add(ms, name, v) case None => ms case Some(ns) => ns)
    case Set(name, v) => P.Set(ms, name, v)
    case DotSet(name, v) => P.DotSet(ms, name, v, false).members
    case Remove(name) => (match P.Remove(ms, name) case None => ms case Some(ns) => ns)
    case DotRemove(name) => (match P.DotRemove(ms, name) case None => ms case Some(ns) => ns)
    case Clear => []
  }

  function CalledAll(ms: seq<Member>, cs: seq<Call>): seq<Member>
  {
    if cs == [] then ms else Called(CalledAll(ms, cs[..|cs| - 1]), cs[|cs| - 1])
  }

  lemma CalledOneMore(ms: seq<Member>, cs: seq<Call>, i: nat)
    requires i < |cs|
    ensures CalledAll(ms, cs[..i + 1]) == Called(CalledAll(ms, cs[..i]), cs[i])
  {
    assert cs[..i + 1][..i] == cs[..i];
  }

  /** Room for one more than count: the storage grows by doubling, from 16. */
  function Grow(capacity: nat, count: nat): nat
  {
    if count < capacity then capacity
    else if capacity * 2 > STARTING_CAPACITY then capacity * 2 else STARTING_CAPACITY
  }

  /** The capacity after that many additions. */
  function CapacityFor(count: nat): nat
  {
    if count == 0 then 0 else Grow(CapacityFor(count - 1), count - 1)
  }

  predicate DoubledFrom16(capacity: nat)
  {
    capacity == 16 || (capacity > 16 && capacity % 2 == 0 && DoubledFrom16(capacity / 2))
  }

  /** It is the first of 16, 32, 64 and so on that suffices. */
  lemma {:induction false} CapacitySuffices(count: nat)
    requires count > 0
    ensures var capacity := CapacityFor(count);
      DoubledFrom16(capacity) && count <= capacity && (capacity == 16 || capacity < 2 * count)
  {
    if count > 1 {
      CapacitySuffices(count - 1);
    }
  }

  class Node {
    const kind: Kind
    var scalar: Json // of a leaf
    var parent: Node?
    var names: seq<seq<byte>>
    var values: seq<Node>
    var capacity: nat
    ghost var tree: Json // the value the structure stands for
    ghost var Repr: set<Node>

    /** Below a node is a tree, every node of it linked to the one it hangs from, that stands for
        `tree`; an object pairs unique names with values; nothing is stored beyond the capacity.
        The node's own parent is not looked at. */
    ghost predicate Valid()
      reads this`scalar, this`names, this`values, this`capacity, this`tree, this`Repr
      reads Repr`scalar, Repr`names, Repr`values, Repr`capacity, Repr`tree, Repr`Repr, (Repr - {this})`parent
      ensures Valid() ==> this in Repr
      decreases Repr, 1
    {
      Held() && Means()
    }

    /** The structure, whatever this node's own value is. */
    ghost predicate Held()
      reads this`values, this`capacity, this`Repr, (Repr - {this})`parent
      reads (Repr - {this})`scalar, (Repr - {this})`names, (Repr - {this})`values
      reads (Repr - {this})`capacity, (Repr - {this})`tree, (Repr - {this})`Repr
      decreases Repr, 0
    {
      this in Repr && |values| <= capacity &&
      (forall i :: 0 <= i < |values| ==>
        values[i] in Repr && values[i].Repr <= Repr - {this} && values[i].parent == this && values[i].Valid()) &&
      (forall i, j :: 0 <= i < j < |values| ==> values[i].Repr !! values[j].Repr)
    }

    /** The value, in terms of the values one level below. */
    ghost predicate Means()
      reads this`scalar, this`names, this`values, this`tree, values`tree
    {
      match kind
      case Leaf => values == [] && tree == scalar && !tree.Array? && !tree.Object?
      case Items =>
        tree.Array? && |tree.items| == |values| && forall i :: 0 <= i < |values| ==> tree.items[i] == values[i].tree
      case Members =>
        tree.Object? && |tree.members| == |values| == |names| && UniqueNames(tree.members) &&
        forall i :: 0 <= i < |values| ==> tree.members[i] == Member(names[i], values[i].tree)
    }

    constructor (kind: Kind, v: Json)
      requires kind.Leaf? ==> !v.Array? && !v.Object?
      ensures Valid() && Repr == {this} && parent == null && this.kind == kind
      ensures tree == match kind case Leaf => v case Items => Array([]) case Members => Object([])
    {
      this.kind := kind;
      scalar, parent, names, values, capacity := v, null, [], [], 0;
      tree := match kind case Leaf => v case Items => Array([]) case Members => Object([]);
      Repr := {this};
    }

    /** json_object_nget_value: where a name is, the count when it is nowhere. */
    method IndexOf(name: seq<byte>) returns (k: nat)
      requires Valid() && kind.Members?
      ensures k == Find(tree.members, name)
    {
      k := 0;
      while k < |values|
        invariant 0 <= k <= |values|
        invariant forall i :: 0 <= i < k ==> tree.members[i].name != name
      {
        if names[k] == name {
          return;
        }
        k := k + 1;
      }
    }

    function Grown(): nat
      reads this`capacity, this`values
    {
      Grow(capacity, |values|)
    }

    /** A structure of its own, without a node of this one. */
    ghost predicate Takes(value: Node)
      reads this`Repr
      reads value`scalar, value`names, value`values, value`capacity, value`tree, value`Repr
      reads value.Repr`scalar, value.Repr`names, value.Repr`values, value.Repr`capacity, value.Repr`tree,
        value.Repr`Repr
      reads (value.Repr - {value})`parent
    {
      value.Valid() && Repr !! value.Repr
    }

    /** json_array_add */
    method AppendItem(value: Node)
      requires Valid() && kind.Items?
      modifies this, value`parent
      ensures values == old(values) + [value] && value.parent == this && capacity == old(Grown())
      ensures old(Takes(value)) ==> Valid() && Repr == old(Repr) + value.Repr && parent == old(parent)
      ensures old(Takes(value)) ==> tree == Array(old(tree.items) + [value.tree])
    {
      hide UniqueNames;
      capacity := Grown();
      value.parent := this;
      values, tree, Repr := values + [value], Array(tree.items + [value.tree]), Repr + value.Repr;
    }

    /** json_array_append_value: only a value without a parent is taken. */
    method AppendValue(value: Node) returns (ok: bool)
      requires Valid() && kind.Items?
      modifies this, value`parent
      ensures ok <==> old(value.parent) == null
      ensures ok ==> values == old(values) + [value] && value.parent == this && capacity == old(Grown())
      ensures ok && old(Takes(value)) ==> Valid() && Repr == old(Repr) + value.Repr && parent == old(parent)
      ensures ok && old(Takes(value)) ==> tree == Array(old(tree.items) + [value.tree])
      ensures !ok ==> unchanged(this) && unchanged(value)
    {
      if value.parent != null {
        return false;
      }
      AppendItem(value);
      return true;
    }

    /** The storing half of json_object_add. */
    method AppendMember(name: seq<byte>, value: Node)
      requires Valid() && kind.Members? && !HasName(tree.members, name)
      modifies this, value`parent
      ensures values == old(values) + [value] && value.parent == this && capacity == old(Grown())
      ensures old(Takes(value)) ==> Valid() && Repr == old(Repr) + value.Repr && parent == old(parent)
      ensures old(Takes(value)) ==> tree == Object(old(tree.members) + [Member(name, value.tree)])
    {
      AppendedUnique(tree.members, Member(name, value.tree));
      hide UniqueNames, Find, HasName;
      ghost var ms := tree.members + [Member(name, value.tree)];
      capacity := Grown();
      value.parent := this;
      names, values, tree, Repr := names + [name], values + [value], Object(ms), Repr + value.Repr;
    }

    /** json_object_add */
    method Add(name: seq<byte>, value: Node) returns (ok: bool)
      requires Valid() && kind.Members?
      modifies this, value`parent
      ensures ok <==> P.Add(old(tree.members), name, old(value.tree)).Some?
      ensures ok ==> values == old(values) + [value] && value.parent == this && capacity == old(Grown())
      ensures ok && old(Takes(value)) ==> Valid() && Repr == old(Repr) + value.Repr && parent == old(parent)
      ensures ok && old(Takes(value)) ==> tree == Object(P.Add(old(tree.members), name, value.tree).value)
      ensures !ok ==> unchanged(this) && unchanged(value)
    {
      var k := IndexOf(name);
      if k < |values| {
        return false;
      }
      AppendMember(name, value);
      return true;
    }

    method ReplaceMember(k: nat, value: Node)
      requires Valid() && kind.Members? && k < |values|
      modifies this, value`parent
      ensures values == old(values)[k := value] && value.parent == this
      ensures old(Takes(value)) ==> Valid() && Repr == old(Repr) + value.Repr && parent == old(parent)
      ensures old(Takes(value)) ==> tree == Object(old(tree.members)[k := Member(old(names[k]), value.tree)])
    {
      ReplacedUnique(tree.members, k, value.tree);
      hide UniqueNames;
      ghost var ms := tree.members[k := Member(names[k], value.tree)];
      value.parent := this;
      values, tree, Repr := values[k := value], Object(ms), Repr + value.Repr;
    }

    /** json_array_replace_value */
    method ReplaceItem(k: nat, value: Node) returns (ok: bool)
      requires Valid() && kind.Items?
      modifies this, value`parent
      ensures ok <==> old(value.parent) == null && k < |old(tree.items)|
      ensures ok ==> value in values && value.parent == this
      ensures ok && old(Takes(value)) ==> Valid() && Repr == old(Repr) + value.Repr && parent == old(parent)
      ensures ok && old(Takes(value)) ==> tree == Array(old(tree.items)[k := value.tree])
      ensures !ok ==> unchanged(this) && unchanged(value)
    {
      hide UniqueNames;
      if value.parent != null || k >= |values| {
        return false;
      }
      ghost var items := tree.items[k := value.tree];
      value.parent := this;
      values, tree, Repr := values[k := value], Array(items), Repr + value.Repr;
      assert values[k] == value;
      return true;
    }

    /** json_object_set_value: only a value without a parent is taken. */
    method SetValue(name: seq<byte>, value: Node) returns (ok: bool)
      requires Valid() && kind.Members?
      modifies this, value`parent
      ensures ok <==> old(value.parent) == null
      ensures ok ==> value in values && value.parent == this
      ensures ok ==> forall i :: 0 <= i < |values| ==> values[i] == value || values[i] in old(values)
      ensures ok && old(Takes(value)) ==> Valid() && Repr == old(Repr) + value.Repr && parent == old(parent)
      ensures ok && old(Takes(value)) ==> tree == Object(P.Set(old(tree.members), name, value.tree))
      ensures !ok ==> unchanged(this) && unchanged(value)
    {
      if value.parent != null {
        return false;
      }
      var k := IndexOf(name);
      if k < |values| {
        ReplaceMember(k, value);
        assert values[k] == value;
      } else {
        AppendMember(name, value);
      }
      return true;
    }

    /** The last member takes the place of the i-th. */
    method RemoveAt(i: nat)
      requires Valid() && kind.Members? && i < |values|
      modifies this`names, this`values, this`tree
      ensures Valid()
      ensures tree ==
        Object(old(tree.members)[i := old(tree.members)[|old(tree.members)| - 1]][..|old(tree.members)| - 1])
    {
      var last := |values| - 1;
      ghost var ms := tree.members[i := tree.members[last]][..last];
      assert UniqueNames(ms) by {
        assert forall j :: 0 <= j < last ==> ms[j] == if j == i then tree.members[last] else tree.members[j];
      }
      var ns, vs := names[i := names[last]][..last], values[i := values[last]][..last];
      assert forall j :: 0 <= j < last ==> vs[j] == if j == i then values[last] else values[j];
      assert forall j :: 0 <= j < last ==> ms[j] == Member(ns[j], vs[j].tree);
      assert forall j, k :: 0 <= j < k < last ==> vs[j].Repr !! vs[k].Repr;
      names, values, tree := ns, vs, Object(ms);
    }

    /** json_object_remove */
    method Remove(name: seq<byte>) returns (ok: bool)
      requires Valid() && kind.Members?
      modifies this`names, this`values, this`tree
      ensures Valid()
      ensures ok <==> P.Remove(old(tree.members), name).Some?
      ensures tree == if ok then Object(P.Remove(old(tree.members), name).value) else old(tree)
    {
      var i := IndexOf(name);
      if i == |values| {
        return false;
      }
      RemoveAt(i);
      return true;
    }

    /** json_object_clear and json_array_clear */
    method Clear()
      requires Valid() && !kind.Leaf?
      modifies this
      ensures Valid() && Repr == old(Repr) && parent == old(parent)
      ensures tree == if kind.Members? then Object([]) else Array([])
    {
      names, values := [], [];
      tree := if kind.Members? then Object([]) else Array([]);
    }

    /** json_array_remove */
    method RemoveItem(k: nat) returns (ok: bool)
      requires Valid() && kind.Items?
      modifies this
      ensures Valid() && Repr == old(Repr) && parent == old(parent) && (ok <==> k < |old(tree.items)|)
      ensures tree == if ok then Array(old(tree.items)[..k] + old(tree.items)[k + 1..]) else old(tree)
    {
      if k >= |values| {
        return false;
      }
      values := values[..k] + values[k + 1..];
      tree := Array(tree.items[..k] + tree.items[k + 1..]);
      return true;
    }
  
    /** The value is right except for the k-th member. */
    ghost predicate MeansBut(k: nat)
      reads this`names, this`values, this`tree, values`tree
    {
      k < |values| && kind.Members? &&
      tree.Object? && |tree.members| == |values| == |names| && UniqueNames(tree.members) &&
      tree.members[k].name == names[k] &&
      forall i :: 0 <= i < |values| && i != k ==> tree.members[i] == Member(names[i], values[i].tree)
    }

    /** The k-th member's structure has changed below this node. */
    ghost method Refresh(k: nat)
      requires Held() && MeansBut(k)
      modifies this`tree
      ensures Valid()
      ensures tree == Object(old(tree.members)[k := Member(names[k], values[k].tree)])
    {
      ReplacedUnique(tree.members, k, values[k].tree);
      tree := Object(tree.members[k := Member(names[k], values[k].tree)]);
    }

    /** The recursive call of json_object_dotset_value, on the k-th member. */
    method DotSetBelow(k: nat, rest: seq<byte>, value: Node) returns (ok: bool)
      requires Valid() && kind.Members? && k < |values| && values[k].kind.Members? && tree.members[k].value.Object?
      modifies Repr, value`parent
      ensures ok ==> old(value.parent) == null
      ensures !ok ==> value.parent == old(value.parent)
      ensures ok == P.DotSet(old(tree.members)[k].value.members, rest, old(value.tree), old(value.parent) != null).ok
      ensures !ok || old(Takes(value)) ==>
        var ms := old(tree.members);
        var u := P.DotSet(ms[k].value.members, rest, old(value.tree), old(value.parent) != null);
        && Valid() && parent == old(parent) && tree == Object(ms[k := Member(ms[k].name, Object(u.members))])
        && old(Repr) <= Repr && fresh(Repr - old(Repr) - if ok then old(value.Repr) else {})
      decreases |rest|, 3
    {
      hide P.DotSet, UniqueNames;
      var child := values[k];
      ghost var was, added, taken := child.Repr, value.Repr, Takes(value);
      ok := child.DotSet(rest, value);
      if !ok || taken {
        forall i | 0 <= i < |values| && i != k
          ensures values[i].Valid() && values[i].Repr !! child.Repr
        {
          assert values[i].Repr !! was && (ok ==> values[i].Repr !! added);
        }
        Repr := Repr + child.Repr;
        Refresh(k);
      }
    }

    /** The object under one name, created when the name is free. */
    method Reach(key: seq<byte>) returns (ok: bool, k: nat)
      requires Valid() && kind.Members?
      modifies this
      ensures Valid() && parent == old(parent) && old(Repr) <= Repr && fresh(Repr - old(Repr)) &&
        k == Find(old(tree.members), key)
      ensures k == |old(tree.members)| ==> ok && tree == Object(old(tree.members) + [Member(key, Object([]))])
      ensures k < |old(tree.members)| ==> tree == old(tree) && (ok <==> tree.members[k].value.Object?)
      ensures ok ==> k < |values| && values[k].kind.Members? && tree.members[k].value.Object?
    {
      k := IndexOf(key);
      ok := true;
      if k == |values| {
        var created := new Node(Members, Null);
        AppendMember(key, created);
      } else {
        assert values[k].Valid();
        ok := values[k].kind.Members?;
      }
    }

    /** json_object_dotset_value. */
    method DotSet(name: seq<byte>, value: Node) returns (ok: bool)
      requires Valid() && kind.Members?
      modifies Repr, value`parent
      ensures ok ==> old(value.parent) == null
      ensures !ok ==> value.parent == old(value.parent)
      ensures ok == P.DotSet(old(tree.members), name, old(value.tree), old(value.parent) != null).ok
      ensures !ok || old(Takes(value)) ==>
        && Valid() && parent == old(parent)
        && tree == Object(P.DotSet(old(tree.members), name, old(value.tree), old(value.parent) != null).members)
        && old(Repr) <= Repr && fresh(Repr - old(Repr) - if ok then old(value.Repr) else {})
      decreases |name|, 2
    {
      var d := P.FirstDot(name);
      if d == |name| {
        ok := SetValue(name, value);
      } else {
        ok := DotSetPast(name, d, value);
      }
    }

    method DotSetPast(name: seq<byte>, d: nat, value: Node) returns (ok: bool)
      requires Valid() && kind.Members? && d == P.FirstDot(name) < |name|
      modifies Repr, value`parent
      ensures ok ==> old(value.parent) == null
      ensures !ok ==> value.parent == old(value.parent)
      ensures ok == P.DotSet(old(tree.members), name, old(value.tree), old(value.parent) != null).ok
      ensures !ok || old(Takes(value)) ==>
        && Valid() && parent == old(parent)
        && tree == Object(P.DotSet(old(tree.members), name, old(value.tree), old(value.parent) != null).members)
        && old(Repr) <= Repr && fresh(Repr - old(Repr) - if ok then old(value.Repr) else {})
      decreases |name|, 1
    {
      hide P.DotSet, P.FirstDot, UniqueNames, Find;
      ghost var ms, v, attached, taken := tree.members, value.tree, value.parent != null, Takes(value);
      P.DotSetStep(ms, name, v, attached);
      var k;
      ok, k := Reach(name[..d]);
      if ok {
        P.RefusedAlike(tree.members[k].value.members, name[d + 1..], v, value.tree, attached);
        assert taken ==> Takes(value) && value.tree == v;
        ok := DotSetBelow(k, name[d + 1..], value);
      }
    }

    /** json_object_dotget_value; a null object has no members. */
    static method DotGet(node: Node?, name: seq<byte>) returns (r: Node?)
      requires node != null ==> node.Valid() && node.kind.Members?
      ensures var found := P.DotGet(if node == null then None else Some(node.tree.members), name);
        if r == null then found == None else r.Valid() && found == Some(r.tree)
      decreases |name|
    {
      var d := P.FirstDot(name);
      var below: Node? := null;
      if node != null {
        var k := node.IndexOf(name[..d]);
        if k < |node.values| {
          below := node.values[k];
          assert below.Valid() && node.tree.members[k].value == below.tree;
        }
      }
      if d == |name| {
        assert name[..d] == name;
        return below;
      }
      r := DotGet(if below != null && below.kind.Members? then below else null, name[d + 1..]);
    }

    /** The recursive call of json_object_dotremove, on the k-th member. */
    method DotRemoveBelow(k: nat, rest: seq<byte>) returns (ok: bool)
      requires Valid() && kind.Members? && k < |values| && values[k].kind.Members? && tree.members[k].value.Object?
      modifies Repr`names, Repr`values, Repr`tree, Repr`Repr
      ensures Valid() && Repr == old(Repr)
      ensures var ms := old(tree.members);
        var left := P.DotRemove(ms[k].value.members, rest);
        (ok <==> left.Some?) &&
        tree == if ok then Object(ms[k := Member(ms[k].name, Object(left.value))]) else old(tree)
      decreases |rest|, 2
    {
      var child := values[k];
      ghost var was, ms := child.Repr, tree.members;
      ok := child.DotRemove(rest);
      forall i | 0 <= i < |values| && i != k ensures values[i].Valid() && values[i].Repr !! child.Repr {
        assert values[i].Repr !! was;
      }
      Repr := Repr + child.Repr;
      Refresh(k);
      assert ms[k := ms[k]] == ms;
    }

    /** json_object_get_object: the place of the object under a name, if there is one. */
    method ObjectAt(key: seq<byte>) returns (ok: bool, k: nat)
      requires Valid() && kind.Members?
      ensures k == Find(tree.members, key) && (ok <==> k < |tree.members| && tree.members[k].value.Object?)
      ensures ok ==> k < |values| && values[k].kind.Members?
    {
      k := IndexOf(key);
      ok := false;
      if k < |values| {
        assert values[k].Valid();
        ok := values[k].kind.Members?;
      }
    }

    method DotRemovePast(name: seq<byte>, d: nat) returns (ok: bool)
      requires Valid() && kind.Members? && d == P.FirstDot(name) < |name|
      modifies Repr`names, Repr`values, Repr`tree, Repr`Repr
      ensures Valid() && Repr == old(Repr)
      ensures ok <==> P.DotRemove(old(tree.members), name).Some?
      ensures tree == if ok then Object(P.DotRemove(old(tree.members), name).value) else old(tree)
      decreases |name|, 0
    {
      hide P.DotRemove, P.FirstDot, UniqueNames, Find;
      P.DotRemoveStep(tree.members, name);
      var k;
      ok, k := ObjectAt(name[..d]);
      if ok {
        ok := DotRemoveBelow(k, name[d + 1..]);
      }
    }

    /** json_object_dotremove */
    method DotRemove(name: seq<byte>) returns (ok: bool)
      requires Valid() && kind.Members?
      modifies Repr`names, Repr`values, Repr`tree, Repr`Repr
      ensures Valid() && Repr == old(Repr)
      ensures ok <==> P.DotRemove(old(tree.members), name).Some?
      ensures tree == if ok then Object(P.DotRemove(old(tree.members), name).value) else old(tree)
      decreases |name|, 1
    {
      var d := P.FirstDot(name);
      if d == |name| {
        ok := Remove(name);
      } else {
        ok := DotRemovePast(name, d);
      }
    }

    /** json_value_deep_copy: an equal structure that shares no node with this one. */
    method DeepCopy() returns (copy: Node)
      requires Valid()
      ensures copy.Valid() && fresh(copy.Repr) && copy.parent == null && copy.tree == tree
      ensures WellFormed(tree) ==> E.Equals(tree, copy.tree)
      decreases Repr, 1
    {
      if WellFormed(tree) {
        E.Reflexive(tree);
      }
      match kind
      case Leaf => copy := new Node(Leaf, scalar);
      case Items => copy := CopyItems();
      case Members => copy := CopyMembers();
    }

    method CopyItems() returns (copy: Node)
      requires Valid() && kind.Items?
      ensures copy.Valid() && fresh(copy.Repr) && copy.parent == null && copy.tree == tree
      decreases Repr, 0
    {
      copy := new Node(Items, Null);
      var i := 0;
      while i < |values|
        invariant 0 <= i <= |values|
        invariant copy.Valid() && fresh(copy.Repr) && copy.parent == null && copy.kind == Items
        invariant copy.tree == Array(tree.items[..i])
      {
        var c := values[i].DeepCopy();
        copy.AppendItem(c);
        assert tree.items[..i + 1] == tree.items[..i] + [tree.items[i]];
        i := i + 1;
      }
      assert tree.items[..i] == tree.items;
    }

    method CopyMembers() returns (copy: Node)
      requires Valid() && kind.Members?
      ensures copy.Valid() && fresh(copy.Repr) && copy.parent == null && copy.tree == tree
      decreases Repr, 0, 1
    {
      copy := new Node(Members, Null);
      var i := 0;
      while i < |values|
        invariant 0 <= i <= |values|
        invariant copy.Valid() && fresh(copy.Repr) && copy.parent == null && copy.kind == Members
        invariant copy.tree == Object(tree.members[..i])
      {
        var c := CopyMember(i);
        assert !HasName(tree.members[..i], names[i]);
        var ok := copy.Add(names[i], c);
        assert tree.members[..i + 1] == tree.members[..i] + [tree.members[i]];
        i := i + 1;
      }
      assert tree.members[..i] == tree.members;
    }

    /** The value of the i-th member, found under its name, copied. */
    method CopyMember(i: nat) returns (copy: Node)
      requires Valid() && kind.Members? && i < |values|
      ensures copy.Valid() && fresh(copy.Repr) && copy.parent == null && copy.tree == tree.members[i].value
      decreases Repr, 0, 0
    {
      LookupUnique(tree.members, i);
      var k := IndexOf(names[i]);
      copy := values[k].DeepCopy();
    }

    /** A structure that stands for a tree, made by the library's own calls, from the leaves up. */
    static method Build(v: Json) returns (n: Node)
      requires WellFormed(v)
      ensures n.Valid() && fresh(n.Repr) && n.parent == null && n.tree == v
      decreases v, 1
    {
      match v
      case Array(items) => n := BuildItems(items);
      case Object(ms) => n := BuildMembers(ms);
      case _ => n := new Node(Leaf, v);
    }

    static method BuildItems(items: seq<Json>) returns (n: Node)
      requires forall i :: 0 <= i < |items| ==> WellFormed(items[i])
      ensures n.Valid() && fresh(n.Repr) && n.parent == null && n.tree == Array(items)
      decreases items, 0
    {
      n := new Node(Items, Null);
      var i := 0;
      while i < |items|
        invariant 0 <= i <= |items| && n.Valid() && fresh(n.Repr) && n.parent == null && n.kind == Items
        invariant n.tree == Array(items[..i])
      {
        var c := Build(items[i]);
        n.AppendItem(c);
        assert items[..i + 1] == items[..i] + [items[i]];
        i := i + 1;
      }
      assert items[..i] == items;
    }

    static method BuildMembers(ms: seq<Member>) returns (n: Node)
      requires UniqueNames(ms) && forall i :: 0 <= i < |ms| ==> WellFormed(ms[i].value)
      ensures n.Valid() && fresh(n.Repr) && n.parent == null && n.tree == Object(ms)
      decreases ms, 0
    {
      n := new Node(Members, Null);
      var i := 0;
      while i < |ms|
        invariant 0 <= i <= |ms| && n.Valid() && fresh(n.Repr) && n.parent == null && n.kind == Members
        invariant n.tree == Object(ms[..i])
      {
        var c := Build(ms[i].value);
        assert !HasName(ms[..i], ms[i].name);
        var _ := n.Add(ms[i].name, c);
        assert ms[..i + 1] == ms[..i] + [ms[i]];
        i := i + 1;
      }
      assert ms[..i] == ms;
    }

    /** json_parse_string: a valid structure that stands for what was parsed, or nothing. */
    static method ParseText(text: seq<byte>) returns (r: J.Parse, n: Node?)
      requires 0 !in text
      ensures r == J.ParseString(text) && (n != null <==> r.Parsed?)
      ensures n != null ==> n.Valid() && fresh(n.Repr) && n.parent == null && n.tree == r.value
    {
      var s := if [0xEF, 0xBB, 0xBF] <= text then text[3..] else text;
      r := J.ParseAny(s, 0);
      n := null;
      if r.Parsed? {
        J.ParsedIsGood(s, 0);
        n := Build(r.value);
      }
    }

    /** One call. */
    method Perform(c: Call)
      requires Valid() && kind.Members? && c.Sound()
      modifies Repr
      ensures Valid() && parent == old(parent) && old(Repr) <= Repr && fresh(Repr - old(Repr))
      ensures tree == Object(Called(old(tree.members), c))
    {
      hide P.DotSet, P.DotRemove, P.Set, P.Add, P.Remove, UniqueNames;
      match c
      case Add(name, v) =>
        var value := Build(v);
        var _ := this.Add(name, value);
      case Set(name, v) =>
        var value := Build(v);
        var _ := SetValue(name, value);
      case DotSet(name, v) =>
        var value := Build(v);
        var _ := this.DotSet(name, value);
      case Remove(name) =>
        var _ := this.Remove(name);
      case DotRemove(name) =>
        var _ := this.DotRemove(name);
      case Clear =>
        this.Clear();
    }

    /** Any sequence of calls leaves a valid structure that stands for the members after these calls. */
    method PerformAll(cs: seq<Call>)
      requires Valid() && kind.Members? && forall i :: 0 <= i < |cs| ==> cs[i].Sound()
      modifies Repr
      ensures Valid() && parent == old(parent) && old(Repr) <= Repr && fresh(Repr - old(Repr))
      ensures tree == Object(CalledAll(old(tree.members), cs))
    {
      hide Called;
      var i := 0;
      while i < |cs|
        invariant 0 <= i <= |cs| && Valid() && parent == old(parent) && old(Repr) <= Repr && fresh(Repr - old(Repr))
        invariant tree == Object(CalledAll(old(tree.members), cs[..i]))
      {
        Perform(cs[i]);
        CalledOneMore(old(tree.members), cs, i);
        i := i + 1;
      }
      assert cs[..i] == cs;
    }
  }

  // ---- a value that holds the object it is put into ----

  /** At most k links lead from a down to b. */
  ghost predicate Reaches(a: Node, b: Node, k: nat)
    reads *
    decreases k
  {
    a == b || (k > 0 && exists i :: 0 <= i < |a.values| && Reaches(a.values[i], b, k - 1))
  }

  ghost predicate Holds(a: Node, b: Node)
    reads *
  {
    exists k: nat :: Reaches(a, b, k)
  }

  /** It hangs below itself. */
  ghost predicate OnCycle(o: Node)
    reads *
  {
    exists i :: 0 <= i < |o.values| && Holds(o.values[i], o)
  }

  lemma {:induction false} ReachedIsInRepr(a: Node, b: Node, k: nat)
    requires a.Valid() && Reaches(a, b, k)
    ensures b in a.Repr
    decreases k
  {
    if a != b {
      var i :| 0 <= i < |a.values| && Reaches(a.values[i], b, k - 1);
      assert a.Held();
      ReachedIsInRepr(a.values[i], b, k - 1);
    }
  }

  /** No structure with a cycle is valid, whatever its ghost fields say. */
  lemma NoCycle(o: Node)
    requires OnCycle(o)
    ensures !o.Valid()
  {
    if o.Valid() {
      assert o.Held();
      var i :| 0 <= i < |o.values| && Holds(o.values[i], o);
      var k: nat :| Reaches(o.values[i], o, k);
      ReachedIsInRepr(o.values[i], o, k);
      assert false;
    }
  }

  /** The links from a down to b, which comes only at the end. */
  ghost predicate PathTo(path: seq<Node>, a: Node, b: Node)
    reads path
  {
    && path != [] && path[0] == a && path[|path| - 1] == b
    && forall i :: 0 <= i < |path| - 1 ==> path[i] != b && path[i + 1] in path[i].values
  }

  lemma {:induction false} PathOf(a: Node, b: Node, k: nat) returns (path: seq<Node>)
    requires Reaches(a, b, k)
    ensures PathTo(path, a, b)
    decreases k
  {
    if a == b {
      path := [a];
    } else {
      var i :| 0 <= i < |a.values| && Reaches(a.values[i], b, k - 1);
      path := PathOf(a.values[i], b, k - 1);
      path := [a] + path;
    }
  }

  lemma {:induction false} ReachesAlong(path: seq<Node>, a: Node, b: Node)
    requires PathTo(path, a, b)
    ensures Reaches(a, b, |path| - 1)
    decreases |path|
  {
    if |path| > 1 {
      ReachesAlong(path[1..], path[1], b);
      var i :| 0 <= i < |a.values| && a.values[i] == path[1];
      assert Reaches(a.values[i], b, |path| - 2);
    }
  }

  lemma HoldsByPath(a: Node, b: Node)
    ensures Holds(a, b) <==> exists path :: PathTo(path, a, b)
  {
    if k: nat :| Reaches(a, b, k) {
      var path := PathOf(a, b, k);
    }
    if path :| PathTo(path, a, b) {
      ReachesAlong(path, a, b);
    }
  }

  /** json_object_set_value does not look for a value that holds the object: the object hangs below itself
      afterwards exactly when it did hang below the value before. */
  method SetHolder(o: Node, name: seq<byte>, value: Node) returns (ok: bool)
    requires o.Valid() && o.kind.Members? && value.parent == null
    modifies o, value`parent
    ensures ok && value in o.values && value.parent == o
    ensures OnCycle(o) <==> old(Holds(value, o))
    ensures old(Holds(value, o)) ==> !o.Valid()
  {
    ghost var held, path := Holds(value, o), [];
    HoldsByPath(value, o);
    if held {
      path :| PathTo(path, value, o);
    }
    forall v | v in o.values ensures forall p :: !PathTo(p, v, o) {
      HoldsByPath(v, o);
      if OnCycle(o) {
        NoCycle(o);
      }
    }
    ok := o.SetValue(name, value);
    if held {
      assert PathTo(path, value, o);
      HoldsByPath(value, o);
      NoCycle(o);
    } else if OnCycle(o) {
      ghost var v :| v in o.values && Holds(v, o);
      HoldsByPath(v, o);
      path :| PathTo(path, v, o);
      ghost var j := 0;
      while j < |path| - 1
        invariant 0 <= j < |path| && forall i :: 0 <= i <= j ==> old(allocated(path[i]))
      {
        assert path[j + 1] in old(path[j].values);
        j := j + 1;
      }
      assert old(PathTo(path, v, o));
      assert false;
    }
  }

  /** The smallest such value is the object itself. */
  method SetItself(o: Node, name: seq<byte>) returns (ok: bool)
    requires o.Valid() && o.kind.Members? && o.parent == null
    modifies o
    ensures ok && o in o.values && o.parent == o && OnCycle(o) && !o.Valid()
  {
    assert Reaches(o, o, 0);
    ok := SetHolder(o, name, o);
  }
}
