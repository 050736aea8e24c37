/** JSON values as trees. Objects keep their members in insertion order and are searched by name. */
module JsonTree {
  import opened Bytes

  const DOT: byte := 46

  datatype Member = Member(name: seq<byte>, value: Json)

  datatype Json =
    | Null
    | Bool(b: bool)
    | Number(n: int)
    | String(s: seq<byte>)
    | Array(items: seq<Json>)
    | Object(members: seq<Member>)

  /** Integers of this magnitude are exact doubles, which "%1.17g" prints as plain digits. */
  const MAX_EXACT: int := 0x20_0000_0000_0000

  predicate HasName(ms: seq<Member>, name: seq<byte>)
  {
    exists i :: 0 <= i < |ms| && ms[i].name == name
  }

  predicate UniqueNames(ms: seq<Member>)
  {
    forall i, j :: 0 <= i < j < |ms| ==> ms[i].name != ms[j].name
  }

  /** The position json_object_nget_value finds: the first member of that name, |ms| when there is none. */
  function Find(ms: seq<Member>, name: seq<byte>): (k: nat)
    ensures k <= |ms|
    ensures k < |ms| ==> ms[k].name == name
    ensures forall i :: 0 <= i < k ==> ms[i].name != name
  {
    if ms == [] then 0
    else if ms[0].name == name then 0
    else 1 + Find(ms[1..], name)
  }

  /** json_object_get_value */
  function Lookup(ms: seq<Member>, name: seq<byte>): (v: Option<Json>)
    ensures v.Some? <==> HasName(ms, name)
  {
    var k := Find(ms, name);
    if k < |ms| then Some(ms[k].value) else None
  }

  /** The value found under the name of the i-th member. */
  function Named(ms: seq<Member>, i: nat): (v: Json)
    requires i < |ms|
    ensures Lookup(ms, ms[i].name) == Some(v)
  {
    ms[Find(ms, ms[i].name)].value
  }

  lemma LookupUnique(ms: seq<Member>, i: nat)
    requires UniqueNames(ms) && i < |ms|
    ensures Find(ms, ms[i].name) == i && Lookup(ms, ms[i].name) == Some(ms[i].value)
  {
  }

  /** The trees the library can build, and print and parse again: exact integers, C strings
      without NUL, and no name twice in an object. */
  predicate WellFormed(v: Json)
  {
    match v
    case Number(n) => -MAX_EXACT <= n <= MAX_EXACT
    case String(s) => 0 !in s
    case Array(items) => forall i :: 0 <= i < |items| ==> WellFormed(items[i])
    case Object(ms) =>
      UniqueNames(ms) && forall i :: 0 <= i < |ms| ==> 0 !in ms[i].name && WellFormed(ms[i].value)
    case _ => true
  }

  /** Every node of v lies at depth at most d, the root at 0. */
  predicate Fits(v: Json, d: int)
  {
    d >= 0 &&
    match v
    case Array(items) => forall i :: 0 <= i < |items| ==> Fits(items[i], d - 1)
    case Object(ms) => forall i :: 0 <= i < |ms| ==> Fits(ms[i].value, d - 1)
    case _ => true
  }
}
