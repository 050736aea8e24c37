/** The text the serializer writes, byte by byte, as a text of the grammar: where it puts white space, and how it
    spells strings and numbers. */
module JsonLayout {
  import opened Bytes
  import opened JsonTree
  import opened JsonPrinter
  import opened JsonParser
  import opened JsonGrammar
  import opened Sequences
  import RT = JsonRoundTrip
  import JsonString
  import S = JsonSpelling

  /** A new line and four spaces a level, or nothing. */
  function Break(level: nat, pretty: bool): (w: seq<byte>)
    ensures Blank(w)
  {
    if pretty then [10] + seq(4 * level, _ => 32) else []
  }

  /** A value without white space in front of it; every item and member, and the closing bracket, has a line of its own
      when it is to be pretty, and a space behind the colon. */
  function Layout(v: Json, level: nat, pretty: bool): (d: Doc)
    requires WellFormed(v)
    decreases v, 0
  {
    match v
    case Null => NullDoc([])
    case Bool(b) => if b then TrueDoc([]) else FalseDoc([])
    case Number(n) => NumberDoc([], n < 0, Digits(if n < 0 then -n else n))
    case String(s) => StringDoc([], S.AllWritten(s))
    case Array(items) => ArrayDoc([], [], ItemsLayout(items, 0, level, pretty))
    case Object(ms) => ObjectDoc([], [], MembersLayout(ms, 0, level, pretty))
  }

  function ItemsLayout(items: seq<Json>, i: nat, level: nat, pretty: bool): (ds: seq<ItemDoc>)
    requires WellFormed(Array(items)) && i <= |items|
    ensures |ds| == |items| - i
    decreases items, |items| - i
  {
    if i == |items| then []
    else
      [ItemDoc(Layout(items[i], level + 1, pretty).(ws := Break(level + 1, pretty)),
               if i + 1 == |items| then Break(level, pretty) else [])] +
      ItemsLayout(items, i + 1, level, pretty)
  }

  function MembersLayout(ms: seq<Member>, i: nat, level: nat, pretty: bool): (ds: seq<MemberDoc>)
    requires WellFormed(Object(ms)) && i <= |ms|
    ensures |ds| == |ms| - i
    decreases ms, |ms| - i
  {
    if i == |ms| then []
    else
      [MemberDoc(Break(level + 1, pretty), S.AllWritten(ms[i].name), [],
                 Layout(ms[i].value, level + 1, pretty).(ws := if pretty then [32] else []),
                 if i + 1 == |ms| then Break(level, pretty) else [])] +
      MembersLayout(ms, i + 1, level, pretty)
  }

  lemma {:induction false} IndentIsSpaces(level: nat)
    ensures Indent(level) == seq(4 * level, _ => 32 as byte)
  {
    if level > 0 {
      IndentIsSpaces(level - 1);
    }
  }

  lemma BreakIs(level: nat, pretty: bool)
    ensures Break(level, pretty) == Newline(pretty) + if pretty then Indent(level) else []
  {
    IndentIsSpaces(level);
  }

  lemma NumberLayout(n: int)
    requires -MAX_EXACT <= n <= MAX_EXACT
    ensures var d := Layout(Number(n), 0, false);
      Valid(d) && Meaning(d) == Number(n) && Core(d) == PrintNumber(n)
  {
    hide ValueOf, Digits, DigitsValue;
    var m := if n < 0 then -n else n;
    RT.DigitsAreDigits(m);
    RT.ValueOfDigits(m);
    ValuesAgree(Digits(m));
    assert forall i :: 0 <= i < |Digits(m)| ==> IsDigit(Digits(m)[i]);
    LongNumber(m);
  }

  lemma LongNumber(n: nat)
    ensures |Digits(n)| > 1 ==> n > 0
  {
  }

  lemma StringLayout(s: seq<byte>)
    requires 0 !in s
    ensures S.AllAllowed(S.AllWritten(s)) && CString(S.Meanings(S.AllWritten(s))) == s
    ensures [34] + S.Texts(S.AllWritten(s)) + [34] == JsonString.PrintString(s)
  {
    S.EscapedIsWritten(s);
    WrittenMeans(s);
    CStringNoNul(s);
  }

  lemma {:induction false} WrittenMeans(s: seq<byte>)
    requires 0 !in s
    ensures S.Meanings(S.AllWritten(s)) == s
  {
    if s != [] {
      WrittenMeans(s[1..]);
      assert S.AllWritten(s)[1..] == S.AllWritten(s[1..]);
      assert S.Meaning(S.Written(s[0])) == [s[0]];
      assert s == [s[0]] + s[1..];
    }
  }

  // ---- items ----

  /** An item in the middle, or the last one, with the line break in front of it. */
  lemma ItemParts(pretty: bool, indent: seq<byte>, p: seq<byte>, last: bool, more: seq<byte>, close: seq<byte>)
    requires !pretty ==> indent == [] && close == []
    requires last ==> more == []
    ensures Newline(pretty) + ((indent + p + After(last, pretty)) + more) + close ==
      (Newline(pretty) + indent) + p +
      if last then Newline(pretty) + close else [44] + (Newline(pretty) + more + close)
  {
    if last {
      assert After(last, pretty) == Newline(pretty);
    } else {
      assert After(last, pretty) == [44] + Newline(pretty);
    }
  }

  lemma {:induction false} ItemsLayoutIs(items: seq<Json>, i: nat, level: nat, pretty: bool)
    requires WellFormed(Array(items)) && i < |items|
    ensures var ds := ItemsLayout(items, i, level, pretty);
      && ItemsValid(ds) && ItemValues(ds) == items[i..]
      && ItemsText(ds) == Newline(pretty) + PrintItems(items, i, level, pretty) + Close(false, level, pretty)
    decreases items, |items| - i
  {
    hide Valid, Core, Meaning, Layout, Print, Break, ItemsLayout, PrintItems, ItemsValid, ItemsText, ItemValues;
    hide After, Newline;
    var last := i + 1 == |items|;
    LayoutIs(items[i], level + 1, pretty);
    var ds := ItemsLayout(items, i, level, pretty);
    var more := ItemsLayout(items, i + 1, level, pretty);
    if !last {
      ItemsLayoutIs(items, i + 1, level, pretty);
    }
    ItemsLayoutStep(items, i, level, pretty);
    ItemsLine(items, i, level, pretty, if last then [] else ItemsText(more));
    assert items[i..] == [items[i]] + items[i + 1..];
  }

  /** The text of the items from the i-th on, out of the text of the others. */
  lemma ItemsLine(items: seq<Json>, i: nat, level: nat, pretty: bool, more: seq<byte>)
    requires WellFormed(Array(items)) && i < |items|
    requires i + 1 < |items| ==>
      more == Newline(pretty) + PrintItems(items, i + 1, level, pretty) + Close(false, level, pretty)
    ensures Newline(pretty) + PrintItems(items, i, level, pretty) + Close(false, level, pretty) ==
      Break(level + 1, pretty) + Print(items[i], level + 1, pretty) +
      (if i + 1 == |items| then Break(level, pretty) else [44] + more)
  {
    hide Print, PrintItems, After, Newline, Break, Indent;
    ItemsStep(items, i, level, pretty);
    ItemsStep(items, i + 1, level, pretty);
    BreakIs(level + 1, pretty);
    BreakIs(level, pretty);
    ItemParts(pretty, Before(level, pretty), Print(items[i], level + 1, pretty), i + 1 == |items|,
              PrintItems(items, i + 1, level, pretty), Close(false, level, pretty));
  }

  lemma ConsItem(m: ItemDoc, more: seq<ItemDoc>)
    requires Valid(m.doc) && !m.doc.BareMinusDoc? && Blank(m.after) && ItemsValid(more)
    ensures var ds := [m] + more;
      && ItemsValid(ds) && ItemValues(ds) == [Meaning(m.doc)] + ItemValues(more)
      && ItemsText(ds) == Text(m.doc) + m.after + if more == [] then [] else [44] + ItemsText(more)
  {
    hide Text, Valid, Meaning, Blank;
    assert ([m] + more)[1..] == more;
  }

  lemma NoItems()
    ensures ItemsValid([]) && ItemValues([]) == []
  {
  }

  /** The first of the items from i on, and the others. */
  lemma ItemsLayoutStep(items: seq<Json>, i: nat, level: nat, pretty: bool)
    requires WellFormed(Array(items)) && i < |items|
    requires var d := Layout(items[i], level + 1, pretty);
      Valid(d) && !d.BareMinusDoc? && Meaning(d) == items[i] && Core(d) == Print(items[i], level + 1, pretty)
    requires var more := ItemsLayout(items, i + 1, level, pretty);
      i + 1 < |items| ==> ItemsValid(more) && ItemValues(more) == items[i + 1..]
    ensures var ds, last := ItemsLayout(items, i, level, pretty), i + 1 == |items|;
      && ItemsValid(ds) && ItemValues(ds) == [items[i]] + items[i + 1..]
      && (last || ItemsValid(ItemsLayout(items, i + 1, level, pretty)))
      && ItemsText(ds) == Break(level + 1, pretty) + Print(items[i], level + 1, pretty) +
           (if last then Break(level, pretty) else [44] + ItemsText(ItemsLayout(items, i + 1, level, pretty)))
  {
    hide Print, Break, Layout, ItemsValid, ItemsText, ItemValues, Valid, Core, Meaning, Text;
    var d := Layout(items[i], level + 1, pretty);
    var more := ItemsLayout(items, i + 1, level, pretty);
    var after := if i + 1 == |items| then Break(level, pretty) else [];
    PlacedIs(d, Break(level + 1, pretty));
    NoItems();
    assert i + 1 == |items| ==> items[i + 1..] == [];
    ConsItem(ItemDoc(d.(ws := Break(level + 1, pretty)), after), more);
    Tails(Break(level + 1, pretty) + Core(d), after, i + 1 == |items|,
          if more == [] then [] else [44] + ItemsText(more));
  }

  lemma Tails(a: seq<byte>, after: seq<byte>, last: bool, more: seq<byte>)
    requires if last then more == [] else after == []
    ensures a + after + more == a + if last then after else more
  {
  }

  /** White space in front of a value. */
  lemma PlacedIs(d: Doc, w: seq<byte>)
    requires Valid(d) && Blank(w)
    ensures var p := d.(ws := w);
      Valid(p) && Meaning(p) == Meaning(d) && Core(p) == Core(d) && Text(p) == w + Core(d) &&
      (p.BareMinusDoc? <==> d.BareMinusDoc?)
  {
    hide ItemsValid, MembersValid, ItemsText, MembersText, ItemValues, MemberValues, IsNumber, NameOf;
  }

  // ---- members ----

  lemma MemberParts(pretty: bool, indent: seq<byte>, k: seq<byte>, p: seq<byte>, last: bool, more: seq<byte>,
                    close: seq<byte>)
    requires !pretty ==> indent == [] && close == []
    requires last ==> more == []
    ensures Newline(pretty) + ((indent + k + Gap(pretty) + p + After(last, pretty)) + more) + close ==
      (Newline(pretty) + indent) + k + [58] + ((if pretty then [32] else []) + p) +
      if last then Newline(pretty) + close else [44] + (Newline(pretty) + more + close)
  {
    if last {
      assert After(last, pretty) == Newline(pretty);
    } else {
      assert After(last, pretty) == [44] + Newline(pretty);
    }
  }

  lemma {:induction false} MembersLayoutIs(ms: seq<Member>, i: nat, level: nat, pretty: bool)
    requires WellFormed(Object(ms)) && i < |ms|
    ensures var ds := MembersLayout(ms, i, level, pretty);
      && MembersValid(ds) && MemberValues(ds) == ms[i..]
      && (forall j :: 0 <= j < |ds| ==> NameOf(ds[j]) == ms[i + j].name)
      && MembersText(ds) == Newline(pretty) + PrintMembers(ms, i, level, pretty) + Close(false, level, pretty)
    decreases ms, |ms| - i
  {
    hide Valid, Core, Meaning, Layout, Print, Break, MembersLayout, PrintMembers, MembersValid;
    hide MembersText, MemberValues, After, Newline, Gap, NameOf, PrintMember, Before, Close, JsonString.PrintString;
    var last := i + 1 == |ms|;
    LayoutIs(ms[i].value, level + 1, pretty);
    var more := MembersLayout(ms, i + 1, level, pretty);
    if !last {
      MembersLayoutIs(ms, i + 1, level, pretty);
    }
    MembersLayoutStep(ms, i, level, pretty);
    MembersLine(ms, i, level, pretty, if last then [] else MembersText(more));
    assert ms[i..] == [ms[i]] + ms[i + 1..];
  }

  /** The text of the members from the i-th on, out of the text of the others. */
  lemma MembersLine(ms: seq<Member>, i: nat, level: nat, pretty: bool, more: seq<byte>)
    requires WellFormed(Object(ms)) && i < |ms|
    requires i + 1 < |ms| ==>
      more == Newline(pretty) + PrintMembers(ms, i + 1, level, pretty) + Close(false, level, pretty)
    ensures Newline(pretty) + PrintMembers(ms, i, level, pretty) + Close(false, level, pretty) ==
      Break(level + 1, pretty) + JsonString.PrintString(ms[i].name) + [58] +
      ((if pretty then [32] else []) + Print(ms[i].value, level + 1, pretty)) +
      (if i + 1 == |ms| then Break(level, pretty) else [44] + more)
  {
    hide Print, PrintMembers, After, Newline, Gap, Before, Close, JsonString.PrintString, Break, Indent;
    PrintedMembers(ms, i, level, pretty);
    BreakIs(level + 1, pretty);
    BreakIs(level, pretty);
    MemberParts(pretty, Before(level, pretty), JsonString.PrintString(ms[i].name),
                Print(ms[i].value, level + 1, pretty), i + 1 == |ms|, PrintMembers(ms, i + 1, level, pretty),
                Close(false, level, pretty));
  }

  /** The members from the i-th on as they are printed. */
  lemma PrintedMembers(ms: seq<Member>, i: nat, level: nat, pretty: bool)
    requires WellFormed(Object(ms)) && i < |ms|
    ensures PrintMembers(ms, i, level, pretty) ==
      (Before(level, pretty) + JsonString.PrintString(ms[i].name) + Gap(pretty) +
       Print(ms[i].value, level + 1, pretty) + After(i + 1 == |ms|, pretty)) + PrintMembers(ms, i + 1, level, pretty)
    ensures i + 1 == |ms| ==> PrintMembers(ms, i + 1, level, pretty) == []
    ensures Before(level, pretty) == (if pretty then Indent(level + 1) else [])
    ensures Close(false, level, pretty) == (if pretty then Indent(level) else [])
  {
    hide Print, PrintMembers, JsonString.PrintString, Indent;
    MembersStep(ms, i, level, pretty);
    MembersStep(ms, i + 1, level, pretty);
    LookupUnique(ms, i);
  }

  lemma ConsMember(m: MemberDoc, more: seq<MemberDoc>)
    requires Blank(m.before) && S.AllAllowed(m.name) && Blank(m.colon) && Valid(m.doc) && !m.doc.BareMinusDoc?
    requires Blank(m.after) && MembersValid(more)
    ensures var ds := [m] + more;
      && MembersValid(ds) && MemberValues(ds) == [Member(NameOf(m), Meaning(m.doc))] + MemberValues(more)
      && MembersText(ds) == m.before + ([34] + S.Texts(m.name) + [34]) + m.colon + [58] + Text(m.doc) + m.after +
           if more == [] then [] else [44] + MembersText(more)
  {
    hide Text, Valid, Meaning, Blank, NameOf, S.Texts, S.AllAllowed;
    assert ([m] + more)[1..] == more;
  }

  lemma NoMembers()
    ensures MembersValid([]) && MemberValues([]) == []
  {
  }

  lemma WithoutColon(a: seq<byte>, d: seq<byte>)
    ensures a + [] + [58] + d == a + [58] + d
  {
  }

  lemma MembersLayoutStep(ms: seq<Member>, i: nat, level: nat, pretty: bool)
    requires WellFormed(Object(ms)) && i < |ms|
    requires var d := Layout(ms[i].value, level + 1, pretty);
      Valid(d) && !d.BareMinusDoc? && Meaning(d) == ms[i].value && Core(d) == Print(ms[i].value, level + 1, pretty)
    requires var more := MembersLayout(ms, i + 1, level, pretty);
      i + 1 < |ms| ==> MembersValid(more) && MemberValues(more) == ms[i + 1..] &&
                       forall j :: 0 <= j < |more| ==> NameOf(more[j]) == ms[i + 1 + j].name
    ensures var ds, last := MembersLayout(ms, i, level, pretty), i + 1 == |ms|;
      && MembersValid(ds) && MemberValues(ds) == [ms[i]] + ms[i + 1..]
      && (forall j :: 0 <= j < |ds| ==> NameOf(ds[j]) == ms[i + j].name)
      && (last || MembersValid(MembersLayout(ms, i + 1, level, pretty)))
      && MembersText(ds) == Break(level + 1, pretty) + JsonString.PrintString(ms[i].name) + [58] +
           ((if pretty then [32] else []) + Print(ms[i].value, level + 1, pretty)) +
           (if last then Break(level, pretty) else [44] + MembersText(MembersLayout(ms, i + 1, level, pretty)))
  {
    hide Print, Break, Layout, MembersValid, MembersText, MemberValues, Valid, Core, Meaning, Text, NameOf;
    hide JsonString.PrintString, S.Texts, S.AllWritten, S.Meanings, S.AllAllowed;
    var d := Layout(ms[i].value, level + 1, pretty);
    var more := MembersLayout(ms, i + 1, level, pretty);
    var after := if i + 1 == |ms| then Break(level, pretty) else [];
    var gap := if pretty then [32] else [];
    PlacedIs(d, gap);
    StringLayout(ms[i].name);
    NoMembers();
    assert i + 1 == |ms| ==> ms[i + 1..] == [];
    var m := MemberDoc(Break(level + 1, pretty), S.AllWritten(ms[i].name), [], d.(ws := gap), after);
    NameIs(m);
    ConsMember(m, more);
    var a := Break(level + 1, pretty) + JsonString.PrintString(ms[i].name);
    WithoutColon(a, gap + Core(d));
    Tails(a + [58] + (gap + Core(d)), after, i + 1 == |ms|, if more == [] then [] else [44] + MembersText(more));
    assert forall j :: 0 < j < 1 + |more| ==> ([m] + more)[j] == more[j - 1];
  }

  // ---- values ----

  predicate IsLayout(d: Doc, v: Json, level: nat, pretty: bool)
  {
    Valid(d) && !d.BareMinusDoc? && d.ws == [] && Meaning(d) == v && Core(d) == Print(v, level, pretty)
  }

  lemma LeafLayoutIs(v: Json, level: nat, pretty: bool)
    requires WellFormed(v) && !v.Array? && !v.Object?
    ensures IsLayout(Layout(v, level, pretty), v, level, pretty)
  {
    hide JsonString.PrintString, S.Texts, S.AllWritten, S.Meanings, S.AllAllowed, PrintNumber, IsNumber, CString;
    if v.Number? {
      NumberLayout(v.n);
    } else if v.String? {
      StringLayout(v.s);
    }
  }

  lemma ArrayLayoutIs(items: seq<Json>, level: nat, pretty: bool)
    requires WellFormed(Array(items))
    ensures IsLayout(Layout(Array(items), level, pretty), Array(items), level, pretty)
    decreases items, |items| + 1
  {
    hide Print, ItemsLayout, PrintItems, ItemsText, ItemsValid, ItemValues;
    if items == [] {
      EmptyLayout(level, pretty);
      assert [91] + [] + [93] == [91, 93];
    } else {
      ItemsLayoutIs(items, 0, level, pretty);
      ArrayLayout(items, level, pretty);
    }
  }

  lemma ObjectLayoutIs(ms: seq<Member>, level: nat, pretty: bool)
    requires WellFormed(Object(ms))
    ensures IsLayout(Layout(Object(ms), level, pretty), Object(ms), level, pretty)
    decreases ms, |ms| + 1
  {
    hide Print, MembersLayout, PrintMembers, MembersText, MembersValid, MemberValues, NameOf;
    if ms == [] {
      EmptyLayout(level, pretty);
      assert [123] + [] + [125] == [123, 125];
    } else {
      MembersLayoutIs(ms, 0, level, pretty);
      ObjectLayout(ms, level, pretty);
    }
  }

  /** The serializer writes the layout of a value, which is a text of the grammar for that value. */
  lemma {:induction false} LayoutIs(v: Json, level: nat, pretty: bool)
    requires WellFormed(v)
    ensures IsLayout(Layout(v, level, pretty), v, level, pretty)
    decreases v, 0
  {
    hide Layout, IsLayout;
    match v
    case Array(items) => ArrayLayoutIs(items, level, pretty);
    case Object(ms) => ObjectLayoutIs(ms, level, pretty);
    case _ => LeafLayoutIs(v, level, pretty);
  }

  lemma EmptyLayout(level: nat, pretty: bool)
    ensures ItemsLayout([], 0, level, pretty) == [] && MembersLayout([], 0, level, pretty) == []
    ensures ItemsValid([]) && MembersValid([]) && ItemValues([]) == [] && MemberValues([]) == []
    ensures Print(Array([]), level, pretty) == [91, 93] && Print(Object([]), level, pretty) == [123, 125]
  {
  }

  lemma ArrayLayout(items: seq<Json>, level: nat, pretty: bool)
    requires items != []
    ensures items[0..] == items && Print(Array(items), level, pretty) ==
      [91] + (Newline(pretty) + PrintItems(items, 0, level, pretty) + Close(false, level, pretty)) + [93]
  {
    hide PrintItems;
  }

  lemma ObjectLayout(ms: seq<Member>, level: nat, pretty: bool)
    requires ms != []
    ensures ms[0..] == ms && Print(Object(ms), level, pretty) ==
      [123] + (Newline(pretty) + PrintMembers(ms, 0, level, pretty) + Close(false, level, pretty)) + [125]
  {
    hide PrintMembers;
  }

  /** What json_serialize_to_string and its pretty form write. */
  lemma PrintIsLayout(v: Json, pretty: bool)
    requires WellFormed(v)
    ensures var d := Layout(v, 0, pretty); Valid(d) && Meaning(d) == v && Print(v, 0, pretty) == Text(d)
  {
    hide Print, Core, Valid, Meaning, Layout;
    LayoutIs(v, 0, pretty);
    var d := Layout(v, 0, pretty);
    assert [] + Core(d) == Core(d);
  }
}
