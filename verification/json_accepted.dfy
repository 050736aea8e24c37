/** What the parser accepts is a text of the grammar, so the two agree on every text. */
module JsonAccepted {
  import opened Bytes
  import opened JsonTree
  import opened JsonString
  import opened JsonPrinter
  import opened JsonParser
  import opened JsonGrammar
  import opened Sequences
  import S = JsonSpelling

  // ---- white space in front ----

  /** More white space in front of a text. */
  function Moved(d: Doc, w: seq<byte>): Doc { d.(ws := w + d.ws) }

  lemma MovedIs(d: Doc, w: seq<byte>)
    requires Valid(d) && Blank(w)
    ensures Valid(Moved(d, w)) && Text(Moved(d, w)) == w + Text(d) && Meaning(Moved(d, w)) == Meaning(d)
    ensures Moved(d, w).BareMinusDoc? <==> d.BareMinusDoc?
    ensures forall rest :: Ends(Moved(d, w), rest) <==> Ends(d, rest)
  {
    hide ItemsValid, MembersValid, ItemsText, MembersText, ItemValues, MemberValues, IsNumber, NameOf;
    Concat3(w, d.ws, Core(d));
  }

  function ItemsMoved(items: seq<ItemDoc>, w: seq<byte>): (r: seq<ItemDoc>)
    requires items != []
    ensures |r| == |items|
  {
    [ItemDoc(Moved(items[0].doc, w), items[0].after)] + items[1..]
  }

  lemma ItemsMovedIs(items: seq<ItemDoc>, w: seq<byte>)
    requires items != [] && ItemsValid(items) && Blank(w)
    ensures ItemsValid(ItemsMoved(items, w)) && ItemsText(ItemsMoved(items, w)) == w + ItemsText(items)
    ensures ItemValues(ItemsMoved(items, w)) == ItemValues(items)
  {
    hide Text, Valid, Meaning, Moved;
    MovedIs(items[0].doc, w);
    var r := ItemsMoved(items, w);
    assert r[1..] == items[1..];
    var more := if |items| == 1 then [] else [44] + ItemsText(items[1..]);
    Concat4(w, Text(items[0].doc), items[0].after, more);
  }

  function MembersMoved(ms: seq<MemberDoc>, w: seq<byte>): (r: seq<MemberDoc>)
    requires ms != []
    ensures |r| == |ms|
  {
    [ms[0].(before := w + ms[0].before)] + ms[1..]
  }

  lemma MembersMovedIs(ms: seq<MemberDoc>, w: seq<byte>, rest: seq<byte>)
    requires ms != [] && MembersValid(ms) && Blank(w)
    ensures MembersValid(MembersMoved(ms, w)) && MemberValues(MembersMoved(ms, w)) == MemberValues(ms)
    ensures MembersText(MembersMoved(ms, w)) + ([125] + rest) == w + (MembersText(ms) + ([125] + rest))
    ensures forall i :: 0 <= i < |ms| ==> NameOf(MembersMoved(ms, w)[i]) == NameOf(ms[i])
  {
    hide Valid, Meaning, MembersText, MemberAnd, BehindMember, MembersMoved, MembersValid, MemberValues, NameOf;
    var r := MembersMoved(ms, w);
    MovedMembers(ms, w);
    MembersTextIs(ms, rest);
    MembersTextIs(r, rest);
    BehindMoved(ms, w, rest);
    AndMoved(ms[0], w, BehindMember(ms, rest));
  }

  lemma {:induction false} MovedMembers(ms: seq<MemberDoc>, w: seq<byte>)
    requires ms != [] && MembersValid(ms) && Blank(w)
    ensures var r := MembersMoved(ms, w);
      && MembersValid(r) && MemberValues(r) == MemberValues(ms) && r[0] == ms[0].(before := w + ms[0].before)
      && forall i :: 0 <= i < |ms| ==> NameOf(r[i]) == NameOf(ms[i])
  {
    hide Valid, Meaning, S.AllAllowed, S.Meanings;
    var r := MembersMoved(ms, w);
    assert r[1..] == ms[1..] && |r[1..]| == |ms| - 1;
    assert forall i :: 0 < i < |ms| ==> r[i] == ms[i];
  }

  lemma BehindMoved(ms: seq<MemberDoc>, w: seq<byte>, rest: seq<byte>)
    requires ms != [] && MembersValid(ms) && MembersValid(MembersMoved(ms, w))
    ensures BehindMember(MembersMoved(ms, w), rest) == BehindMember(ms, rest)
  {
    assert MembersMoved(ms, w)[1..] == ms[1..];
  }

  lemma AndMoved(m: MemberDoc, w: seq<byte>, tail: seq<byte>)
    requires S.AllAllowed(m.name) && Valid(m.doc)
    ensures MemberAnd(m.(before := w + m.before), tail) == w + MemberAnd(m, tail)
  {
    hide Text, S.Texts;
    Concat3(w, m.before, [34] + S.Texts(m.name) + [34] + (m.colon + ([58] + (Text(m.doc) + (m.after + tail)))));
  }

  // ---- the pieces of what was accepted ----

  lemma AsIs(s: seq<byte>)
    requires s != []
    ensures s == [s[0]] + s[1..]
  {
  }

  lemma ReadName(t: seq<byte>) returns (ps: seq<S.Piece>)
    requires QuotedString(t).Some?
    ensures S.AllAllowed(ps) && CString(S.Meanings(ps)) == QuotedString(t).value.0
    ensures t == [34] + S.Texts(ps) + [34] + QuotedString(t).value.1
  {
    hide Unescape, BodyLength, WellEscaped, S.Texts, S.Meanings, S.AllAllowed, CString;
    var n := BodyLength(t[1..]).value;
    BodyIsWellEscaped(t[1..]);
    var b := t[1..n + 1];
    assert t[1..][..n] == b && t[1..][n] == t[n + 1];
    ps := S.ReadIsTexts(b);
    assert t == [34] + b + [34] + t[n + 2..];
  }

  /** A number without a byte of its own is no item: what follows is a minus. */
  lemma NotBare(d: Doc, rest: seq<byte>)
    requires Ends(d, rest) && At(SkipSpace(rest), 0) != 45
    ensures !d.BareMinusDoc?
  {
  }

  lemma LastItem(d: Doc, w: seq<byte>, rest: seq<byte>)
    requires Valid(d) && !d.BareMinusDoc? && Blank(w)
    ensures var items := [ItemDoc(d, w)];
      && ItemsValid(items) && ItemValues(items) == [Meaning(d)]
      && ItemsText(items) + ([93] + rest) == Text(d) + (w + ([93] + rest))
  {
    hide Text, Valid, Meaning;
    var items := [ItemDoc(d, w)];
    assert items[1..] == [];
    ItemsTextIs(items, rest);
  }

  lemma OneMoreItem(d: Doc, w: seq<byte>, items: seq<ItemDoc>, rest: seq<byte>)
    requires Valid(d) && !d.BareMinusDoc? && Blank(w) && items != [] && ItemsValid(items)
    ensures var all := [ItemDoc(d, w)] + items;
      && ItemsValid(all) && ItemValues(all) == [Meaning(d)] + ItemValues(items)
      && ItemsText(all) + ([93] + rest) == Text(d) + (w + ([44] + (ItemsText(items) + ([93] + rest))))
  {
    hide Text, Valid, Meaning;
    var all := [ItemDoc(d, w)] + items;
    assert all[1..] == items;
    ItemsTextIs(all, rest);
  }

  lemma {:induction false} ReadItems(t: seq<byte>, n: nat, acc: seq<Json>) returns (items: seq<ItemDoc>)
    requires ParseItems(t, n, acc).Parsed?
    ensures items != [] && ItemsValid(items)
    ensures ParseItems(t, n, acc).value == Array(acc + ItemValues(items))
    ensures t == ItemsText(items) + ([93] + ParseItems(t, n, acc).rest)
    decreases |t|, 2
  {
    hide ParseValue, Valid, Text, Meaning, Ends, ItemsValid, ItemsText, ItemValues;
    var p := ParseValue(t, n);
    var d := ReadDoc(t, n);
    var s := SkipSpace(p.rest);
    var w := SkippedIsBlank(p.rest);
    NotBare(d, p.rest);
    AsIs(s);
    if s[0] == 44 {
      var w2 := SkippedIsBlank(s[1..]);
      var t2 := SkipSpace(s[1..]);
      var more := ReadItems(t2, n, acc + [p.value]);
      var rest := ParseItems(t, n, acc).rest;
      ItemsMovedIs(more, w2);
      Concat3(w2, ItemsText(more), [93] + rest);
      OneMoreItem(d, w, ItemsMoved(more, w2), rest);
      Concat3(acc, [p.value], ItemValues(more));
      items := [ItemDoc(d, w)] + ItemsMoved(more, w2);
    } else {
      items := [ItemDoc(d, w)];
      LastItem(d, w, s[1..]);
    }
  }

  lemma LastMember(m: MemberDoc, rest: seq<byte>)
    requires MembersValid([m])
    ensures MemberValues([m]) == [Member(NameOf(m), Meaning(m.doc))]
    ensures MembersText([m]) + ([125] + rest) == MemberAnd(m, [125] + rest)
  {
    hide Valid, Meaning, MemberAnd;
    assert [m][1..] == [];
    MembersTextIs([m], rest);
  }

  lemma OneMoreMember(m: MemberDoc, ms: seq<MemberDoc>, rest: seq<byte>)
    requires MembersValid([m]) && ms != [] && MembersValid(ms)
    ensures var all := [m] + ms;
      && MembersValid(all) && MemberValues(all) == [Member(NameOf(m), Meaning(m.doc))] + MemberValues(ms)
      && MembersText(all) + ([125] + rest) == MemberAnd(m, [44] + (MembersText(ms) + ([125] + rest)))
  {
    hide Valid, Meaning, MemberAnd;
    var all := [m] + ms;
    assert all[1..] == ms;
    MembersTextIs(all, rest);
  }

  lemma NamesGrow(acc: seq<Member>, m: MemberDoc, v: Json, ms: seq<MemberDoc>)
    requires !HasName(acc, NameOf(m)) && NewNames(acc + [Member(NameOf(m), v)], ms)
    ensures NewNames(acc, [m] + ms)
  {
    hide NameOf;
    var more, all := acc + [Member(NameOf(m), v)], [m] + ms;
    assert more[|acc|].name == NameOf(m);
    forall i | 0 <= i < |ms| ensures !HasName(acc, NameOf(ms[i])) && NameOf(ms[i]) != NameOf(m) {
      assert forall k :: 0 <= k < |acc| ==> more[k] == acc[k];
    }
    assert forall i :: 0 < i < |all| ==> all[i] == ms[i - 1];
  }

  lemma NoNewNames(acc: seq<Member>, m: MemberDoc)
    requires !HasName(acc, NameOf(m))
    ensures NewNames(acc, [m])
  {
  }

  /** One member of an object that was accepted. */
  lemma ReadMember(t: seq<byte>, n: nat, acc: seq<Member>) returns (m: MemberDoc, tail: seq<byte>)
    requires ParseMembers(t, n, acc).Parsed?
    ensures MembersValid([m]) && !HasName(acc, NameOf(m)) && t == MemberAnd(m, tail)
    ensures tail != [] && |tail| < |t|
    ensures var all := acc + [Member(NameOf(m), Meaning(m.doc))];
      if tail[0] == 44 then ParseMembers(t, n, acc) == ParseMembers(SkipSpace(tail[1..]), n, all)
      else tail[0] == 125 && ParseMembers(t, n, acc) == Parsed(Object(all), tail[1..])
    decreases |t|, 1
  {
    hide ParseValue, Valid, Text, Meaning, Ends, QuotedString, S.Texts, S.Meanings, S.AllAllowed, HasName;
    var key := QuotedString(t).value;
    var name := ReadName(t);
    var colon := SkippedIsBlank(key.1);
    var u := SkipSpace(key.1);
    AsIs(u);
    var p := ParseValue(u[1..], n);
    var d := ReadDoc(u[1..], n);
    var after := SkippedIsBlank(p.rest);
    tail := SkipSpace(p.rest);
    NotBare(d, p.rest);
    m := MemberDoc([], name, colon, d, after);
    assert [m][1..] == [];
    NameIs(m);
    AndIs(m, tail);
  }

  lemma AndIs(m: MemberDoc, tail: seq<byte>)
    requires S.AllAllowed(m.name) && Valid(m.doc) && m.before == []
    ensures MemberAnd(m, tail) == [34] + S.Texts(m.name) + [34] + (m.colon + ([58] + (Text(m.doc) + (m.after + tail))))
  {
    hide Text, S.Texts;
  }

  lemma {:induction false} ReadMembers(t: seq<byte>, n: nat, acc: seq<Member>) returns (ms: seq<MemberDoc>)
    requires ParseMembers(t, n, acc).Parsed?
    ensures ms != [] && MembersValid(ms) && NewNames(acc, ms)
    ensures ParseMembers(t, n, acc).value == Object(acc + MemberValues(ms))
    ensures t == MembersText(ms) + ([125] + ParseMembers(t, n, acc).rest)
    decreases |t|, 2
  {
    hide ParseMembers, Meaning, MembersValid, MembersText, MemberValues, NewNames, NameOf, MemberAnd, HasName;
    var m, tail := ReadMember(t, n, acc);
    OneValid(m);
    var one := Member(NameOf(m), Meaning(m.doc));
    AsIs(tail);
    if tail[0] == 44 {
      var w2 := SkippedIsBlank(tail[1..]);
      var t2 := SkipSpace(tail[1..]);
      var more := ReadMembers(t2, n, acc + [one]);
      var rest := ParseMembers(t, n, acc).rest;
      MembersMovedIs(more, w2, rest);
      OneMoreMember(m, MembersMoved(more, w2), rest);
      SameNames(acc + [one], more, MembersMoved(more, w2));
      NamesGrow(acc, m, Meaning(m.doc), MembersMoved(more, w2));
      Concat3(acc, [one], MemberValues(more));
      ms := [m] + MembersMoved(more, w2);
    } else {
      ms := [m];
      LastMember(m, tail[1..]);
      NoNewNames(acc, m);
    }
  }

  lemma OneValid(m: MemberDoc)
    requires MembersValid([m])
    ensures S.AllAllowed(m.name) && Valid(m.doc)
  {
  }

  lemma SameNames(acc: seq<Member>, ms: seq<MemberDoc>, ns: seq<MemberDoc>)
    requires NewNames(acc, ms) && |ns| == |ms| && forall i :: 0 <= i < |ms| ==> NameOf(ns[i]) == NameOf(ms[i])
    ensures NewNames(acc, ns)
  {
    hide NameOf, HasName;
  }

  lemma NothingInside()
    ensures ItemsValid([]) && ItemValues([]) == [] && MembersValid([]) && MemberValues([]) == []
  {
  }

  lemma ReadArray(s: seq<byte>, n: nat) returns (d: Doc)
    requires At(s, 0) == 91 && SkipSpace(s) == s && ParseValue(s, n).Parsed?
    ensures Valid(d) && d.ArrayDoc? && d.ws == []
    ensures Meaning(d) == ParseValue(s, n).value && s == Core(d) + ParseValue(s, n).rest
    decreases |s|, 0
  {
    hide ParseItems, ParseMembers, QuotedString, ParseNumber, ItemsValid, ItemsText, ItemValues;
    var w := SkippedIsBlank(s[1..]);
    var t := SkipSpace(s[1..]);
    AsIs(s);
    if At(t, 0) == 93 {
      AsIs(t);
      NothingInside();
      d := ArrayDoc([], w, []);
      Concat4([91], w, [93], t[1..]);
      Concat3(w, [93], t[1..]);
    } else {
      var items := ReadItems(t, n + 1, []);
      var rest := ParseItems(t, n + 1, []).rest;
      ItemsMovedIs(items, w);
      d := ArrayDoc([], [], ItemsMoved(items, w));
      assert [] + ItemValues(items) == ItemValues(items);
      Concat3(w, ItemsText(items), [93] + rest);
      Concat4([91], w + ItemsText(items), [93], rest);
      Concat3(w + ItemsText(items), [93], rest);
    }
  }

  lemma ReadObject(s: seq<byte>, n: nat) returns (d: Doc)
    requires At(s, 0) == 123 && SkipSpace(s) == s && ParseValue(s, n).Parsed?
    ensures Valid(d) && d.ObjectDoc? && d.ws == []
    ensures Meaning(d) == ParseValue(s, n).value && s == Core(d) + ParseValue(s, n).rest
    decreases |s|, 0
  {
    hide ParseItems, ParseMembers, QuotedString, ParseNumber, MembersValid, MembersText, MemberValues, NameOf, HasName;
    var w := SkippedIsBlank(s[1..]);
    var t := SkipSpace(s[1..]);
    AsIs(s);
    if At(t, 0) == 125 {
      AsIs(t);
      NothingInside();
      d := ObjectDoc([], w, []);
      Concat4([123], w, [125], t[1..]);
      Concat3(w, [125], t[1..]);
    } else {
      var ms := ReadMembers(t, n + 1, []);
      var rest := ParseMembers(t, n + 1, []).rest;
      MembersMovedIs(ms, w, rest);
      SameNames([], ms, MembersMoved(ms, w));
      d := ObjectDoc([], [], MembersMoved(ms, w));
      assert [] + MemberValues(ms) == MemberValues(ms);
      var x := MembersText(MembersMoved(ms, w));
      Concat4([123], x, [125], rest);
      Concat3(x, [125], rest);
    }
  }

  lemma ReadLeaf(s: seq<byte>, n: nat) returns (d: Doc)
    requires At(s, 0) != 91 && At(s, 0) != 123 && SkipSpace(s) == s && ParseValue(s, n).Parsed?
    ensures Valid(d) && d.ws == [] && Ends(d, ParseValue(s, n).rest)
    ensures Meaning(d) == ParseValue(s, n).value && s == Core(d) + ParseValue(s, n).rest
  {
    hide ParseItems, ParseMembers, QuotedString, ParseNumber;
    var c := At(s, 0);
    if c == 34 {
      var ps := ReadName(s);
      d := StringDoc([], ps);
    } else if c == 45 || IsDigit(c) {
      d := ReadIsANumber(s);
    } else if c == 110 {
      d := NullDoc([]);
    } else if TextTrue() <= s {
      d := TrueDoc([]);
    } else {
      d := FalseDoc([]);
    }
  }

  /** Whatever is accepted is a text of the grammar with that meaning. */
  lemma {:induction false} ReadDoc(text: seq<byte>, n: nat) returns (d: Doc)
    requires ParseValue(text, n).Parsed?
    ensures Valid(d) && Ends(d, ParseValue(text, n).rest) && Meaning(d) == ParseValue(text, n).value
    ensures text == Text(d) + ParseValue(text, n).rest
    decreases |text|, 1
  {
    hide ParseValue, Valid, Meaning, Core;
    var w := SkippedIsBlank(text);
    var s := SkipSpace(text);
    SameSkipped(s, text, n);
    var rest := ParseValue(text, n).rest;
    if At(s, 0) == 91 {
      d := ReadArray(s, n);
    } else if At(s, 0) == 123 {
      d := ReadObject(s, n);
    } else {
      d := ReadLeaf(s, n);
    }
    assert Text(d) == [] + Core(d) == Core(d);
    MovedIs(d, w);
    Concat3(w, Text(d), rest);
    d := Moved(d, w);
  }

  // ---- the two agree ----

  /** The parser accepts a value, and leaves a rest of the text, if and only if the text is one of the grammar with that
      meaning, in front of that rest, and no node lies deeper than 2048. */
  lemma AcceptedIffDerived(text: seq<byte>, n: nat, v: Json, rest: seq<byte>)
    ensures ParseValue(text, n) == Parsed(v, rest) <==>
      exists d :: Valid(d) && Ends(d, rest) && text == Text(d) + rest && v == Meaning(d) && Fits(v, 2048 - n)
  {
    hide ParseValue, Text, Valid, Meaning, Ends;
    if ParseValue(text, n) == Parsed(v, rest) {
      ParsedIsGood(text, n);
      var d := ReadDoc(text, n);
    }
    forall d | Valid(d) && Ends(d, rest) && text == Text(d) + rest && v == Meaning(d) && Fits(v, 2048 - n)
      ensures ParseValue(text, n) == Parsed(v, rest)
    {
      TextIsRead(d, rest, n);
    }
  }

  lemma TextIsRead(d: Doc, rest: seq<byte>, n: nat)
    requires Valid(d) && Ends(d, rest) && Fits(Meaning(d), MAX_NESTING - n)
    ensures ParseValue(Text(d) + rest, n) == Parsed(Meaning(d), rest)
  {
    hide ParseValue, Text, Core, Ends, Meaning, Valid;
    if d.BareMinusDoc? {
      BareMinusIsRead(d, rest, n);
    } else {
      DocIsRead(d, rest, n);
      SkipToCore(d, rest);
      SameSkipped(Core(d) + rest, Text(d) + rest, n);
    }
  }

  /** json_parse_string, on a text with or without a byte order mark. */
  lemma StringAcceptedIffDerived(text: seq<byte>, v: Json, rest: seq<byte>)
    ensures ParseString(text) == Parsed(v, rest) <==>
      exists d :: Valid(d) && Ends(d, rest) && v == Meaning(d) && Fits(v, 2048) &&
                  text == (if [0xEF, 0xBB, 0xBF] <= text then [0xEF, 0xBB, 0xBF] else []) + Text(d) + rest
  {
    hide ParseValue, Text, Valid, Meaning, Ends, Fits;
    var mark := if [0xEF, 0xBB, 0xBF] <= text then [0xEF, 0xBB, 0xBF] else [];
    var t := if [0xEF, 0xBB, 0xBF] <= text then text[3..] else text;
    assert text == mark + t;
    AcceptedIffDerived(t, 0, v, rest);
    forall d | Valid(d) ensures text == mark + Text(d) + rest <==> t == Text(d) + rest {
      Concat3(mark, Text(d), rest);
      assert (mark + (Text(d) + rest))[|mark|..] == Text(d) + rest && (mark + t)[|mark|..] == t;
    }
  }
}
