/** Parsing undoes printing. */
module JsonRoundTrip {
  import opened Bytes
  import opened JsonTree
  import opened Sequences
  import opened JsonString
  import opened JsonPrinter
  import opened JsonParser

  // ---- numbers ----

  lemma {:induction false} DigitsAreDigits(n: nat)
    ensures |Digits(n)| > 0 && forall i :: 0 <= i < |Digits(n)| ==> IsDigit(Digits(n)[i])
    ensures n > 0 ==> Digits(n)[0] != 48
    ensures n == 0 ==> Digits(n) == [48]
  {
    if n >= 10 {
      DigitsAreDigits(n / 10);
    }
  }

  lemma {:induction false} ValueOfDigits(n: nat)
    ensures DigitsValue(Digits(n)) == n
  {
    if n >= 10 {
      ValueOfDigits(n / 10);
      assert Digits(n)[..|Digits(n)| - 1] == Digits(n / 10);
    } else {
      assert Digits(n)[..0] == [];
    }
  }

  lemma {:induction false} DigitRunOf(d: seq<byte>, rest: seq<byte>)
    requires forall i :: 0 <= i < |d| ==> IsDigit(d[i])
    requires !IsDigit(At(rest, 0))
    ensures DigitRun(d + rest) == |d|
  {
    var s := d + rest;
    if d == [] {
      assert s == rest;
    } else {
      DigitRunOf(d[1..], rest);
      assert s[0] == d[0] && s[1..] == d[1..] + rest;
    }
  }

  /** What can follow a printed value. */
  predicate Delimited(rest: seq<byte>)
  {
    rest == [] || rest[0] == COMMA || rest[0] == NEWLINE || rest[0] == RBRACKET || rest[0] == RBRACE
  }

  lemma PrintedIsDecimal(n: int)
    ensures IsDecimal(PrintNumber(n))
  {
    DigitsAreDigits(if n < 0 then -n else n);
  }

  lemma SplitNumber(n: int, rest: seq<byte>)
    ensures var sign := if n < 0 then 1 else 0;
      var d, s := Digits(if n < 0 then -n else n), PrintNumber(n) + rest;
      && (At(s, 0) == MINUS <==> sign == 1)
      && s[sign..] == d + rest && s[sign..sign + |d|] == d && s[sign + |d|..] == rest
      && s[..sign + |d|] == PrintNumber(n) && At(s, sign + |d|) == At(rest, 0)
  {
    var d := Digits(if n < 0 then -n else n);
    DigitsAreDigits(if n < 0 then -n else n);
    assert (PrintNumber(n) + rest)[0] == PrintNumber(n)[0];
  }

  lemma NumberRoundTrip(n: int, rest: seq<byte>)
    requires -MAX_EXACT <= n <= MAX_EXACT && Delimited(rest)
    ensures ParseNumber(PrintNumber(n) + rest) == Parsed(Number(n), rest)
  {
    var m := if n < 0 then -n else n;
    SplitNumber(n, rest);
    DigitsAreDigits(m);
    DigitRunOf(Digits(m), rest);
    ValueOfDigits(m);
    PrintedIsDecimal(n);
  }

  // ---- white space ----

  lemma SkipOne(u: seq<byte>)
    ensures SkipSpace([SPACE] + u) == SkipSpace(u)
  {
    assert ([SPACE] + u)[1..] == u;
  }

  lemma {:induction false} SkipIndent(level: nat, t: seq<byte>)
    ensures SkipSpace(Indent(level) + t) == SkipSpace(t)
  {
    if level == 0 {
      assert Indent(level) + t == t;
    } else {
      var u := Indent(level - 1) + t;
      SkipIndent(level - 1, t);
      SkipOne(u);
      SkipOne([SPACE] + u);
      SkipOne([SPACE] + ([SPACE] + u));
      SkipOne([SPACE] + ([SPACE] + ([SPACE] + u)));
      assert Indent(level) + t == [SPACE] + ([SPACE] + ([SPACE] + ([SPACE] + u)));
    }
  }

  lemma SkipNewline(pretty: bool, t: seq<byte>)
    ensures SkipSpace(Newline(pretty) + t) == SkipSpace(t)
  {
    if pretty {
      assert (Newline(pretty) + t)[1..] == t;
    } else {
      assert Newline(pretty) + t == t;
    }
  }

  /** The first byte of a printed value tells the parser what it is. */
  lemma FirstByte(v: Json, level: nat, pretty: bool)
    ensures var p := Print(v, level, pretty);
      p != [] && !IsSpace(p[0]) && p[0] != 0 && p[0] != RBRACKET && p[0] != RBRACE
  {
    if v.Number? {
      DigitsAreDigits(if v.n < 0 then -v.n else v.n);
    }
  }

  // ---- values ----

  function Outcome(fits: bool, v: Json, rest: seq<byte>): Parse
  {
    if fits then Parsed(v, rest) else Rejected
  }

  predicate ItemsFit(items: seq<Json>, i: nat, d: int)
  {
    forall j :: i <= j < |items| ==> Fits(items[j], d)
  }

  predicate MembersFit(ms: seq<Member>, i: nat, d: int)
  {
    forall j :: i <= j < |ms| ==> Fits(ms[j].value, d)
  }

  lemma SkipBefore(level: nat, pretty: bool, t: seq<byte>)
    ensures SkipSpace(Before(level, pretty) + t) == SkipSpace(t)
  {
    if pretty {
      SkipIndent(level + 1, t);
    } else {
      assert [] + t == t;
    }
  }

  /** The white space and the bracket behind the last item. */
  lemma SkipClose(empty: bool, level: nat, pretty: bool, bracket: byte, rest: seq<byte>)
    requires !IsSpace(bracket)
    ensures SkipSpace(Close(empty, level, pretty) + ([bracket] + rest)) == [bracket] + rest
  {
    if pretty && !empty {
      SkipIndent(level, [bracket] + rest);
    } else {
      assert [] + ([bracket] + rest) == [bracket] + rest;
    }
  }

  lemma SkipNothing(v: Json, level: nat, pretty: bool, t: seq<byte>)
    ensures SkipSpace(Print(v, level, pretty) + t) == Print(v, level, pretty) + t
    ensures At(Print(v, level, pretty) + t, 0) == Print(v, level, pretty)[0] != 0
  {
    FirstByte(v, level, pretty);
  }

  lemma NotABracket(v: Json, level: nat, pretty: bool, t: seq<byte>)
    ensures At(Print(v, level, pretty) + t, 0) != RBRACKET
  {
    FirstByte(v, level, pretty);
  }

  lemma AfterDelimits(last: bool, pretty: bool, bracket: byte, level: nat, more: seq<byte>, rest: seq<byte>)
    requires bracket == RBRACKET || bracket == RBRACE
    requires last ==> more == Close(false, level, pretty) + ([bracket] + rest)
    ensures Delimited(After(last, pretty) + more)
  {
    var a := After(last, pretty) + more;
    if !last {
      assert a[0] == COMMA;
    } else if pretty {
      assert a[0] == NEWLINE;
    } else {
      assert a == [bracket] + rest;
    }
  }

  /** From behind an item the parser reaches the next one, or the closing bracket. */
  lemma SkipAfter(last: bool, pretty: bool, bracket: byte, level: nat, more: seq<byte>, rest: seq<byte>)
    requires bracket == RBRACKET || bracket == RBRACE
    requires last ==> more == Close(false, level, pretty) + ([bracket] + rest)
    ensures var s := SkipSpace(After(last, pretty) + more);
      if last then s == [bracket] + rest else At(s, 0) == COMMA && SkipSpace(s[1..]) == SkipSpace(more)
  {
    var a := After(last, pretty) + more;
    SkipNewline(pretty, more);
    if last {
      assert a == Newline(pretty) + more;
      SkipClose(false, level, pretty, bracket, rest);
    } else {
      assert a[0] == COMMA && a[1..] == Newline(pretty) + more;
    }
  }

  /** A bracketed text, behind its opening bracket. */
  lemma Inside(x: byte, o: seq<byte>, p: seq<byte>, c: seq<byte>, y: byte, rest: seq<byte>)
    ensures var s := [x] + o + p + c + [y] + rest; s[0] == x && s[1..] == o + (p + (c + ([y] + rest)))
  {
  }

  lemma ParseArrayStep(s: seq<byte>, nesting: nat)
    requires At(s, 0) == LBRACKET && nesting <= MAX_NESTING
    ensures var t := SkipSpace(s[1..]);
      ParseValue(s, nesting) ==
        if At(t, 0) == RBRACKET then Parsed(Array([]), t[1..]) else ParseItems(t, nesting + 1, [])
  {
  }

  lemma ParseItemStep(text: seq<byte>, nesting: nat, items: seq<Json>, fits: bool, v: Json, after: seq<byte>)
    requires At(text, 0) != 0 && ParseValue(text, nesting) == Outcome(fits, v, after)
    ensures var s, r := SkipSpace(after), ParseItems(text, nesting, items);
      && (!fits ==> r == Rejected)
      && (fits && At(s, 0) == COMMA ==> r == ParseItems(SkipSpace(s[1..]), nesting, items + [v]))
      && (fits && At(s, 0) == RBRACKET ==> r == Parsed(Array(items + [v]), s[1..]))
  {
  }

  lemma ParseObjectStep(s: seq<byte>, nesting: nat)
    requires At(s, 0) == LBRACE && nesting <= MAX_NESTING
    ensures var t := SkipSpace(s[1..]);
      ParseValue(s, nesting) ==
        if At(t, 0) == RBRACE then Parsed(Object([]), t[1..]) else ParseMembers(t, nesting + 1, [])
  {
  }

  lemma ParseMemberStep(text: seq<byte>, name: seq<byte>, t: seq<byte>, nesting: nat, ms: seq<Member>, fits: bool,
                        v: Json, after: seq<byte>)
    requires QuotedString(text) == Some((name, t)) && SkipSpace(t) == t && At(t, 0) == COLON
    requires ParseValue(t[1..], nesting) == Outcome(fits, v, after) && !HasName(ms, name)
    ensures var s, r, all := SkipSpace(after), ParseMembers(text, nesting, ms), ms + [Member(name, v)];
      && (!fits ==> r == Rejected)
      && (fits && At(s, 0) == COMMA ==> r == ParseMembers(SkipSpace(s[1..]), nesting, all))
      && (fits && At(s, 0) == RBRACE ==> r == Parsed(Object(all), s[1..]))
  {
  }

  /** The text of the items from the i-th on, up to the bracket and what follows it. */
  function ItemsText(items: seq<Json>, i: nat, level: nat, pretty: bool, rest: seq<byte>): seq<byte>
    requires i <= |items|
  {
    PrintItems(items, i, level, pretty) + (Close(items == [], level, pretty) + ([RBRACKET] + rest))
  }

  lemma FirstItem(items: seq<Json>, i: nat, level: nat, pretty: bool, rest: seq<byte>)
    requires i < |items|
    ensures SkipSpace(ItemsText(items, i, level, pretty, rest))
      == Print(items[i], level + 1, pretty) +
        (After(i + 1 == |items|, pretty) + ItemsText(items, i + 1, level, pretty, rest))
  {
    var p := Print(items[i], level + 1, pretty);
    var t := p + (After(i + 1 == |items|, pretty) + ItemsText(items, i + 1, level, pretty, rest));
    assert PrintItems(items, i, level, pretty) ==
      PrintItem(items, i, level, pretty) + PrintItems(items, i + 1, level, pretty);
    assert PrintItem(items, i, level, pretty) == Before(level, pretty) + p + After(i + 1 == |items|, pretty);
    assert ItemsText(items, i + 1, level, pretty, rest) ==
      PrintItems(items, i + 1, level, pretty) + (Close(items == [], level, pretty) + ([RBRACKET] + rest));
    Concat5(Before(level, pretty), p, After(i + 1 == |items|, pretty), PrintItems(items, i + 1, level, pretty),
      Close(items == [], level, pretty) + ([RBRACKET] + rest));
    SkipBefore(level, pretty, t);
    SkipNothing(items[i], level + 1, pretty,
                After(i + 1 == |items|, pretty) + ItemsText(items, i + 1, level, pretty, rest));
  }

  lemma {:induction false} ItemsRoundTrip(items: seq<Json>, i: nat, level: nat, pretty: bool, nesting: nat,
                                          rest: seq<byte>)
    requires i < |items| && WellFormed(Array(items))
    ensures ParseItems(SkipSpace(ItemsText(items, i, level, pretty, rest)), nesting, items[..i])
      == Outcome(ItemsFit(items, i, MAX_NESTING - nesting), Array(items), rest)
    decreases items, |items| - i, 0
  {
    hide ParseItems, ParseValue, Print, Fits, ItemsText, After;
    var last, v, d := i + 1 == |items|, items[i], MAX_NESTING - nesting;
    var more := ItemsText(items, i + 1, level, pretty, rest);
    var after := After(last, pretty) + more;
    FirstItem(items, i, level, pretty, rest);
    if last { ItemsEnd(items, i, level, pretty, rest); }
    AfterDelimits(last, pretty, RBRACKET, level, more, rest);
    ItemValue(v, level + 1, pretty, nesting, after);
    SkipAfter(last, pretty, RBRACKET, level, more, rest);
    ParseItemStep(Print(v, level + 1, pretty) + after, nesting, items[..i], Fits(v, d), v, after);
    ItemsFitStep(items, i, d);
    assert items[..i] + [v] == items[..i + 1];
    if last {
      assert items[..i + 1] == items;
      assert ([RBRACKET] + rest)[1..] == rest;
    } else {
      ItemsRoundTrip(items, i + 1, level, pretty, nesting, rest);
    }
  }

  lemma ItemsEnd(items: seq<Json>, i: nat, level: nat, pretty: bool, rest: seq<byte>)
    requires i + 1 == |items|
    ensures ItemsText(items, i + 1, level, pretty, rest) == Close(false, level, pretty) + ([RBRACKET] + rest)
  {
  }

  lemma ItemsFitStep(items: seq<Json>, i: nat, d: int)
    requires i < |items|
    ensures ItemsFit(items, i, d) <==> Fits(items[i], d) && ItemsFit(items, i + 1, d)
  {
  }

  lemma ItemValue(v: Json, level: nat, pretty: bool, nesting: nat, after: seq<byte>)
    requires WellFormed(v) && Delimited(after)
    ensures var t := Print(v, level, pretty) + after;
      At(t, 0) != 0 && ParseValue(t, nesting) == Outcome(Fits(v, MAX_NESTING - nesting), v, after)
    decreases v, 0, 2
  {
    RoundTrip(v, level, pretty, nesting, after);
    SkipNothing(v, level, pretty, after);
  }

  lemma FitsArray(items: seq<Json>, d: nat)
    ensures Fits(Array(items), d) <==> ItemsFit(items, 0, d - 1)
  {
  }

  lemma FitsObject(ms: seq<Member>, d: nat)
    ensures Fits(Object(ms), d) <==> MembersFit(ms, 0, d - 1)
  {
  }

  /** At any nesting, in front of any delimiter: the printed value is read back, and rejected
      exactly when it reaches below the nesting limit. */
  lemma {:induction false} RoundTrip(v: Json, level: nat, pretty: bool, nesting: nat, rest: seq<byte>)
    requires WellFormed(v) && Delimited(rest)
    ensures ParseValue(Print(v, level, pretty) + rest, nesting) == Outcome(Fits(v, MAX_NESTING - nesting), v, rest)
    decreases v, 0, 1
  {
    SkipNothing(v, level, pretty, rest);
    if nesting <= MAX_NESTING {
      match v
      case Null => LeafRoundTrip(v, level, pretty, nesting, rest);
      case Bool(b) => LeafRoundTrip(v, level, pretty, nesting, rest);
      case Number(n) => LeafRoundTrip(v, level, pretty, nesting, rest);
      case String(s) => LeafRoundTrip(v, level, pretty, nesting, rest);
      case Array(items) => ArrayRoundTrip(items, level, pretty, nesting, rest);
      case Object(ms) => ObjectRoundTrip(ms, level, pretty, nesting, rest);
    }
  }

  lemma LeafRoundTrip(v: Json, level: nat, pretty: bool, nesting: nat, rest: seq<byte>)
    requires WellFormed(v) && Delimited(rest) && nesting <= MAX_NESTING && !v.Array? && !v.Object?
    ensures ParseValue(Print(v, level, pretty) + rest, nesting) == Parsed(v, rest)
  {
    hide ParseValue, Print;
    match v
    case Number(n) => NumberLeaf(n, level, pretty, nesting, rest);
    case String(x) => StringLeaf(x, level, pretty, nesting, rest);
    case _ => WordLeaf(v, level, pretty, nesting, rest);
  }

  lemma NumberLeaf(n: int, level: nat, pretty: bool, nesting: nat, rest: seq<byte>)
    requires WellFormed(Number(n)) && Delimited(rest) && nesting <= MAX_NESTING
    ensures ParseValue(Print(Number(n), level, pretty) + rest, nesting) == Parsed(Number(n), rest)
  {
    hide ParseNumber, ParseItems, ParseMembers, QuotedString, Digits;
    SkipNothing(Number(n), level, pretty, rest);
    NumberRoundTrip(n, rest);
    DigitsAreDigits(if n < 0 then -n else n);
  }

  lemma StringLeaf(x: seq<byte>, level: nat, pretty: bool, nesting: nat, rest: seq<byte>)
    requires WellFormed(String(x)) && nesting <= MAX_NESTING
    ensures ParseValue(Print(String(x), level, pretty) + rest, nesting) == Parsed(String(x), rest)
  {
    hide ParseNumber, ParseItems, ParseMembers, QuotedString;
    SkipNothing(String(x), level, pretty, rest);
    QuotedStringOfPrint(x, rest);
  }

  lemma WordLeaf(v: Json, level: nat, pretty: bool, nesting: nat, rest: seq<byte>)
    requires nesting <= MAX_NESTING && (v.Null? || v.Bool?)
    ensures ParseValue(Print(v, level, pretty) + rest, nesting) == Parsed(v, rest)
  {
    hide ParseValue;
    WordRoundTrip(v, nesting, rest);
  }

  lemma WordRoundTrip(v: Json, nesting: nat, rest: seq<byte>)
    requires nesting <= MAX_NESTING && (v.Null? || v.Bool?)
    ensures ParseValue(Print(v, 0, false) + rest, nesting) == Parsed(v, rest)
  {
    var w := Print(v, 0, false);
    var s := w + rest;
    assert w <= s && s[|w|..] == rest && s[0] == w[0];
    if v == Bool(false) {
      assert s[0] != TextTrue()[0];
    }
  }

  /** Behind the opening bracket the parser sees the first item, or the closing bracket. */
  lemma EnterArray(items: seq<Json>, level: nat, pretty: bool, rest: seq<byte>)
    ensures var s := Print(Array(items), level, pretty) + rest;
      At(s, 0) == LBRACKET && SkipSpace(s[1..]) == SkipSpace(ItemsText(items, 0, level, pretty, rest))
  {
    var text := ItemsText(items, 0, level, pretty, rest);
    Inside(LBRACKET, Open(items == [], pretty), PrintItems(items, 0, level, pretty),
           Close(items == [], level, pretty), RBRACKET, rest);
    SkipNewline(pretty && items != [], text);
  }

  lemma EmptyArray(level: nat, pretty: bool, rest: seq<byte>)
    ensures SkipSpace(ItemsText([], 0, level, pretty, rest)) == [RBRACKET] + rest
  {
    SkipClose(true, level, pretty, RBRACKET, rest);
    assert ItemsText([], 0, level, pretty, rest) == Close(true, level, pretty) + ([RBRACKET] + rest);
  }

  lemma ArrayStarts(items: seq<Json>, level: nat, pretty: bool, rest: seq<byte>)
    requires items != []
    ensures At(SkipSpace(ItemsText(items, 0, level, pretty, rest)), 0) != RBRACKET
  {
    FirstItem(items, 0, level, pretty, rest);
    NotABracket(items[0], level + 1, pretty, After(1 == |items|, pretty) + ItemsText(items, 1, level, pretty, rest));
  }

  lemma EmptyArrayRoundTrip(level: nat, pretty: bool, nesting: nat, rest: seq<byte>)
    requires nesting <= MAX_NESTING
    ensures ParseValue(Print(Array([]), level, pretty) + rest, nesting) == Parsed(Array([]), rest)
  {
    var s := Print(Array([]), level, pretty) + rest;
    EnterArray([], level, pretty, rest);
    ParseArrayStep(s, nesting);
    EmptyArray(level, pretty, rest);
    assert ([RBRACKET] + rest)[1..] == rest;
  }

  lemma ArrayRoundTrip(items: seq<Json>, level: nat, pretty: bool, nesting: nat, rest: seq<byte>)
    requires WellFormed(Array(items)) && nesting <= MAX_NESTING
    ensures ParseValue(Print(Array(items), level, pretty) + rest, nesting)
      == Outcome(Fits(Array(items), MAX_NESTING - nesting), Array(items), rest)
    decreases items, |items| + 1, 0
  {
    hide Print, ParseValue, ParseItems, SkipSpace, ItemsText, WellFormed;
    if items == [] {
      EmptyArrayRoundTrip(level, pretty, nesting, rest);
    } else {
      hide Fits;
      EnterArray(items, level, pretty, rest);
      ParseArrayStep(Print(Array(items), level, pretty) + rest, nesting);
      ArrayStarts(items, level, pretty, rest);
      ItemsRoundTrip(items, 0, level, pretty, nesting + 1, rest);
      FitsArray(items, MAX_NESTING - nesting);
      assert items[..0] == [];
    }
  }

  // ---- objects ----

  function MembersText(ms: seq<Member>, i: nat, level: nat, pretty: bool, rest: seq<byte>): seq<byte>
    requires i <= |ms|
  {
    PrintMembers(ms, i, level, pretty) + (Close(ms == [], level, pretty) + ([RBRACE] + rest))
  }

  /** What follows the name of the i-th member. */
  function ValueText(ms: seq<Member>, i: nat, level: nat, pretty: bool, rest: seq<byte>): seq<byte>
    requires i < |ms|
  {
    Gap(pretty) + (Print(Named(ms, i), level + 1, pretty) +
                   (After(i + 1 == |ms|, pretty) + MembersText(ms, i + 1, level, pretty, rest)))
  }

  lemma FirstMember(ms: seq<Member>, i: nat, level: nat, pretty: bool, rest: seq<byte>)
    requires i < |ms|
    ensures SkipSpace(MembersText(ms, i, level, pretty, rest)) ==
      PrintString(ms[i].name) + ValueText(ms, i, level, pretty, rest)
  {
    QuoteInFront(ms[i].name, ValueText(ms, i, level, pretty, rest));
    hide PrintString, SkipSpace;
    var t := PrintString(ms[i].name) + ValueText(ms, i, level, pretty, rest);
    var name, v, tail := PrintString(ms[i].name), Print(Named(ms, i), level + 1, pretty),
      Close(ms == [], level, pretty) + ([RBRACE] + rest);
    assert PrintMembers(ms, i, level, pretty) ==
      PrintMember(ms, i, level, pretty) + PrintMembers(ms, i + 1, level, pretty);
    assert PrintMember(ms, i, level, pretty) == PrintKey(ms[i].name, level, pretty) + v + After(i + 1 == |ms|, pretty);
    assert PrintKey(ms[i].name, level, pretty) == Before(level, pretty) + name + Gap(pretty);
    assert MembersText(ms, i + 1, level, pretty, rest) == PrintMembers(ms, i + 1, level, pretty) + tail;
    Concat5(PrintKey(ms[i].name, level, pretty), v, After(i + 1 == |ms|, pretty),
            PrintMembers(ms, i + 1, level, pretty), tail);
    var w := v + (After(i + 1 == |ms|, pretty) + (PrintMembers(ms, i + 1, level, pretty) + tail));
    Concat5(Before(level, pretty), name, Gap(pretty), w, []);
    NoTail(Before(level, pretty) + name + Gap(pretty) + w);
    NoTail(w);
    SkipBefore(level, pretty, t);
  }

  lemma QuoteInFront(name: seq<byte>, t: seq<byte>)
    ensures SkipSpace(PrintString(name) + t) == PrintString(name) + t
  {
    assert (PrintString(name) + t)[0] == QUOTE;
  }

  lemma MemberIsWellFormed(ms: seq<Member>, i: nat)
    requires WellFormed(Object(ms)) && i < |ms|
    ensures WellFormed(ms[i].value) && 0 !in ms[i].name && UniqueNames(ms)
  {
  }

  lemma MembersEnd(ms: seq<Member>, i: nat, level: nat, pretty: bool, rest: seq<byte>)
    requires i + 1 == |ms|
    ensures MembersText(ms, i + 1, level, pretty, rest) == Close(false, level, pretty) + ([RBRACE] + rest)
  {
  }

  /** The parser reads the i-th member and comes to the next one, or to the end. */
  lemma MemberRead(ms: seq<Member>, i: nat, level: nat, pretty: bool, nesting: nat, rest: seq<byte>)
    requires i < |ms| && WellFormed(Object(ms))
    ensures var r := ParseMembers(SkipSpace(MembersText(ms, i, level, pretty, rest)), nesting, ms[..i]);
      r == if !Fits(ms[i].value, MAX_NESTING - nesting) then Rejected
           else if i + 1 == |ms| then Parsed(Object(ms), rest)
           else ParseMembers(SkipSpace(MembersText(ms, i + 1, level, pretty, rest)), nesting, ms[..i + 1])
    decreases ms, |ms| - i, 0
  {
    MemberIsWellFormed(ms, i);
    assert !HasName(ms[..i], ms[i].name);
    hide WellFormed, UniqueNames, Print, ParseMembers, ParseValue, SkipSpace, ValueText, MembersText, Fits;
    var last, name, v := i + 1 == |ms|, ms[i].name, ms[i].value;
    var more := MembersText(ms, i + 1, level, pretty, rest);
    var after, value := After(last, pretty) + more, ValueText(ms, i, level, pretty, rest);
    FirstMember(ms, i, level, pretty, rest);
    QuotedStringOfPrint(name, value);
    if last { MembersEnd(ms, i, level, pretty, rest); }
    AfterDelimits(last, pretty, RBRACE, level, more, rest);
    ValueIs(ms, i, level, pretty, rest);
    MemberValue(v, level + 1, pretty, nesting, after);
    SkipAfter(last, pretty, RBRACE, level, more, rest);
    hide PrintString, QuotedString, HasName, Delimited, After;
    ParseMemberStep(PrintString(name) + value, name, value, nesting, ms[..i], Fits(v, MAX_NESTING - nesting), v, after);
    OneMoreMember(ms, i, rest);
  }

  lemma OneMoreMember(ms: seq<Member>, i: nat, rest: seq<byte>)
    requires i < |ms|
    ensures ms[..i] + [Member(ms[i].name, ms[i].value)] == ms[..i + 1] && (i + 1 == |ms| ==> ms[..i + 1] == ms)
    ensures ([RBRACE] + rest)[1..] == rest
  {
  }

  lemma {:induction false} MembersRoundTrip(ms: seq<Member>, i: nat, level: nat, pretty: bool, nesting: nat,
                                            rest: seq<byte>)
    requires i < |ms| && WellFormed(Object(ms))
    ensures ParseMembers(SkipSpace(MembersText(ms, i, level, pretty, rest)), nesting, ms[..i])
      == Outcome(MembersFit(ms, i, MAX_NESTING - nesting), Object(ms), rest)
    decreases ms, |ms| - i, 1
  {
    hide WellFormed, ParseMembers, SkipSpace, MembersText, Fits, MembersFit;
    MemberRead(ms, i, level, pretty, nesting, rest);
    MembersFitStep(ms, i, MAX_NESTING - nesting);
    if i + 1 < |ms| {
      MembersRoundTrip(ms, i + 1, level, pretty, nesting, rest);
    }
  }

  lemma MembersFitStep(ms: seq<Member>, i: nat, d: int)
    requires i < |ms|
    ensures MembersFit(ms, i, d) <==> Fits(ms[i].value, d) && MembersFit(ms, i + 1, d)
    ensures i + 1 == |ms| ==> MembersFit(ms, i + 1, d)
  {
  }

  lemma ValueIs(ms: seq<Member>, i: nat, level: nat, pretty: bool, rest: seq<byte>)
    requires UniqueNames(ms) && i < |ms|
    ensures ValueText(ms, i, level, pretty, rest) == Gap(pretty) +
      (Print(ms[i].value, level + 1, pretty) +
       (After(i + 1 == |ms|, pretty) + MembersText(ms, i + 1, level, pretty, rest)))
  {
    LookupUnique(ms, i);
  }

  /** A colon, perhaps a space, and a value. */
  lemma MemberValue(v: Json, level: nat, pretty: bool, nesting: nat, after: seq<byte>)
    requires WellFormed(v) && Delimited(after)
    ensures var t := Gap(pretty) + (Print(v, level, pretty) + after);
      SkipSpace(t) == t && At(t, 0) == COLON &&
      ParseValue(t[1..], nesting) == Outcome(Fits(v, MAX_NESTING - nesting), v, after)
    decreases v, 0, 2
  {
    hide Print, Fits, WellFormed;
    var p := Print(v, level, pretty) + after;
    var t := Gap(pretty) + p;
    RoundTrip(v, level, pretty, nesting, after);
    SkipNothing(v, level, pretty, after);
    if pretty {
      assert t[1..] == [SPACE] + p;
      SkipOne(p);
    } else {
      assert t[1..] == p;
    }
  }

  /** Behind the opening bracket the parser sees the first item, or the closing bracket. */
  lemma EnterObject(ms: seq<Member>, level: nat, pretty: bool, rest: seq<byte>)
    ensures var s := Print(Object(ms), level, pretty) + rest;
      At(s, 0) == LBRACE && SkipSpace(s[1..]) == SkipSpace(MembersText(ms, 0, level, pretty, rest))
  {
    var text := MembersText(ms, 0, level, pretty, rest);
    Inside(LBRACE, Open(ms == [], pretty), PrintMembers(ms, 0, level, pretty), Close(ms == [], level, pretty), RBRACE,
           rest);
    SkipNewline(pretty && ms != [], text);
  }

  lemma EmptyObject(level: nat, pretty: bool, rest: seq<byte>)
    ensures SkipSpace(MembersText([], 0, level, pretty, rest)) == [RBRACE] + rest
  {
    SkipClose(true, level, pretty, RBRACE, rest);
    assert MembersText([], 0, level, pretty, rest) == Close(true, level, pretty) + ([RBRACE] + rest);
  }

  lemma ObjectStarts(ms: seq<Member>, level: nat, pretty: bool, rest: seq<byte>)
    requires ms != []
    ensures At(SkipSpace(MembersText(ms, 0, level, pretty, rest)), 0) != RBRACE
  {
    FirstMember(ms, 0, level, pretty, rest);
    assert PrintString(ms[0].name)[0] == QUOTE;
  }

  lemma EmptyObjectRoundTrip(level: nat, pretty: bool, nesting: nat, rest: seq<byte>)
    requires nesting <= MAX_NESTING
    ensures ParseValue(Print(Object([]), level, pretty) + rest, nesting) == Parsed(Object([]), rest)
  {
    var s := Print(Object([]), level, pretty) + rest;
    EnterObject([], level, pretty, rest);
    ParseObjectStep(s, nesting);
    EmptyObject(level, pretty, rest);
    assert ([RBRACE] + rest)[1..] == rest;
  }

  lemma ObjectRoundTrip(ms: seq<Member>, level: nat, pretty: bool, nesting: nat, rest: seq<byte>)
    requires WellFormed(Object(ms)) && nesting <= MAX_NESTING
    ensures ParseValue(Print(Object(ms), level, pretty) + rest, nesting)
      == Outcome(Fits(Object(ms), MAX_NESTING - nesting), Object(ms), rest)
    decreases ms, |ms| + 1, 0
  {
    hide Print, ParseValue, ParseMembers, SkipSpace, MembersText, WellFormed;
    if ms == [] {
      EmptyObjectRoundTrip(level, pretty, nesting, rest);
    } else {
      hide Fits;
      EnterObject(ms, level, pretty, rest);
      ParseObjectStep(Print(Object(ms), level, pretty) + rest, nesting);
      ObjectStarts(ms, level, pretty, rest);
      MembersRoundTrip(ms, 0, level, pretty, nesting + 1, rest);
      FitsObject(ms, MAX_NESTING - nesting);
      assert ms[..0] == [];
    }
  }

  /** Parsing a compact or a pretty serialization gives back the same tree, members and items in
      the same order, exactly when no node lies deeper than the nesting limit. */
  lemma ParsePrint(v: Json, pretty: bool)
    requires WellFormed(v)
    ensures Fits(v, MAX_NESTING) ==> ParseString(Print(v, 0, pretty)) == Parsed(v, [])
    ensures !Fits(v, MAX_NESTING) ==> ParseString(Print(v, 0, pretty)) == Rejected
  {
    hide ParseValue, Print, Fits, WellFormed;
    var p := Print(v, 0, pretty);
    RoundTrip(v, 0, pretty, 0, []);
    assert p + [] == p;
    FirstAscii(v, 0, pretty);
  }

  /** No printed text begins with a byte order mark. */
  lemma FirstAscii(v: Json, level: nat, pretty: bool)
    ensures Print(v, level, pretty) != [] && Print(v, level, pretty)[0] < 0x80
  {
    if v.Number? {
      DigitsAreDigits(if v.n < 0 then -v.n else v.n);
    }
  }

  /** So printing what was parsed, compactly or not, loses nothing. */
  lemma PrintParsed(text: seq<byte>, pretty: bool)
    requires ParseString(text).Parsed?
    ensures var v := ParseString(text).value; ParseString(Print(v, 0, pretty)) == Parsed(v, [])
  {
    hide ParseValue, Print, WellFormed, Fits;
    ParsedIsGood(if [0xEF, 0xBB, 0xBF] <= text then text[3..] else text, 0);
    ParsePrint(ParseString(text).value, pretty);
  }
}
