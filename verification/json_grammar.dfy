/** The grammar of section 2 of RFC 4627 with the white space of isspace, as texts with their meaning, byte by byte;
    the parser takes exactly these. Nothing in the grammar is said in terms of the parser's own functions. */
module JsonGrammar {
  import opened Bytes
  import opened JsonTree
  import opened JsonString
  import opened JsonPrinter
  import opened JsonParser
  import opened Sequences
  import S = JsonSpelling

  /** The six bytes of isspace. */
  predicate Blank(w: seq<byte>)
  {
    forall i :: 0 <= i < |w| ==> w[i] == 32 || 9 <= w[i] <= 13
  }

  /** A text and where its tokens are. ws is the white space in front; inner that of an empty array or object. */
  datatype Doc =
    | NullDoc(ws: seq<byte>)
    | TrueDoc(ws: seq<byte>)
    | FalseDoc(ws: seq<byte>)
    | NumberDoc(ws: seq<byte>, minus: bool, digits: seq<byte>)
    | BareMinusDoc(ws: seq<byte>) // what is read of a minus without a digit
    | StringDoc(ws: seq<byte>, ps: seq<S.Piece>)
    | ArrayDoc(ws: seq<byte>, inner: seq<byte>, items: seq<ItemDoc>)
    | ObjectDoc(ws: seq<byte>, inner: seq<byte>, members: seq<MemberDoc>)

  /** after is the white space behind it. */
  datatype ItemDoc = ItemDoc(doc: Doc, after: seq<byte>)

  /** The white space is in front of the name, in front of the colon and behind the value. */
  datatype MemberDoc = MemberDoc(before: seq<byte>, name: seq<S.Piece>, colon: seq<byte>, doc: Doc, after: seq<byte>)

  // ---- numbers ----

  function Power10(n: nat): nat { if n == 0 then 1 else 10 * Power10(n - 1) }

  function ValueOf(digits: seq<byte>): int
  {
    if digits == [] then 0 else (digits[0] - 48) * Power10(|digits| - 1) + ValueOf(digits[1..])
  }

  /** An integer without a leading zero that a double holds exactly; no negative zero. */
  predicate IsNumber(minus: bool, digits: seq<byte>)
  {
    && digits != [] && (forall i :: 0 <= i < |digits| ==> 48 <= digits[i] <= 57)
    && (|digits| > 1 ==> digits[0] != 48)
    && ValueOf(digits) <= 0x20_0000_0000_0000 && (minus ==> ValueOf(digits) > 0)
  }

  // ---- the grammar ----

  predicate Valid(d: Doc)
    decreases d, 1
  {
    && Blank(d.ws)
    && match d
       case NumberDoc(_, minus, digits) => IsNumber(minus, digits)
       case StringDoc(_, ps) => S.AllAllowed(ps)
       case ArrayDoc(_, inner, items) => Blank(inner) && ItemsValid(items)
       case ObjectDoc(_, inner, ms) =>
         Blank(inner) && MembersValid(ms) && forall i, j :: 0 <= i < j < |ms| ==> NameOf(ms[i]) != NameOf(ms[j])
       case _ => true
  }

  predicate ItemsValid(items: seq<ItemDoc>)
    decreases items, 0
  {
    items == [] ||
    (Valid(items[0].doc) && !items[0].doc.BareMinusDoc? && Blank(items[0].after) && ItemsValid(items[1..]))
  }

  predicate MembersValid(ms: seq<MemberDoc>)
    decreases ms, 0
  {
    ms == [] ||
    (Blank(ms[0].before) && S.AllAllowed(ms[0].name) && Blank(ms[0].colon) && Valid(ms[0].doc) &&
     !ms[0].doc.BareMinusDoc? && Blank(ms[0].after) && MembersValid(ms[1..]))
  }

  /** A name is a C string: it ends in front of a NUL. */
  function NameOf(m: MemberDoc): seq<byte>
  {
    if S.AllAllowed(m.name) then CString(S.Meanings(m.name)) else []
  }

  /** The bytes that are read of it. */
  function Text(d: Doc): seq<byte>
    requires Valid(d)
    decreases d, 1
  {
    d.ws + Core(d)
  }

  function Core(d: Doc): seq<byte>
    requires Valid(d)
    decreases d, 0
  {
    match d
    case NullDoc(_) => [110, 117, 108, 108]
    case TrueDoc(_) => [116, 114, 117, 101]
    case FalseDoc(_) => [102, 97, 108, 115, 101]
    case NumberDoc(_, minus, digits) => (if minus then [45] else []) + digits
    case BareMinusDoc(_) => []
    case StringDoc(_, ps) => [34] + S.Texts(ps) + [34]
    case ArrayDoc(_, inner, items) => [91] + (if items == [] then inner else ItemsText(items)) + [93]
    case ObjectDoc(_, inner, ms) => [123] + (if ms == [] then inner else MembersText(ms)) + [125]
  }

  function ItemsText(items: seq<ItemDoc>): seq<byte>
    requires ItemsValid(items)
    decreases items, 0
  {
    if items == [] then []
    else Text(items[0].doc) + items[0].after + if |items| == 1 then [] else [44] + ItemsText(items[1..])
  }

  function MembersText(ms: seq<MemberDoc>): seq<byte>
    requires MembersValid(ms)
    decreases ms, 0
  {
    if ms == [] then []
    else
      ms[0].before + ([34] + S.Texts(ms[0].name) + [34]) + ms[0].colon + [58] + Text(ms[0].doc) + ms[0].after +
      if |ms| == 1 then [] else [44] + MembersText(ms[1..])
  }

  /** The value it stands for. */
  function Meaning(d: Doc): Json
    requires Valid(d)
    decreases d, 0
  {
    match d
    case NullDoc(_) => Null
    case TrueDoc(_) => Bool(true)
    case FalseDoc(_) => Bool(false)
    case NumberDoc(_, minus, digits) => Number(if minus then -ValueOf(digits) else ValueOf(digits))
    case BareMinusDoc(_) => Number(0)
    case StringDoc(_, ps) => String(CString(S.Meanings(ps)))
    case ArrayDoc(_, _, items) => Array(ItemValues(items))
    case ObjectDoc(_, _, ms) => Object(MemberValues(ms))
  }

  function ItemValues(items: seq<ItemDoc>): (vs: seq<Json>)
    requires ItemsValid(items)
    ensures |vs| == |items|
    decreases items, 0
  {
    if items == [] then [] else [Meaning(items[0].doc)] + ItemValues(items[1..])
  }

  function MemberValues(ms: seq<MemberDoc>): (vs: seq<Member>)
    requires MembersValid(ms)
    ensures |vs| == |ms|
    decreases ms, 0
  {
    if ms == [] then [] else [Member(NameOf(ms[0]), Meaning(ms[0].doc))] + MemberValues(ms[1..])
  }

  /** What may follow: nothing that would make a longer number, and the minus of a bare minus. */
  predicate Ends(d: Doc, rest: seq<byte>)
  {
    match d
    case NumberDoc(_, _, _) =>
      rest == [] || (!(48 <= rest[0] <= 57) && rest[0] !in [46, 69, 88, 101, 120])
    case BareMinusDoc(_) =>
      rest != [] && rest[0] == 45 &&
      (|rest| == 1 || (!(48 <= rest[1] <= 57) && rest[1] !in [46, 73, 78, 105, 110]))
    case _ => true
  }

  // ---- white space ----

  lemma {:induction false} SkipBlank(w: seq<byte>, t: seq<byte>)
    requires Blank(w)
    ensures SkipSpace(w + t) == SkipSpace(t)
  {
    if w == [] {
      assert w + t == t;
    } else {
      assert (w + t)[1..] == w[1..] + t;
      SkipBlank(w[1..], t);
    }
  }

  lemma {:induction false} SkippedIsBlank(text: seq<byte>) returns (w: seq<byte>)
    ensures Blank(w) && text == w + SkipSpace(text) && SkipSpace(SkipSpace(text)) == SkipSpace(text)
    ensures !IsSpace(At(SkipSpace(text), 0))
  {
    if IsSpace(At(text, 0)) {
      w := SkippedIsBlank(text[1..]);
      w := [text[0]] + w;
    } else {
      w := [];
    }
  }

  /** The parser takes no notice of white space in front of a value. */
  lemma BlankIsSkipped(w: seq<byte>, text: seq<byte>, n: nat)
    requires Blank(w)
    ensures ParseValue(w + text, n) == ParseValue(text, n) == ParseValue(SkipSpace(text), n)
  {
    SkipBlank(w, text);
    var v := SkippedIsBlank(text);
    SameSkipped(w + text, text, n);
    SameSkipped(SkipSpace(text), text, n);
  }

  lemma SameSkipped(a: seq<byte>, b: seq<byte>, n: nat)
    requires SkipSpace(a) == SkipSpace(b)
    ensures ParseValue(a, n) == ParseValue(b, n)
  {
  }

  // ---- numbers ----

  lemma {:induction false} ValueOfSnoc(s: seq<byte>, c: byte)
    ensures ValueOf(s + [c]) == ValueOf(s) * 10 + c - 48
  {
    if s == [] {
      assert ([] + [c])[1..] == [];
    } else {
      ValueOfSnoc(s[1..], c);
      assert (s + [c])[1..] == s[1..] + [c];
      Factor(s[0] as int - 48, Power10(|s| - 1));
    }
  }

  lemma Factor(a: int, p: nat)
    ensures a * (10 * p) == a * p * 10
  {
  }

  lemma {:induction false} ValuesAgree(s: seq<byte>)
    ensures DigitsValue(s) == ValueOf(s)
  {
    if s != [] {
      ValuesAgree(s[..|s| - 1]);
      ValueOfSnoc(s[..|s| - 1], s[|s| - 1]);
      assert s == s[..|s| - 1] + [s[|s| - 1]];
    }
  }

  lemma {:induction false} RunOfDigits(d: seq<byte>, t: seq<byte>)
    requires (forall i :: 0 <= i < |d| ==> IsDigit(d[i])) && !IsDigit(At(t, 0))
    ensures DigitRun(d + t) == |d|
  {
    if d == [] {
      assert d + t == t;
    } else {
      RunOfDigits(d[1..], t);
      assert (d + t)[1..] == d[1..] + t;
    }
  }

  lemma {:induction false} RunIsDigits(s: seq<byte>)
    ensures forall i :: 0 <= i < DigitRun(s) ==> IsDigit(s[i])
    ensures !IsDigit(At(s, DigitRun(s)))
  {
    if IsDigit(At(s, 0)) {
      RunIsDigits(s[1..]);
      assert forall i :: 0 < i < DigitRun(s) ==> s[i] == s[1..][i - 1];
      assert At(s, DigitRun(s)) == At(s[1..], DigitRun(s) - 1);
    }
  }

  lemma DecimalWhen(minus: bool, d: seq<byte>)
    requires d != [] && forall i :: 0 <= i < |d| ==> 48 <= d[i] <= 57
    ensures IsDecimal((if minus then [45] else []) + d) <==> |d| == 1 || d[0] != 48
  {
    var s := (if minus then [45] else []) + d;
    if minus {
      assert s[0] == 45 && s[1] == d[0] && (|d| > 1 ==> s[2] == d[1]);
    } else {
      assert s == d;
    }
  }

  lemma NumberIsRead(minus: bool, d: seq<byte>, rest: seq<byte>)
    requires IsNumber(minus, d) && Ends(NumberDoc([], minus, d), rest)
    ensures ParseNumber((if minus then [45] else []) + d + rest)
      == Parsed(Number(if minus then -ValueOf(d) else ValueOf(d)), rest)
  {
    hide IsDecimal, ValueOf, DigitsValue, DigitRun;
    var s := (if minus then [45] else []) + d + rest;
    var sign := if minus then 1 else 0;
    assert s[sign..] == d + rest && s[sign..sign + |d|] == d && s[sign + |d|..] == rest;
    assert s[..sign + |d|] == (if minus then [45] else []) + d;
    assert (At(s, 0) == MINUS <==> minus) && At(s, sign + |d|) == At(rest, 0);
    RunOfDigits(d, rest);
    ValuesAgree(d);
    DecimalWhen(minus, d);
  }

  /** And a number that is read is one, or a bare minus. */
  lemma ReadIsANumber(s: seq<byte>) returns (d: Doc)
    requires (At(s, 0) == 45 || IsDigit(At(s, 0))) && ParseNumber(s).Parsed?
    ensures Valid(d) && d.ws == [] && (d.NumberDoc? || d.BareMinusDoc?)
    ensures s == Core(d) + ParseNumber(s).rest && Meaning(d) == ParseNumber(s).value && Ends(d, ParseNumber(s).rest)
  {
    hide ParseNumber, Valid, Core, Meaning, Ends, DigitRun;
    var sign := if At(s, 0) == 45 then 1 else 0;
    if DigitRun(s[sign..]) == 0 {
      RunIsDigits(s[sign..]);
      assert At(s[sign..], 0) == At(s, sign);
      d := ReadNothing(s);
    } else {
      d := ReadHasDigits(s, sign, DigitRun(s[sign..]));
    }
  }

  lemma ParsedNothing(s: seq<byte>)
    requires At(s, 0) == 45 && DigitRun(s[1..]) == 0 && ParseNumber(s).Parsed?
    ensures ParseNumber(s) == Parsed(Number(0), s) && !GoesOn(0, At(s, 1))
  {
    hide IsDecimal, DigitsValue, DigitRun, GoesOn;
  }

  lemma ReadNothing(s: seq<byte>) returns (d: Doc)
    requires At(s, 0) == 45 && DigitRun(s[1..]) == 0 && !IsDigit(At(s, 1)) && ParseNumber(s).Parsed?
    ensures Valid(d) && d == BareMinusDoc([])
    ensures s == Core(d) + ParseNumber(s).rest && Meaning(d) == ParseNumber(s).value && Ends(d, ParseNumber(s).rest)
  {
    hide ParseNumber, DigitRun;
    ParsedNothing(s);
    d := BareMinusDoc([]);
    assert s == [] + s;
  }

  /** The parts of a number. */
  lemma Parts(s: seq<byte>, sign: nat, k: nat)
    requires sign <= 1 && sign + k <= |s| && (sign == 1 ==> s[0] == 45)
    ensures s[sign..][..k] == s[sign..sign + k] && At(s[sign..], k) == At(s, sign + k) == At(s[sign + k..], 0)
    ensures s[..sign + k] == (if sign == 1 then [45] else []) + s[sign..sign + k]
    ensures s == (if sign == 1 then [45] else []) + s[sign..sign + k] + s[sign + k..]
  {
    assert s == s[..sign + k] + s[sign + k..];
  }

  /** What an accepted number with digits is made of. */
  lemma ParsedNumber(s: seq<byte>, sign: nat, k: nat)
    requires sign == (if At(s, 0) == 45 then 1 else 0) && sign <= |s| && k == DigitRun(s[sign..]) > 0
    requires ParseNumber(s).Parsed?
    ensures sign + k <= |s| && !GoesOn(k, At(s, sign + k)) && IsDecimal(s[..sign + k])
    ensures var v := DigitsValue(s[sign..sign + k]);
      && v <= MAX_EXACT && (sign == 1 ==> v != 0)
      && ParseNumber(s) == Parsed(Number(if sign == 1 then -v else v), s[sign + k..])
  {
    hide IsDecimal, DigitsValue, DigitRun, GoesOn;
  }

  lemma DigitsMakeANumber(minus: bool, d: seq<byte>)
    requires d != [] && (forall i :: 0 <= i < |d| ==> IsDigit(d[i])) && IsDecimal((if minus then [45] else []) + d)
    requires DigitsValue(d) <= MAX_EXACT && (minus ==> DigitsValue(d) != 0)
    ensures IsNumber(minus, d) && ValueOf(d) == DigitsValue(d)
  {
    hide IsDecimal, ValueOf, DigitsValue;
    ValuesAgree(d);
    DecimalWhen(minus, d);
    DigitsAreNonnegative(d);
  }

  lemma RunPart(s: seq<byte>, sign: nat, k: nat)
    requires sign <= |s| && k == DigitRun(s[sign..])
    ensures sign + k <= |s| && !IsDigit(At(s, sign + k))
    ensures var d := s[sign..sign + k]; forall i :: 0 <= i < k ==> IsDigit(d[i])
  {
    hide DigitRun;
    RunIsDigits(s[sign..]);
    assert forall i :: 0 <= i < k ==> s[sign..sign + k][i] == s[sign..][i];
    assert At(s, sign + k) == At(s[sign..], k);
  }

  lemma EndsAt(d: Doc, s: seq<byte>, end: nat)
    requires d.NumberDoc? && end <= |s| && !IsDigit(At(s, end)) && !GoesOn(1, At(s, end))
    ensures Ends(d, s[end..])
  {
  }

  lemma ReadHasDigits(s: seq<byte>, sign: nat, k: nat) returns (d: Doc)
    requires sign == (if At(s, 0) == 45 then 1 else 0) && sign <= |s| && k == DigitRun(s[sign..]) > 0
    requires ParseNumber(s).Parsed?
    ensures Valid(d) && d.ws == [] && d.NumberDoc?
    ensures s == Core(d) + ParseNumber(s).rest && Meaning(d) == ParseNumber(s).value && Ends(d, ParseNumber(s).rest)
  {
    hide IsDecimal, ValueOf, DigitsValue, DigitRun, ParseNumber, IsNumber, Ends;
    ParsedNumber(s, sign, k);
    RunPart(s, sign, k);
    Parts(s, sign, k);
    DigitsMakeANumber(sign == 1, s[sign..sign + k]);
    d := NumberDoc([], sign == 1, s[sign..sign + k]);
    EndsAt(d, s, sign + k);
  }

  // ---- the parser reads every text of the grammar ----

  /** How a value begins. */
  predicate Starts(c: byte)
  {
    c in [34, 45, 91, 102, 110, 116, 123] || 48 <= c <= 57
  }

  lemma CoreStarts(d: Doc)
    requires Valid(d) && !d.BareMinusDoc?
    ensures Core(d) != [] && Starts(Core(d)[0])
  {
    hide ItemsText, MembersText, ItemsValid, MembersValid, ValueOf;
  }

  lemma SkipToCore(d: Doc, t: seq<byte>)
    requires Valid(d) && !d.BareMinusDoc?
    ensures SkipSpace(Core(d) + t) == Core(d) + t == SkipSpace(Text(d) + t) && At(Core(d) + t, 0) == Core(d)[0]
  {
    hide Core, IsNumber, ItemsValid, MembersValid;
    CoreStarts(d);
    SkipBlank(d.ws, Core(d) + t);
    assert Text(d) + t == d.ws + (Core(d) + t);
  }

  lemma LeafIsRead(d: Doc, rest: seq<byte>, n: nat)
    requires Valid(d) && Ends(d, rest) && n <= MAX_NESTING
    requires d.NullDoc? || d.TrueDoc? || d.FalseDoc? || d.NumberDoc? || d.StringDoc?
    ensures ParseValue(Core(d) + rest, n) == Parsed(Meaning(d), rest)
  {
    hide ParseItems, ParseMembers, ParseNumber, QuotedString;
    var s := Core(d) + rest;
    SkipToCore(d, rest);
    if d.NumberDoc? {
      assert s == (if d.minus then [45] else []) + d.digits + rest;
      NumberIsRead(d.minus, d.digits, rest);
    } else if d.StringDoc? {
      StringIsRead(d.ps, rest);
    } else {
      var w := Core(d);
      assert w <= s && s[|w|..] == rest && s[0] == w[0];
      assert d.FalseDoc? ==> s[0] != TextTrue()[0];
    }
  }

  lemma StringIsRead(ps: seq<S.Piece>, rest: seq<byte>)
    requires S.AllAllowed(ps)
    ensures QuotedString([34] + S.Texts(ps) + [34] + rest) == Some((CString(S.Meanings(ps)), rest))
  {
    hide BodyLength, Unescape, CString, WellEscaped, S.Texts, S.Meanings, S.AllAllowed;
    var b := S.Texts(ps);
    S.TextsAreRead(ps);
    BodyLengthOf(b, rest);
    Quoted(b, rest);
  }

  lemma Quoted(b: seq<byte>, rest: seq<byte>)
    ensures var s := [34] + b + [34] + rest;
      s[0] == 34 && s[1..] == b + [34] + rest && s[1..|b| + 1] == b && s[|b| + 2..] == rest
  {
    var s := [34] + b + [34] + rest;
    assert s[1..] == b + [34] + rest;
    assert s[1..|b| + 1] == b;
    assert s[|b| + 2..] == rest;
  }

  /** An item, and the bracket or comma behind its white space. */
  lemma AfterItem(d: Doc, after: seq<byte>, tail: seq<byte>)
    requires Valid(d) && Blank(after) && tail != [] && (tail[0] == 44 || tail[0] == 93 || tail[0] == 125)
    ensures SkipSpace(after + tail) == tail && (!d.BareMinusDoc? ==> Ends(d, after + tail))
  {
    SkipBlank(after, tail);
    assert (after + tail)[0] == if after == [] then tail[0] else after[0];
  }

  lemma ParseItemStep(t: seq<byte>, n: nat, acc: seq<Json>, v: Json, after: seq<byte>, tail: seq<byte>)
    requires At(t, 0) != 0 && ParseValue(t, n) == Parsed(v, after) && SkipSpace(after) == tail
    ensures At(tail, 0) == 44 ==> ParseItems(t, n, acc) == ParseItems(SkipSpace(tail[1..]), n, acc + [v])
    ensures At(tail, 0) == 93 ==> ParseItems(t, n, acc) == Parsed(Array(acc + [v]), tail[1..])
  {
    hide ParseValue;
  }

  lemma ItemIsRead(m: ItemDoc, tail: seq<byte>, acc: seq<Json>, n: nat)
    requires Valid(m.doc) && !m.doc.BareMinusDoc? && Blank(m.after) && tail != [] && (tail[0] == 44 || tail[0] == 93)
    requires ParseValue(Core(m.doc) + (m.after + tail), n) == Parsed(Meaning(m.doc), m.after + tail)
    ensures var t, v := SkipSpace(Text(m.doc) + (m.after + tail)), Meaning(m.doc);
      && At(t, 0) != 93
      && (tail[0] == 44 ==> ParseItems(t, n, acc) == ParseItems(SkipSpace(tail[1..]), n, acc + [v]))
      && (tail[0] == 93 ==> ParseItems(t, n, acc) == Parsed(Array(acc + [v]), tail[1..]))
  {
    hide ParseItems, ParseValue, Core, Text, Meaning, Valid;
    SkipBlank(m.after, tail);
    SkipToCore(m.doc, m.after + tail);
    CoreStarts(m.doc);
    ParseItemStep(Core(m.doc) + (m.after + tail), n, acc, Meaning(m.doc), m.after + tail, tail);
  }

  /** What is behind the white space of the first item. */
  function BehindItem(items: seq<ItemDoc>, rest: seq<byte>): seq<byte>
    requires items != [] && ItemsValid(items)
  {
    if |items| == 1 then [93] + rest else [44] + (ItemsText(items[1..]) + ([93] + rest))
  }

  lemma BehindItemIs(items: seq<ItemDoc>, rest: seq<byte>)
    requires items != [] && ItemsValid(items)
    ensures var tail := BehindItem(items, rest);
      && tail != [] && ItemsValid(items[1..])
      && if |items| == 1 then tail[0] == 93 && tail[1..] == rest
         else tail[0] == 44 && tail[1..] == ItemsText(items[1..]) + ([93] + rest)
  {
    hide ItemsText;
  }

  lemma ItemsTextIs(items: seq<ItemDoc>, rest: seq<byte>)
    requires items != [] && ItemsValid(items)
    ensures Valid(items[0].doc) && !items[0].doc.BareMinusDoc? && Blank(items[0].after)
    ensures ItemsText(items) + ([93] + rest) == Text(items[0].doc) + (items[0].after + BehindItem(items, rest))
  {
    hide Text, Valid, Blank;
    var more := if |items| == 1 then [] else [44] + ItemsText(items[1..]);
    MoreItems(items, more, rest);
    Group4(Text(items[0].doc), items[0].after, more, [93] + rest);
  }

  lemma Group4(a: seq<byte>, b: seq<byte>, c: seq<byte>, d: seq<byte>)
    ensures a + b + c + d == a + (b + (c + d))
  {
    Concat3(a + b, c, d);
    Concat3(a, b, c + d);
  }

  lemma MoreItems(items: seq<ItemDoc>, more: seq<byte>, rest: seq<byte>)
    requires items != [] && ItemsValid(items) && more == if |items| == 1 then [] else [44] + ItemsText(items[1..])
    ensures more + ([93] + rest) == BehindItem(items, rest)
  {
    hide ItemsText, Text, Valid;
    if |items| > 1 {
      Concat3([44], ItemsText(items[1..]), [93] + rest);
    }
  }

  lemma ItemValuesIs(items: seq<ItemDoc>, acc: seq<Json>)
    requires items != [] && ItemsValid(items)
    ensures Valid(items[0].doc) && ItemsValid(items[1..])
    ensures ItemValues(items) == [Meaning(items[0].doc)] + ItemValues(items[1..])
    ensures acc + ItemValues(items) == acc + [Meaning(items[0].doc)] + ItemValues(items[1..])
  {
    hide Meaning, Valid;
    Concat3(acc, [Meaning(items[0].doc)], ItemValues(items[1..]));
  }

  lemma {:induction false} ItemsAreRead(items: seq<ItemDoc>, acc: seq<Json>, rest: seq<byte>, n: nat)
    requires items != [] && ItemsValid(items)
    requires forall i :: 0 <= i < |items| ==> Fits(ItemValues(items)[i], MAX_NESTING - n)
    ensures var t := SkipSpace(ItemsText(items) + ([93] + rest));
      At(t, 0) != 93 && ParseItems(t, n, acc) == Parsed(Array(acc + ItemValues(items)), rest)
    decreases items, 0
  {
    hide ParseItems, ParseValue, Core, Text, Ends, Fits, Blank, Valid, Meaning, ItemsText, ItemValues, ItemsValid;
    hide BehindItem, SkipSpace;
    var d, after, tail := items[0].doc, items[0].after, BehindItem(items, rest);
    BehindItemIs(items, rest);
    ItemsTextIs(items, rest);
    ItemValuesIs(items, acc);
    assert ItemValues(items)[0] == Meaning(d);
    assert forall i :: 0 <= i < |items| - 1 ==> ItemValues(items[1..])[i] == ItemValues(items)[i + 1];
    AfterItem(d, after, tail);
    DocIsRead(d, after + tail, n);
    ItemIsRead(items[0], tail, acc, n);
    if |items| == 1 {
      NoTail(acc + [Meaning(d)]);
      assert ItemValues(items[1..]) == [];
    } else {
      ItemsAreRead(items[1..], acc + [Meaning(d)], rest, n);
    }
  }

  lemma ArrayIsRead(d: Doc, rest: seq<byte>, n: nat)
    requires d.ArrayDoc? && Valid(d) && Fits(Meaning(d), MAX_NESTING - n)
    ensures ParseValue(Core(d) + rest, n) == Parsed(Meaning(d), rest)
    decreases d, 0
  {
    hide ParseItems, ParseMembers, ParseNumber, QuotedString, ItemsText, ItemsValid, ItemValues;
    var s := Core(d) + rest;
    SkipToCore(d, rest);
    if d.items == [] {
      assert s[1..] == d.inner + ([93] + rest);
      SkipBlank(d.inner, [93] + rest);
      assert ItemValues([]) == [];
    } else {
      assert s[1..] == ItemsText(d.items) + ([93] + rest);
      ItemsAreRead(d.items, [], rest, n + 1);
      assert [] + ItemValues(d.items) == ItemValues(d.items);
    }
  }

  lemma ParseMemberStep(t: seq<byte>, n: nat, acc: seq<Member>, name: seq<byte>, u: seq<byte>, v: Json,
                        after: seq<byte>, tail: seq<byte>)
    requires QuotedString(t).Some? && QuotedString(t).value.0 == name && SkipSpace(QuotedString(t).value.1) == u
    requires At(u, 0) == 58 && ParseValue(u[1..], n) == Parsed(v, after) && SkipSpace(after) == tail
    requires !HasName(acc, name)
    ensures var all := acc + [Member(name, v)];
      && (At(tail, 0) == 44 ==> ParseMembers(t, n, acc) == ParseMembers(SkipSpace(tail[1..]), n, all))
      && (At(tail, 0) == 125 ==> ParseMembers(t, n, acc) == Parsed(Object(all), tail[1..]))
  {
    hide ParseValue, QuotedString, HasName;
  }

  /** No name of the members is in acc or comes twice. */
  predicate NewNames(acc: seq<Member>, ms: seq<MemberDoc>)
  {
    && (forall i :: 0 <= i < |ms| ==> !HasName(acc, NameOf(ms[i])))
    && forall i, j :: 0 <= i < j < |ms| ==> NameOf(ms[i]) != NameOf(ms[j])
  }

  lemma OneNameLess(acc: seq<Member>, ms: seq<MemberDoc>, v: Json)
    requires ms != [] && NewNames(acc, ms)
    ensures !HasName(acc, NameOf(ms[0])) && NewNames(acc + [Member(NameOf(ms[0]), v)], ms[1..])
  {
    hide NameOf;
    var all := acc + [Member(NameOf(ms[0]), v)];
    forall i | 0 <= i < |ms| - 1 ensures !HasName(all, NameOf(ms[1..][i])) {
      assert forall k :: 0 <= k < |all| ==> all[k] == if k < |acc| then acc[k] else Member(NameOf(ms[0]), v);
    }
  }

  /** The text of a member, and what is behind it. */
  function MemberAnd(m: MemberDoc, tail: seq<byte>): seq<byte>
    requires S.AllAllowed(m.name) && Valid(m.doc)
  {
    m.before + ([34] + S.Texts(m.name) + [34] + (m.colon + ([58] + (Text(m.doc) + (m.after + tail)))))
  }

  lemma MemberIsRead(m: MemberDoc, tail: seq<byte>, acc: seq<Member>, n: nat)
    requires Blank(m.before) && S.AllAllowed(m.name) && Blank(m.colon) && Valid(m.doc) && Blank(m.after)
    requires tail != [] && (tail[0] == 44 || tail[0] == 125) && !HasName(acc, NameOf(m))
    requires ParseValue(Text(m.doc) + (m.after + tail), n) == Parsed(Meaning(m.doc), m.after + tail)
    ensures var t, all := SkipSpace(MemberAnd(m, tail)), acc + [Member(NameOf(m), Meaning(m.doc))];
      && At(t, 0) == 34
      && (tail[0] == 44 ==> ParseMembers(t, n, acc) == ParseMembers(SkipSpace(tail[1..]), n, all))
      && (tail[0] == 125 ==> ParseMembers(t, n, acc) == Parsed(Object(all), tail[1..]))
  {
    hide ParseMembers, ParseValue, QuotedString, Text, Meaning, Valid, NameOf, HasName, S.Texts, S.AllAllowed;
    var u := [58] + (Text(m.doc) + (m.after + tail));
    var t := [34] + S.Texts(m.name) + [34] + (m.colon + u);
    SkipBlank(m.before, t);
    SkipBlank(m.colon, u);
    SkipBlank(m.after, tail);
    StringIsRead(m.name, m.colon + u);
    NameIs(m);
    assert u[1..] == Text(m.doc) + (m.after + tail);
    ParseMemberStep(t, n, acc, NameOf(m), u, Meaning(m.doc), m.after + tail, tail);
  }

  function BehindMember(ms: seq<MemberDoc>, rest: seq<byte>): seq<byte>
    requires ms != [] && MembersValid(ms)
  {
    if |ms| == 1 then [125] + rest else [44] + (MembersText(ms[1..]) + ([125] + rest))
  }

  lemma BehindMemberIs(ms: seq<MemberDoc>, rest: seq<byte>)
    requires ms != [] && MembersValid(ms)
    ensures var tail := BehindMember(ms, rest);
      && tail != [] && MembersValid(ms[1..])
      && if |ms| == 1 then tail[0] == 125 && tail[1..] == rest
         else tail[0] == 44 && tail[1..] == MembersText(ms[1..]) + ([125] + rest)
  {
    hide MembersText;
  }

  lemma MembersTextIs(ms: seq<MemberDoc>, rest: seq<byte>)
    requires ms != [] && MembersValid(ms)
    ensures var m := ms[0];
      && Blank(m.before) && S.AllAllowed(m.name) && Blank(m.colon) && Valid(m.doc) && !m.doc.BareMinusDoc?
      && Blank(m.after) && MembersText(ms) + ([125] + rest) == MemberAnd(m, BehindMember(ms, rest))
  {
    hide Text, Valid, Blank, S.AllAllowed, S.Texts;
    var m := ms[0];
    var more := if |ms| == 1 then [] else [44] + MembersText(ms[1..]);
    MoreMembers(ms, more, rest);
    Regroup(m.before, [34] + S.Texts(m.name) + [34], m.colon, [58], Text(m.doc), m.after, more, [125] + rest);
  }

  lemma MoreMembers(ms: seq<MemberDoc>, more: seq<byte>, rest: seq<byte>)
    requires ms != [] && MembersValid(ms) && more == if |ms| == 1 then [] else [44] + MembersText(ms[1..])
    ensures more + ([125] + rest) == BehindMember(ms, rest)
  {
    hide MembersText, Text, Valid;
    if |ms| > 1 {
      Concat3([44], MembersText(ms[1..]), [125] + rest);
    }
  }

  lemma MemberValuesIs(ms: seq<MemberDoc>, acc: seq<Member>)
    requires ms != [] && MembersValid(ms)
    ensures Valid(ms[0].doc) && MembersValid(ms[1..])
    ensures var m := Member(NameOf(ms[0]), Meaning(ms[0].doc));
      && MemberValues(ms) == [m] + MemberValues(ms[1..])
      && acc + MemberValues(ms) == acc + [m] + MemberValues(ms[1..])
  {
    hide Meaning, Valid, NameOf;
    Concat3(acc, [Member(NameOf(ms[0]), Meaning(ms[0].doc))], MemberValues(ms[1..]));
  }

  lemma {:induction false} MembersAreRead(ms: seq<MemberDoc>, acc: seq<Member>, rest: seq<byte>, n: nat)
    requires ms != [] && MembersValid(ms) && NewNames(acc, ms)
    requires forall i :: 0 <= i < |ms| ==> Fits(MemberValues(ms)[i].value, MAX_NESTING - n)
    ensures var t := SkipSpace(MembersText(ms) + ([125] + rest));
      At(t, 0) != 125 && ParseMembers(t, n, acc) == Parsed(Object(acc + MemberValues(ms)), rest)
    decreases ms, 0
  {
    hide ParseMembers, ParseValue, Core, Text, Ends, Fits, Blank, NameOf, NewNames, HasName, BehindMember, SkipSpace;
    hide MemberAnd, S.AllAllowed, Valid, Meaning, MembersText, MemberValues, MembersValid;
    var m, tail := ms[0], BehindMember(ms, rest);
    BehindMemberIs(ms, rest);
    MembersTextIs(ms, rest);
    MemberValuesIs(ms, acc);
    var d, all := m.doc, acc + [Member(NameOf(m), Meaning(m.doc))];
    assert MemberValues(ms)[0] == Member(NameOf(m), Meaning(d));
    assert forall i :: 0 <= i < |ms| - 1 ==> MemberValues(ms[1..])[i] == MemberValues(ms)[i + 1];
    OneNameLess(acc, ms, Meaning(d));
    AfterItem(d, m.after, tail);
    DocIsRead(d, m.after + tail, n);
    SkipToCore(d, m.after + tail);
    SameSkipped(Text(d) + (m.after + tail), Core(d) + (m.after + tail), n);
    MemberIsRead(m, tail, acc, n);
    if |ms| == 1 {
      NoTail(all);
      assert MemberValues(ms[1..]) == [];
    } else {
      MembersAreRead(ms[1..], all, rest, n);
    }
  }

  lemma NameIs(m: MemberDoc)
    requires S.AllAllowed(m.name)
    ensures NameOf(m) == CString(S.Meanings(m.name))
  {
  }

  lemma Regroup(a: seq<byte>, k: seq<byte>, c: seq<byte>, x: seq<byte>, d: seq<byte>, e: seq<byte>, f: seq<byte>,
                g: seq<byte>)
    ensures a + k + c + x + d + e + f + g == a + (k + (c + (x + (d + (e + (f + g))))))
  {
    Concat5(a + k + c, x, d, e, f + g);
    Concat3(a + k + c + x + d + e, f, g);
    Concat4(a, k, c, x + (d + (e + (f + g))));
    Concat3(k, c, x + (d + (e + (f + g))));
  }

  lemma ObjectIsRead(d: Doc, rest: seq<byte>, n: nat)
    requires d.ObjectDoc? && Valid(d) && Fits(Meaning(d), MAX_NESTING - n)
    ensures ParseValue(Core(d) + rest, n) == Parsed(Meaning(d), rest)
    decreases d, 0
  {
    hide ParseItems, ParseMembers, ParseNumber, QuotedString, MembersText, MembersValid, MemberValues, NameOf;
    hide IsNumber, ItemsValid;
    var s := Core(d) + rest;
    SkipToCore(d, rest);
    if d.members == [] {
      assert s[1..] == d.inner + ([125] + rest);
      SkipBlank(d.inner, [125] + rest);
      assert MemberValues([]) == [];
    } else {
      assert s[1..] == MembersText(d.members) + ([125] + rest);
      NamesAreNew(d);
      MembersAreRead(d.members, [], rest, n + 1);
      assert [] + MemberValues(d.members) == MemberValues(d.members);
    }
  }

  lemma NamesAreNew(d: Doc)
    requires d.ObjectDoc? && Valid(d)
    ensures NewNames([], d.members)
  {
    hide NameOf, MembersValid;
  }

  /** The parser reads every text of the grammar, from behind its white space. */
  lemma {:induction false} DocIsRead(d: Doc, rest: seq<byte>, n: nat)
    requires Valid(d) && !d.BareMinusDoc? && Ends(d, rest) && Fits(Meaning(d), MAX_NESTING - n)
    ensures ParseValue(Core(d) + rest, n) == Parsed(Meaning(d), rest)
    decreases d, 1
  {
    hide ParseValue, Core, Ends;
    match d
    case ArrayDoc(_, _, _) => ArrayIsRead(d, rest, n);
    case ObjectDoc(_, _, _) => ObjectIsRead(d, rest, n);
    case _ => LeafIsRead(d, rest, n);
  }

  lemma BareIsZero(rest: seq<byte>)
    requires Ends(BareMinusDoc([]), rest)
    ensures ParseNumber(rest) == Parsed(Number(0), rest)
  {
    hide IsDecimal, DigitsValue;
    assert At(rest[1..], 0) == At(rest, 1);
  }

  lemma BareMinusIsRead(d: Doc, rest: seq<byte>, n: nat)
    requires d.BareMinusDoc? && Valid(d) && Ends(d, rest) && n <= MAX_NESTING
    ensures ParseValue(Text(d) + rest, n) == Parsed(Meaning(d), rest)
  {
    hide ParseItems, ParseMembers, QuotedString, ParseNumber;
    SkipBlank(d.ws, rest);
    assert Text(d) + rest == d.ws + rest;
    BareIsZero(rest);
  }
}
