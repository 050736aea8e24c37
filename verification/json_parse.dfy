/** The recursive-descent parser of parson.c. A text pointer is the rest of the text it points at. */
module JsonParser {
  import opened Bytes
  import opened JsonTree
  import opened JsonString
  import opened JsonPrinter

  const MAX_NESTING: nat := 2048

  /** Unmodelled: the text holds a number that is not one of the exact integers of `Json`. */
  datatype Parse = Parsed(value: Json, rest: seq<byte>) | Rejected | Unmodelled

  predicate IsSpace(c: byte) { c == SPACE || 9 <= c <= 13 }
  predicate IsDigit(c: byte) { 48 <= c <= 57 }

  function SkipSpace(s: seq<byte>): (r: seq<byte>)
    ensures |r| <= |s|
  {
    if IsSpace(At(s, 0)) then SkipSpace(s[1..]) else s
  }

  // ---- parse_number_value ----

  function DigitRun(s: seq<byte>): (n: nat)
    ensures n <= |s|
  {
    if IsDigit(At(s, 0)) then 1 + DigitRun(s[1..]) else 0
  }

  /** The number a run of digits stands for. */
  function DigitsValue(s: seq<byte>): int
  {
    if s == [] then 0 else DigitsValue(s[..|s| - 1]) * 10 + s[|s| - 1] as int - 48
  }

  /** is_decimal */
  predicate IsDecimal(s: seq<byte>)
  {
    !(|s| > 1 && s[0] == 48 && s[1] != DOT) &&
    !(|s| > 2 && s[0] == MINUS && s[1] == 48 && s[2] != DOT) &&
    forall i :: 0 <= i < |s| ==> s[i] != 120 && s[i] != 88
  }

  /** What may turn a sign or a run of digits into a longer literal of strtod. */
  predicate GoesOn(digits: nat, c: byte)
  {
    c == DOT || (digits == 0 && c in [73, 105, 78, 110]) || (digits > 0 && c in [69, 101, 88, 120])
  }

  function ParseNumber(s: seq<byte>): (r: Parse)
    ensures r.Parsed? ==> |r.rest| <= |s|
  {
    var sign := if At(s, 0) == MINUS then 1 else 0;
    var k := DigitRun(s[sign..]);
    var token := s[..sign + k];
    var v := DigitsValue(s[sign..sign + k]);
    if GoesOn(k, At(s, sign + k)) then Unmodelled
    else if k == 0 then Parsed(Number(0), s) // strtod converts nothing, and is_decimal accepts the empty text
    else if !IsDecimal(token) then Rejected
    else if v > MAX_EXACT || (v == 0 && sign == 1) then Unmodelled
    else Parsed(Number(if sign == 1 then -v else v), s[sign + k..])
  }

  // ---- parse_value ----

  function ParseValue(text: seq<byte>, nesting: nat): (r: Parse)
    ensures r.Parsed? ==> |r.rest| <= |text|
    decreases |text|, 1
  {
    if nesting > MAX_NESTING then Rejected
    else
      var s := SkipSpace(text);
      var c := At(s, 0);
      if c == LBRACE then
        var t := SkipSpace(s[1..]);
        if At(t, 0) == RBRACE then Parsed(Object([]), t[1..]) else ParseMembers(t, nesting + 1, [])
      else if c == LBRACKET then
        var t := SkipSpace(s[1..]);
        if At(t, 0) == RBRACKET then Parsed(Array([]), t[1..]) else ParseItems(t, nesting + 1, [])
      else if c == QUOTE then
        match QuotedString(s)
        case None => Rejected
        case Some(q) => Parsed(String(q.0), q.1)
      else if c == 102 || c == 116 then
        if TextTrue() <= s then Parsed(Bool(true), s[4..])
        else if TextFalse() <= s then Parsed(Bool(false), s[5..])
        else Rejected
      else if c == MINUS || IsDigit(c) then ParseNumber(s)
      else if c == 110 then if TextNull() <= s then Parsed(Null, s[4..]) else Rejected
      else Rejected
  }

  /** The loop of parse_array_value, with the items read so far. */
  function ParseItems(text: seq<byte>, nesting: nat, items: seq<Json>): (r: Parse)
    ensures r.Parsed? ==> |r.rest| <= |text|
    decreases |text|, 2
  {
    if At(text, 0) == 0 then Rejected
    else
      var v := ParseValue(text, nesting);
      if !v.Parsed? then v
      else
        var s := SkipSpace(v.rest);
        if At(s, 0) == COMMA then ParseItems(SkipSpace(s[1..]), nesting, items + [v.value])
        else if At(s, 0) == RBRACKET then Parsed(Array(items + [v.value]), s[1..])
        else Rejected
  }

  /** The loop of parse_object_value. A name that is already there is an error. */
  function ParseMembers(text: seq<byte>, nesting: nat, ms: seq<Member>): (r: Parse)
    ensures r.Parsed? ==> |r.rest| <= |text|
    decreases |text|, 2
  {
    match QuotedString(text)
    case None => Rejected
    case Some(key) =>
      var t := SkipSpace(key.1);
      if At(t, 0) != COLON then Rejected
      else
        var v := ParseValue(t[1..], nesting);
        if !v.Parsed? then v
        else if Lookup(ms, key.0).Some? then Rejected
        else
          var all := ms + [Member(key.0, v.value)];
          var s := SkipSpace(v.rest);
          if At(s, 0) == COMMA then ParseMembers(SkipSpace(s[1..]), nesting, all)
          else if At(s, 0) == RBRACE then Parsed(Object(all), s[1..])
          else Rejected
  }

  /** json_parse_string: a byte order mark is skipped, and what follows the value is ignored. */
  function ParseString(s: seq<byte>): Parse
  {
    ParseValue(if [0xEF, 0xBB, 0xBF] <= s then s[3..] else s, 0)
  }

  // ---- the parser's own loops; a C string holds no NUL ----

  method SkipWhitespaces(text: seq<byte>) returns (s: seq<byte>)
    requires 0 !in text
    ensures s == SkipSpace(text) && 0 !in s
  {
    s := text;
    while IsSpace(At(s, 0))
      invariant SkipSpace(s) == SkipSpace(text) && 0 !in s
      decreases |s|
    {
      s := s[1..];
    }
  }

  lemma TokenInText(s: seq<byte>, n: nat)
    requires 0 !in s && At(s, 0) == QUOTE && BodyLength(s[1..]) == Some(n)
    ensures var t := s + [0]; Terminated(t) && 1 + n < |s| && t[1 + n] == QUOTE && WellEscaped(t[1..1 + n])
    ensures (s + [0])[1..1 + n] == s[1..n + 1]
  {
    BodyIsWellEscaped(s[1..]);
    assert s[1..][..n] == s[1..n + 1];
    assert s[1..][n] == s[n + 1];
    assert (s + [0])[1..1 + n] == s[1..n + 1];
  }

  /** get_quoted_string */
  method GetQuotedString(s: seq<byte>) returns (r: Option<(seq<byte>, seq<byte>)>)
    requires 0 !in s
    ensures r == QuotedString(s)
    ensures r.Some? ==> 0 !in r.value.1
  {
    var rest := SkipQuotes(s);
    if rest == None {
      return None;
    }
    var len := |s| - |rest.value| - 2;
    TokenInText(s, len);
    var x, _ := ProcessString(s + [0], 1, len);
    if x == None {
      return None;
    }
    return Some((CString(x.value), rest.value));
  }

  /** parse_value */
  method ParseAny(text: seq<byte>, nesting: nat) returns (r: Parse)
    requires 0 !in text
    ensures r == ParseValue(text, nesting) && (r.Parsed? ==> 0 !in r.rest)
    decreases |text|, 2
  {
    if nesting > MAX_NESTING {
      return Rejected;
    }
    var s := SkipWhitespaces(text);
    var c := At(s, 0);
    if c == LBRACE {
      r := ParseObject(s, nesting + 1);
    } else if c == LBRACKET {
      r := ParseArray(s, nesting + 1);
    } else if c == QUOTE {
      var q := GetQuotedString(s);
      r := match q case None => Rejected case Some(x) => Parsed(String(x.0), x.1);
    } else if c == 102 || c == 116 {
      r := if TextTrue() <= s then Parsed(Bool(true), s[4..])
        else if TextFalse() <= s then Parsed(Bool(false), s[5..])
        else Rejected;
    } else if c == MINUS || IsDigit(c) {
      r := ParseNumber(s);
      NumberLeavesSuffix(s);
    } else if c == 110 {
      r := if TextNull() <= s then Parsed(Null, s[4..]) else Rejected;
    } else {
      r := Rejected;
    }
  }

  lemma NumberLeavesSuffix(s: seq<byte>)
    requires 0 !in s
    ensures ParseNumber(s).Parsed? ==> 0 !in ParseNumber(s).rest
  {
  }

  /** parse_array_value */
  method ParseArray(text: seq<byte>, nesting: nat) returns (r: Parse)
    requires 0 !in text && At(text, 0) == LBRACKET
    ensures var t := SkipSpace(text[1..]);
      r == if At(t, 0) == RBRACKET then Parsed(Array([]), t[1..]) else ParseItems(t, nesting, [])
    ensures r.Parsed? ==> 0 !in r.rest
    decreases |text|, 1
  {
    var s := SkipWhitespaces(text[1..]);
    if At(s, 0) == RBRACKET {
      return Parsed(Array([]), s[1..]);
    }
    ghost var first := s;
    var items: seq<Json> := [];
    while At(s, 0) != 0
      invariant |s| < |text| && 0 !in s
      invariant ParseItems(s, nesting, items) == ParseItems(first, nesting, [])
      decreases |s|
    {
      var v := ParseAny(s, nesting);
      if !v.Parsed? {
        return v;
      }
      items := items + [v.value];
      s := SkipWhitespaces(v.rest);
      if At(s, 0) != COMMA {
        if At(s, 0) != RBRACKET {
          return Rejected;
        }
        return Parsed(Array(items), s[1..]);
      }
      s := SkipWhitespaces(s[1..]);
    }
    return Rejected;
  }

  /** parse_object_value */
  method ParseObject(text: seq<byte>, nesting: nat) returns (r: Parse)
    requires 0 !in text && At(text, 0) == LBRACE
    ensures var t := SkipSpace(text[1..]);
      r == if At(t, 0) == RBRACE then Parsed(Object([]), t[1..]) else ParseMembers(t, nesting, [])
    ensures r.Parsed? ==> 0 !in r.rest
    decreases |text|, 1
  {
    var s := SkipWhitespaces(text[1..]);
    if At(s, 0) == RBRACE {
      return Parsed(Object([]), s[1..]);
    }
    ghost var first := s;
    var ms: seq<Member> := [];
    while At(s, 0) != 0
      invariant |s| < |text| && 0 !in s
      invariant ParseMembers(s, nesting, ms) == ParseMembers(first, nesting, [])
      decreases |s|
    {
      var key := GetQuotedString(s);
      if key == None {
        return Rejected;
      }
      var t := SkipWhitespaces(key.value.1);
      if At(t, 0) != COLON {
        return Rejected;
      }
      var v := ParseAny(t[1..], nesting);
      if !v.Parsed? {
        return v;
      }
      if Lookup(ms, key.value.0) != None {
        return Rejected;
      }
      ms := ms + [Member(key.value.0, v.value)];
      s := SkipWhitespaces(v.rest);
      if At(s, 0) != COMMA {
        if At(s, 0) != RBRACE {
          return Rejected;
        }
        return Parsed(Object(ms), s[1..]);
      }
      s := SkipWhitespaces(s[1..]);
    }
    return Rejected;
  }

  // ---- what is accepted ----

  /** A well-formed tree of at most d levels below the root. */
  predicate Good(v: Json, d: int) { WellFormed(v) && Fits(v, d) }

  /** Whatever text is accepted, every object of the result has unique names, every string is a
      C string, and no node lies below the nesting limit. */
  lemma {:induction false} ParsedIsGood(text: seq<byte>, nesting: nat)
    requires ParseValue(text, nesting).Parsed?
    ensures Good(ParseValue(text, nesting).value, MAX_NESTING - nesting)
    decreases |text|, 1
  {
    hide ParseNumber, ParseItems, ParseMembers, QuotedString, Good;
    var s := SkipSpace(text);
    var c := At(s, 0);
    LeavesAreGood(MAX_NESTING - nesting);
    if c == LBRACE {
      var t := SkipSpace(s[1..]);
      if At(t, 0) != RBRACE {
        MembersAreGood(t, nesting + 1, []);
      }
    } else if c == LBRACKET {
      var t := SkipSpace(s[1..]);
      if At(t, 0) != RBRACKET {
        ItemsAreGood(t, nesting + 1, []);
      }
    } else if c == QUOTE {
      QuotedHasNoNul(s);
    } else if c == MINUS || IsDigit(c) {
      NumberIsExact(s);
      NumberIsShallow(ParseNumber(s).value, MAX_NESTING - nesting);
    }
  }

  lemma LeavesAreGood(d: int)
    requires d >= 0
    ensures Good(Null, d) && Good(Bool(true), d) && Good(Bool(false), d) && Good(Array([]), d) && Good(Object([]), d)
    ensures forall s :: 0 !in s ==> Good(String(s), d)
  {
  }

  lemma NumberIsShallow(v: Json, d: int)
    requires Good(v, 0) && v.Number? && d >= 0
    ensures Good(v, d)
  {
  }

  lemma QuotedHasNoNul(s: seq<byte>)
    requires QuotedString(s).Some?
    ensures 0 !in QuotedString(s).value.0
  {
    CStringIsPrefix(Unescape(s[1..BodyLength(s[1..]).value + 1]).value);
  }

  lemma {:induction false} DigitsAreNonnegative(s: seq<byte>)
    requires forall i :: 0 <= i < |s| ==> IsDigit(s[i])
    ensures DigitsValue(s) >= 0
  {
    if s != [] { DigitsAreNonnegative(s[..|s| - 1]); }
  }

  lemma {:induction false} RunHoldsDigits(s: seq<byte>)
    ensures forall i :: 0 <= i < DigitRun(s) ==> IsDigit(s[i])
  {
    if IsDigit(At(s, 0)) {
      RunHoldsDigits(s[1..]);
      forall i | 0 <= i < DigitRun(s) ensures IsDigit(s[i]) {
        assert i > 0 ==> s[i] == s[1..][i - 1];
      }
    }
  }

  /** A minus without a digit is accepted, as 0, and left where it is; no other accepted number consumes
      nothing. */
  lemma BareMinus(s: seq<byte>)
    requires (At(s, 0) == MINUS || IsDigit(At(s, 0))) && ParseNumber(s).Parsed?
    ensures ParseNumber(s).rest == s <==> At(s, 0) == MINUS && !IsDigit(At(s, 1))
    ensures ParseNumber(s).rest == s ==> ParseNumber(s).value == Number(0)
  {
    hide IsDecimal, DigitsValue, GoesOn;
    DigitAtFront(s);
    DigitAtFront(s[1..]);
    assert At(s, 1) == At(s[1..], 0);
  }

  lemma DigitAtFront(s: seq<byte>)
    ensures DigitRun(s) > 0 <==> IsDigit(At(s, 0))
  {
  }

  /** So a text of a minus alone is the number 0, and what is left of it is the minus. */
  lemma MinusAlone()
    ensures ParseString([MINUS]) == Parsed(Number(0), [MINUS])
  {
    var s := [MINUS];
    assert s[1..] == [] && SkipSpace(s) == s && !([0xEF, 0xBB, 0xBF] <= s);
    assert DigitRun([]) == 0 && s[1..1] == [];
  }

  /** As an item of an array or the value of a member it is rejected all the same, since neither a comma nor a
      bracket comes next. */
  lemma BareMinusIsNoItem(text: seq<byte>, nesting: nat, items: seq<Json>)
    requires var s := SkipSpace(text); At(s, 0) == MINUS && !IsDigit(At(s, 1)) && ParseValue(text, nesting).Parsed?
    ensures ParseItems(text, nesting, items) == Rejected
  {
    var s := SkipSpace(text);
    assert ParseValue(text, nesting) == ParseNumber(s);
    hide ParseValue, ParseNumber;
    BareMinus(s);
    assert SkipSpace(s) == s;
  }

  lemma BareMinusIsNoMember(text: seq<byte>, nesting: nat, ms: seq<Member>)
    requires QuotedString(text).Some?
    requires var t := SkipSpace(QuotedString(text).value.1);
      && At(t, 0) == COLON
      && var s := SkipSpace(t[1..]);
      At(s, 0) == MINUS && !IsDigit(At(s, 1)) && ParseValue(t[1..], nesting).Parsed?
    ensures ParseMembers(text, nesting, ms) == Rejected
  {
    var t := SkipSpace(QuotedString(text).value.1);
    var s := SkipSpace(t[1..]);
    assert ParseValue(t[1..], nesting) == ParseNumber(s);
    hide ParseValue, ParseNumber;
    BareMinus(s);
    assert SkipSpace(s) == s;
  }

  lemma NumberIsExact(s: seq<byte>)
    requires ParseNumber(s).Parsed?
    ensures ParseNumber(s).value.Number? && Good(ParseNumber(s).value, 0)
  {
    var sign := if At(s, 0) == MINUS then 1 else 0;
    var k := DigitRun(s[sign..]);
    RunHoldsDigits(s[sign..]);
    var d := s[sign..sign + k];
    forall i | 0 <= i < |d| ensures IsDigit(d[i]) {
      assert d[i] == s[sign..][i];
    }
    DigitsAreNonnegative(d);
  }

  lemma {:induction false} ItemsAreGood(text: seq<byte>, nesting: nat, items: seq<Json>)
    requires ParseItems(text, nesting, items).Parsed?
    requires nesting <= MAX_NESTING + 1 && Good(Array(items), MAX_NESTING + 1 - nesting)
    ensures Good(ParseItems(text, nesting, items).value, MAX_NESTING + 1 - nesting)
    decreases |text|, 2
  {
    var v := ParseValue(text, nesting);
    ParsedIsGood(text, nesting);
    var s := SkipSpace(v.rest);
    if At(s, 0) == COMMA {
      ItemsAreGood(SkipSpace(s[1..]), nesting, items + [v.value]);
    }
  }

  lemma {:induction false} MembersAreGood(text: seq<byte>, nesting: nat, ms: seq<Member>)
    requires ParseMembers(text, nesting, ms).Parsed?
    requires nesting <= MAX_NESTING + 1 && Good(Object(ms), MAX_NESTING + 1 - nesting)
    ensures Good(ParseMembers(text, nesting, ms).value, MAX_NESTING + 1 - nesting)
    decreases |text|, 2
  {
    hide QuotedString, ParseValue, Good;
    var key := QuotedString(text).value;
    QuotedHasNoNul(text);
    var t := SkipSpace(key.1);
    var v := ParseValue(t[1..], nesting);
    ParsedIsGood(t[1..], nesting);
    var all := ms + [Member(key.0, v.value)];
    AddedIsGood(ms, key.0, v.value, MAX_NESTING + 1 - nesting);
    var s := SkipSpace(v.rest);
    if At(s, 0) == COMMA {
      MembersAreGood(SkipSpace(s[1..]), nesting, all);
    }
  }

  lemma AddedIsGood(ms: seq<Member>, name: seq<byte>, v: Json, d: int)
    requires Good(Object(ms), d) && Good(v, d - 1) && 0 !in name && !HasName(ms, name)
    ensures Good(Object(ms + [Member(name, v)]), d)
  {
  }
}
