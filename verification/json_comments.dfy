/** remove_comments, and why it leaves printed JSON alone. */
module JsonComments {
  import opened Bytes
  import opened JsonTree
  import opened Sequences
  import opened JsonString
  import opened JsonPrinter
  import opened JsonParser
  import RT = JsonRoundTrip

  const STAR: byte := 42

  function BlockStart(): seq<byte> { [SLASH, STAR] }
  function BlockEnd(): seq<byte> { [STAR, SLASH] }
  function LineStart(): seq<byte> { [SLASH, SLASH] }
  function LineEnd(): seq<byte> { [NEWLINE] }

  function Blanks(n: nat): (b: seq<byte>)
    ensures |b| == n
  {
    seq(n, _ => SPACE)
  }

  /** strstr: the first place of a token in a text that ends at its first NUL. */
  function IndexOf(s: seq<byte>, token: seq<byte>): (k: Option<nat>)
    ensures k.Some? ==> k.value + |token| <= |s| && token <= s[k.value..]
  {
    if token <= s then Some(0)
    else if At(s, 0) == 0 then None
    else match IndexOf(s[1..], token) case None => None case Some(k) => Some(k + 1)
  }

  /** The length of the comment at the front of s, None when it is not closed. */
  function CommentLength(s: seq<byte>, start: seq<byte>, end: seq<byte>): (n: Option<nat>)
    requires start <= s
    ensures n.Some? ==> |start| + |end| <= n.value <= |s|
  {
    match IndexOf(s[|start|..], end) case None => None case Some(k) => Some(|start| + k + |end|)
  }

  /** The text after the scan: comments are blanked, outside strings only. An unclosed comment
      loses its opening token and ends the scan. */
  function Strip(s: seq<byte>, start: seq<byte>, end: seq<byte>, inString: bool, escaped: bool): (r: seq<byte>)
    requires start != [] && end != []
    decreases |s|
  {
    if At(s, 0) == 0 then s
    else if s[0] == BACKSLASH && !escaped then [s[0]] + Strip(s[1..], start, end, inString, true)
    else if s[0] == QUOTE && !escaped then [s[0]] + Strip(s[1..], start, end, !inString, false)
    else if !inString && start <= s then
      match CommentLength(s, start, end)
      case None => Blanks(|start|) + s[|start|..]
      case Some(n) => Blanks(n) + Strip(s[n..], start, end, inString, false)
    else [s[0]] + Strip(s[1..], start, end, inString, false)
  }

  predicate BlankedOrKept(s: seq<byte>, r: seq<byte>)
  {
    |r| == |s| && forall i :: 0 <= i < |s| ==> r[i] == s[i] || r[i] == SPACE
  }

  /** The scan keeps the length, and changes bytes into blanks only. */
  lemma {:induction false} StripBlanks(s: seq<byte>, start: seq<byte>, end: seq<byte>, inString: bool, escaped: bool)
    requires start != [] && end != []
    ensures BlankedOrKept(s, Strip(s, start, end, inString, escaped))
    decreases |s|
  {
    if At(s, 0) == 0 {
    } else if s[0] == BACKSLASH && !escaped {
      StripBlanks(s[1..], start, end, inString, true);
    } else if s[0] == QUOTE && !escaped {
      StripBlanks(s[1..], start, end, !inString, false);
    } else if !inString && start <= s {
      var n := CommentLength(s, start, end);
      if n.Some? {
        StripBlanks(s[n.value..], start, end, inString, false);
      }
    } else {
      StripBlanks(s[1..], start, end, inString, false);
    }
  }

  method BlankOut(a: array<byte>, from: nat, n: nat)
    requires from + n <= a.Length
    modifies a
    ensures a[..] == old(a[..from]) + Blanks(n) + old(a[from + n..])
  {
    var i := 0;
    while i < n
      invariant 0 <= i <= n
      invariant a[..from] == old(a[..from]) && a[from + i..] == old(a[from + i..])
      invariant forall j :: from <= j < from + i ==> a[j] == SPACE
    {
      a[from + i] := SPACE;
      i := i + 1;
    }
  }

  /** The comment branch of remove_comments. */
  method BlankComment(a: array<byte>, i: nat, start: seq<byte>, end: seq<byte>) returns (closed: bool, n: nat)
    requires i < a.Length && a[a.Length - 1] == 0
    requires start <= a[i..] && 0 !in start && 0 !in end && start != [] && end != []
    modifies a
    ensures closed <==> CommentLength(old(a[i..]), start, end).Some?
    ensures closed ==> Some(n) == CommentLength(old(a[i..]), start, end) && i + n < a.Length
    ensures closed ==> a[..i + n] == old(a[..i]) + Blanks(n) && a[i + n..] == old(a[i + n..])
    ensures !closed ==> a[..] == old(a[..i]) + (Blanks(|start|) + old(a[i..])[|start|..])
  {
    hide IndexOf, Blanks;
    var s := a[i..];
    NotPastNul(s, start, end);
    assert s[|start|..] == a[i + |start|..];
    var k := IndexOf(a[i + |start|..], end);
    if k == None {
      n := 0;
      BlankOut(a, i, |start|);
      return false, n;
    }
    n := |start| + k.value + |end|;
    BlankOut(a, i, n);
    return true, n;
  }

  method CommentStep(a: array<byte>, i: nat, start: seq<byte>, end: seq<byte>, ghost escaped: bool)
    returns (stop: bool, i': nat)
    requires i < a.Length && a[i] != 0 && ((a[i] != BACKSLASH && a[i] != QUOTE) || escaped) && a[a.Length - 1] == 0
    requires start <= a[i..] && 0 !in start && 0 !in end && start != [] && end != []
    modifies a
    ensures !stop ==> i < i' < a.Length && a[a.Length - 1] == 0
    ensures old(a[..i]) + Strip(old(a[i..]), start, end, false, escaped)
      == if stop then a[..] else a[..i'] + Strip(a[i'..], start, end, false, false)
  {
    hide Strip, IndexOf;
    ghost var s, before := a[i..], a[..i];
    StripComment(s, start, end, escaped);
    var closed, n := BlankComment(a, i, start, end);
    if closed {
      assert s[n..] == a[i + n..];
      Concat3(before, Blanks(n), Strip(s[n..], start, end, false, false));
    }
    return !closed, i + n;
  }

  /** One turn of the loop of remove_comments. */
  method ScanStep(a: array<byte>, i: nat, start: seq<byte>, end: seq<byte>, inString: bool, escaped: bool)
    returns (stop: bool, i': nat, inString': bool, escaped': bool)
    requires i < a.Length && a[i] != 0 && a[a.Length - 1] == 0
    requires 0 !in start && 0 !in end && start != [] && end != []
    modifies a
    ensures !stop ==> i < i' < a.Length && a[a.Length - 1] == 0
    ensures old(a[..i]) + Strip(old(a[i..]), start, end, inString, escaped)
      == if stop then a[..] else a[..i'] + Strip(a[i'..], start, end, inString', escaped')
  {
    ghost var s, before := a[i..], a[..i];
    stop, i', inString', escaped' := false, i + 1, inString, false;
    if a[i] == BACKSLASH && !escaped {
      StripBackslash(s, start, end, inString);
      escaped' := true;
    } else if a[i] == QUOTE && !escaped {
      StripQuote(s, start, end, inString);
      inString' := !inString;
    } else if !inString && start <= a[i..] {
      stop, i' := CommentStep(a, i, start, end, escaped);
      return;
    } else {
      StripOther(s, start, end, inString, escaped);
    }
    assert s[1..] == a[i + 1..] && a[..i + 1] == before + [s[0]];
    Concat3(before, [s[0]], Strip(s[1..], start, end, inString', escaped'));
  }

  /** remove_comments, on a buffer that holds the text and its NUL. */
  method RemoveComments(a: array<byte>, start: seq<byte>, end: seq<byte>)
    requires a.Length > 0 && a[a.Length - 1] == 0
    requires 0 !in start && 0 !in end
    modifies a
    ensures a[..] == if start == [] || end == [] then old(a[..]) else Strip(old(a[..]), start, end, false, false)
  {
    if start == [] || end == [] {
      return;
    }
    hide Strip;
    var inString, escaped := false, false;
    var i := 0;
    ghost var target := Strip(a[..], start, end, false, false);
    assert a[0..] == a[..] && a[..0] + target == target;
    while a[i] != 0
      invariant 0 <= i < a.Length && a[a.Length - 1] == 0
      invariant a[..i] + Strip(a[i..], start, end, inString, escaped) == target
      decreases a.Length - i
    {
      var stop;
      stop, i, inString, escaped := ScanStep(a, i, start, end, inString, escaped);
      if stop {
        return;
      }
    }
    StripAtNul(a[i..], start, end, inString, escaped);
    assert a[..] == a[..i] + a[i..];
  }

  lemma StripAtNul(s: seq<byte>, start: seq<byte>, end: seq<byte>, inString: bool, escaped: bool)
    requires At(s, 0) == 0 && start != [] && end != []
    ensures Strip(s, start, end, inString, escaped) == s
  {
  }

  // One step of the scan, branch by branch.

  lemma StripBackslash(s: seq<byte>, start: seq<byte>, end: seq<byte>, inString: bool)
    requires At(s, 0) == BACKSLASH && start != [] && end != []
    ensures Strip(s, start, end, inString, false) == [s[0]] + Strip(s[1..], start, end, inString, true)
  {
  }

  lemma StripQuote(s: seq<byte>, start: seq<byte>, end: seq<byte>, inString: bool)
    requires At(s, 0) == QUOTE && start != [] && end != []
    ensures Strip(s, start, end, inString, false) == [s[0]] + Strip(s[1..], start, end, !inString, false)
  {
  }

  lemma StripComment(s: seq<byte>, start: seq<byte>, end: seq<byte>, escaped: bool)
    requires At(s, 0) != 0 && ((s[0] != BACKSLASH && s[0] != QUOTE) || escaped) && start <= s && start != [] &&
      end != []
    ensures Strip(s, start, end, false, escaped) ==
      match CommentLength(s, start, end)
      case None => Blanks(|start|) + s[|start|..]
      case Some(n) => Blanks(n) + Strip(s[n..], start, end, false, false)
  {
  }

  lemma StripOther(s: seq<byte>, start: seq<byte>, end: seq<byte>, inString: bool, escaped: bool)
    requires At(s, 0) != 0 && ((s[0] != BACKSLASH && s[0] != QUOTE) || escaped) && start != [] && end != []
    requires inString || !(start <= s)
    ensures Strip(s, start, end, inString, escaped) == [s[0]] + Strip(s[1..], start, end, inString, false)
  {
  }

  /** A token found in a text is in front of the NUL that ends it. */
  lemma NotPastNul(s: seq<byte>, start: seq<byte>, end: seq<byte>)
    requires start <= s && 0 !in start && 0 !in end && end != [] && s != [] && s[|s| - 1] == 0
    ensures |start| < |s|
    ensures var t := s[|start|..]; var k := IndexOf(t, end); k.Some? ==> k.value + |end| < |t|
  {
    var nul := s[|s| - 1];
    assert |start| == |s| ==> nul in start;
    var t := s[|start|..];
    var k := IndexOf(t, end);
    assert k.Some? && k.value + |end| == |t| ==> nul in end;
  }

  // ---- printed JSON ----

  /** Scanning p, from the given state, ends outside strings without meeting a bare slash. */
  predicate Neutral(p: seq<byte>, inString: bool, escaped: bool)
  {
    if p == [] then !inString && !escaped
    else if p[0] == 0 then false
    else if p[0] == BACKSLASH && !escaped then Neutral(p[1..], inString, true)
    else if p[0] == QUOTE && !escaped then Neutral(p[1..], !inString, false)
    else (inString || p[0] != SLASH) && Neutral(p[1..], inString, false)
  }

  lemma {:induction false} NeutralConcat(a: seq<byte>, b: seq<byte>, inString: bool, escaped: bool)
    requires Neutral(a, inString, escaped) && Neutral(b, false, false)
    ensures Neutral(a + b, inString, escaped)
    decreases |a|
  {
    if a == [] {
      assert a + b == b;
    } else {
      assert (a + b)[1..] == a[1..] + b;
      if a[0] == BACKSLASH && !escaped {
        NeutralConcat(a[1..], b, inString, true);
      } else if a[0] == QUOTE && !escaped {
        NeutralConcat(a[1..], b, !inString, false);
      } else {
        NeutralConcat(a[1..], b, inString, false);
      }
    }
  }

  /** Neutral text passes the scan unchanged, whatever follows. */
  lemma {:induction false} StripNeutral(p: seq<byte>, t: seq<byte>, start: seq<byte>, end: seq<byte>, inString: bool,
                                        escaped: bool)
    requires Neutral(p, inString, escaped) && start != [] && start[0] == SLASH && end != []
    ensures Strip(p + t, start, end, inString, escaped) == p + Strip(t, start, end, false, false)
    decreases |p|
  {
    var s := p + t;
    if p == [] {
      assert s == t;
      assert [] + Strip(t, start, end, false, false) == Strip(t, start, end, false, false);
    } else {
      assert s[0] == p[0] && s[1..] == p[1..] + t;
      var r := Strip(t, start, end, false, false);
      assert [p[0]] + p[1..] == p;
      Concat3([p[0]], p[1..], r);
      if p[0] == BACKSLASH && !escaped {
        StripBackslash(s, start, end, inString);
        StripNeutral(p[1..], t, start, end, inString, true);
      } else if p[0] == QUOTE && !escaped {
        StripQuote(s, start, end, inString);
        StripNeutral(p[1..], t, start, end, !inString, false);
      } else {
        StripOther(s, start, end, inString, escaped);
        StripNeutral(p[1..], t, start, end, inString, false);
      }
    }
  }

  /** A comment between neutral texts becomes blanks, and nothing else changes. */
  lemma StripOneComment(p: seq<byte>, body: seq<byte>, t: seq<byte>)
    requires Neutral(p, false, false) && 0 !in body
    requires IndexOf(body + BlockEnd() + t, BlockEnd()) == Some(|body|)
    ensures Strip(p + (BlockStart() + body + BlockEnd() + t), BlockStart(), BlockEnd(), false, false)
      == p + (Blanks(|body| + 4) + Strip(t, BlockStart(), BlockEnd(), false, false))
  {
    hide Strip, Neutral;
    var s := BlockStart() + body + BlockEnd() + t;
    StripNeutral(p, s, BlockStart(), BlockEnd(), false, false);
    assert s[2..] == body + BlockEnd() + t;
    assert CommentLength(s, BlockStart(), BlockEnd()) == Some(|body| + 4);
    StripComment(s, BlockStart(), BlockEnd(), false);
    assert s[|body| + 4..] == t;
  }

  predicate Plain(c: byte) { c != 0 && c != BACKSLASH && c != QUOTE && c != SLASH }

  lemma {:induction false} PlainIsNeutral(p: seq<byte>)
    requires forall i :: 0 <= i < |p| ==> Plain(p[i])
    ensures Neutral(p, false, false)
  {
    if p != [] { PlainIsNeutral(p[1..]); }
  }

  /** Inside a string, the escape of a byte brings the scan back to where it was. */
  lemma EscapeIsQuiet(c: byte, rest: seq<byte>)
    requires c != 0 && Neutral(rest, true, false)
    ensures Neutral(Escape(c) + rest, true, false)
  {
    var e, p := Escape(c), Escape(c) + rest;
    assert p[0] == e[0];
    assert p[|e|..] == rest;
    if |e| == 2 {
      assert p[1..][1..] == rest && p[1..][0] == e[1];
    } else if |e| == 6 {
      var h := p[2..];
      assert p[1..][1..] == h && p[1..][0] == e[1];
      assert h == [48, 48, HexChar(c / 16), HexChar(c % 16)] + rest;
      NeutralInString([48, 48, HexChar(c / 16), HexChar(c % 16)], rest);
    }
  }

  lemma {:induction false} NeutralInString(p: seq<byte>, rest: seq<byte>)
    requires (forall i :: 0 <= i < |p| ==> Plain(p[i])) && Neutral(rest, true, false)
    ensures Neutral(p + rest, true, false)
  {
    if p == [] {
      assert p + rest == rest;
    } else {
      NeutralInString(p[1..], rest);
      assert (p + rest)[1..] == p[1..] + rest;
    }
  }

  lemma {:induction false} EscapedIsQuiet(s: seq<byte>)
    requires 0 !in s
    ensures Neutral(EscapeAll(s) + [QUOTE], true, false)
  {
    if s == [] {
      assert EscapeAll(s) + [QUOTE] == [QUOTE];
      assert [QUOTE][1..] == [];
    } else {
      assert s[0] in s;
      EscapedIsQuiet(s[1..]);
      EscapeIsQuiet(s[0], EscapeAll(s[1..]) + [QUOTE]);
      Concat3(Escape(s[0]), EscapeAll(s[1..]), [QUOTE]);
    }
  }

  lemma StringIsNeutral(s: seq<byte>)
    requires 0 !in s
    ensures Neutral(PrintString(s), false, false)
  {
    EscapedIsQuiet(s);
    assert PrintString(s)[1..] == EscapeAll(s) + [QUOTE];
  }

  lemma {:induction false} IndentIsNeutral(level: nat)
    ensures Neutral(Indent(level), false, false)
  {
    if level > 0 {
      IndentIsNeutral(level - 1);
      PlainIsNeutral([SPACE, SPACE, SPACE, SPACE]);
      NeutralConcat([SPACE, SPACE, SPACE, SPACE], Indent(level - 1), false, false);
    }
  }

  /** Every printed value is neutral: a slash is written only inside a string, escaped. */
  lemma {:induction false} PrintIsNeutral(v: Json, level: nat, pretty: bool)
    requires WellFormed(v)
    ensures Neutral(Print(v, level, pretty), false, false)
    decreases v, 0
  {
    match v
    case Null => PlainIsNeutral(TextNull());
    case Bool(b) => PlainIsNeutral(if b then TextTrue() else TextFalse());
    case Number(n) =>
      RT.DigitsAreDigits(if n < 0 then -n else n);
      PlainIsNeutral(PrintNumber(n));
    case String(s) => StringIsNeutral(s);
    case Array(items) =>
      ItemsAreNeutral(items, 0, level, pretty);
      BracketsAreNeutral(LBRACKET, items == [], PrintItems(items, 0, level, pretty), level, pretty, RBRACKET);
    case Object(ms) =>
      MembersAreNeutral(ms, 0, level, pretty);
      BracketsAreNeutral(LBRACE, ms == [], PrintMembers(ms, 0, level, pretty), level, pretty, RBRACE);
  }

  lemma BracketsAreNeutral(x: byte, empty: bool, p: seq<byte>, level: nat, pretty: bool, y: byte)
    requires Plain(x) && Plain(y) && Neutral(p, false, false)
    ensures Neutral([x] + Open(empty, pretty) + p + Close(empty, level, pretty) + [y], false, false)
  {
    PlainIsNeutral([x] + Open(empty, pretty));
    NeutralConcat([x] + Open(empty, pretty), p, false, false);
    IndentIsNeutral(level);
    PlainIsNeutral([]);
    NeutralConcat([x] + Open(empty, pretty) + p, Close(empty, level, pretty), false, false);
    PlainIsNeutral([y]);
    NeutralConcat([x] + Open(empty, pretty) + p + Close(empty, level, pretty), [y], false, false);
  }

  lemma AroundIsNeutral(level: nat, pretty: bool, p: seq<byte>, last: bool)
    requires Neutral(p, false, false)
    ensures Neutral(Before(level, pretty) + p, false, false)
    ensures Neutral(p + After(last, pretty), false, false)
  {
    IndentIsNeutral(level + 1);
    PlainIsNeutral([]);
    NeutralConcat(Before(level, pretty), p, false, false);
    PlainIsNeutral(After(last, pretty));
    NeutralConcat(p, After(last, pretty), false, false);
  }

  lemma {:induction false} ItemsAreNeutral(items: seq<Json>, i: nat, level: nat, pretty: bool)
    requires WellFormed(Array(items)) && i <= |items|
    ensures Neutral(PrintItems(items, i, level, pretty), false, false)
    decreases items, |items| - i
  {
    if i < |items| {
      var p := Print(items[i], level + 1, pretty);
      PrintIsNeutral(items[i], level + 1, pretty);
      AroundIsNeutral(level, pretty, p, true);
      AroundIsNeutral(level, pretty, Before(level, pretty) + p, i + 1 == |items|);
      ItemsAreNeutral(items, i + 1, level, pretty);
      NeutralConcat(PrintItem(items, i, level, pretty), PrintItems(items, i + 1, level, pretty), false, false);
    }
  }

  lemma KeyIsNeutral(name: seq<byte>, level: nat, pretty: bool)
    requires 0 !in name
    ensures Neutral(PrintKey(name, level, pretty), false, false)
  {
    hide Neutral, PrintString;
    StringIsNeutral(name);
    AroundIsNeutral(level, pretty, PrintString(name), true);
    PlainIsNeutral(Gap(pretty));
    NeutralConcat(Before(level, pretty) + PrintString(name), Gap(pretty), false, false);
  }

  lemma {:induction false} MembersAreNeutral(ms: seq<Member>, i: nat, level: nat, pretty: bool)
    requires WellFormed(Object(ms)) && i <= |ms|
    ensures Neutral(PrintMembers(ms, i, level, pretty), false, false)
    decreases ms, |ms| - i
  {
    if i < |ms| {
      hide Neutral, Print, PrintString;
      LookupUnique(ms, i);
      var key, p := PrintKey(ms[i].name, level, pretty), Print(ms[i].value, level + 1, pretty);
      KeyIsNeutral(ms[i].name, level, pretty);
      PrintIsNeutral(ms[i].value, level + 1, pretty);
      NeutralConcat(key, p, false, false);
      AroundIsNeutral(level, pretty, key + p, i + 1 == |ms|);
      MembersAreNeutral(ms, i + 1, level, pretty);
      NeutralConcat(PrintMember(ms, i, level, pretty), PrintMembers(ms, i + 1, level, pretty), false, false);
    }
  }

  // ---- json_parse_string_with_comments ----

  /** Block comments go first, then line comments; a byte order mark is not skipped. */
  function ParseStringWithComments(s: seq<byte>): Parse
  {
    var t := Strip(s, BlockStart(), BlockEnd(), false, false);
    ParseValue(Strip(t, LineStart(), LineEnd(), false, false), 0)
  }

  /** Removing either kind of comment is the identity on printed JSON. */
  lemma PrintedHasNoComments(v: Json, level: nat, pretty: bool)
    requires WellFormed(v)
    ensures var p := Print(v, level, pretty);
      Strip(p, BlockStart(), BlockEnd(), false, false) == p && Strip(p, LineStart(), LineEnd(), false, false) == p
  {
    var p := Print(v, level, pretty);
    PrintIsNeutral(v, level, pretty);
    assert p + [] == p;
    StripNeutral(p, [], BlockStart(), BlockEnd(), false, false);
    StripNeutral(p, [], LineStart(), LineEnd(), false, false);
  }

  /** The two parsers agree on everything the serializer writes. */
  lemma ParsersAgreeOnPrinted(v: Json, pretty: bool)
    requires WellFormed(v)
    ensures ParseStringWithComments(Print(v, 0, pretty)) == ParseString(Print(v, 0, pretty))
  {
    PrintedHasNoComments(v, 0, pretty);
    RT.FirstAscii(v, 0, pretty);
  }

  /** They do not agree on every text: one refuses the byte order mark that the other skips. */
  lemma ByteOrderMarkIsRefused(s: seq<byte>)
    ensures ParseStringWithComments([0xEF, 0xBB, 0xBF] + s) == Rejected
    ensures ParseString([0xEF, 0xBB, 0xBF] + s) == ParseValue(s, 0)
  {
    var t := [0xEF, 0xBB, 0xBF] + s;
    var u := Strip(t, BlockStart(), BlockEnd(), false, false);
    StripOther(t, BlockStart(), BlockEnd(), false, false);
    assert u[0] == 0xEF;
    StripOther(u, LineStart(), LineEnd(), false, false);
    assert t[3..] == s;
  }
}
