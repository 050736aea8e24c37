/** The serializer of parson.c. */
module JsonPrinter {
  import opened Bytes
  import opened JsonTree
  import opened Sequences
  import opened JsonString

  const NEWLINE: byte := 10
  const SPACE: byte := 32
  const COMMA: byte := 44
  const COLON: byte := 58
  const LBRACKET: byte := 91
  const RBRACKET: byte := 93
  const LBRACE: byte := 123
  const RBRACE: byte := 125
  const MINUS: byte := 45

  function TextTrue(): seq<byte> { [116, 114, 117, 101] }
  function TextFalse(): seq<byte> { [102, 97, 108, 115, 101] }
  function TextNull(): seq<byte> { [110, 117, 108, 108] }

  /** Four spaces a level. */
  function Indent(level: nat): seq<byte>
  {
    if level == 0 then [] else [SPACE, SPACE, SPACE, SPACE] + Indent(level - 1)
  }

  function Digits(n: nat): seq<byte>
  {
    if n < 10 then [48 + n] else Digits(n / 10) + [48 + n % 10]
  }

  /** "%1.17g" on an exact integer. */
  function PrintNumber(n: int): seq<byte>
  {
    if n < 0 then [MINUS] + Digits(-n) else Digits(n)
  }

  // The white space of pretty printing around items.
  function Before(level: nat, pretty: bool): seq<byte> { if pretty then Indent(level + 1) else [] }
  function Newline(pretty: bool): seq<byte> { if pretty then [NEWLINE] else [] }
  function After(last: bool, pretty: bool): seq<byte> { (if last then [] else [COMMA]) + Newline(pretty) }
  function Gap(pretty: bool): seq<byte> { [COLON] + if pretty then [SPACE] else [] }
  function Open(empty: bool, pretty: bool): seq<byte> { Newline(pretty && !empty) }
  function Close(empty: bool, level: nat, pretty: bool): seq<byte> { if pretty && !empty then Indent(level) else [] }

  function Print(v: Json, level: nat, pretty: bool): seq<byte>
    decreases v, 0
  {
    match v
    case Null => TextNull()
    case Bool(b) => if b then TextTrue() else TextFalse()
    case Number(n) => PrintNumber(n)
    case String(s) => PrintString(s)
    case Array(items) =>
      [LBRACKET] + Open(items == [], pretty) + PrintItems(items, 0, level, pretty) +
        Close(items == [], level, pretty) + [RBRACKET]
    case Object(ms) =>
      [LBRACE] + Open(ms == [], pretty) + PrintMembers(ms, 0, level, pretty) + Close(ms == [], level, pretty) + [RBRACE]
  }

  function PrintItem(items: seq<Json>, i: nat, level: nat, pretty: bool): seq<byte>
    requires i < |items|
    decreases items, |items| - i, 0
  {
    Before(level, pretty) + Print(items[i], level + 1, pretty) + After(i + 1 == |items|, pretty)
  }

  /** The items from the i-th on. */
  function PrintItems(items: seq<Json>, i: nat, level: nat, pretty: bool): seq<byte>
    requires i <= |items|
    decreases items, |items| - i, 1
  {
    if i == |items| then [] else PrintItem(items, i, level, pretty) + PrintItems(items, i + 1, level, pretty)
  }

  function PrintKey(name: seq<byte>, level: nat, pretty: bool): seq<byte>
  {
    Before(level, pretty) + PrintString(name) + Gap(pretty)
  }

  /** The i-th member; its value is looked up by its name. */
  function PrintMember(ms: seq<Member>, i: nat, level: nat, pretty: bool): seq<byte>
    requires i < |ms|
    decreases ms, |ms| - i, 0
  {
    PrintKey(ms[i].name, level, pretty) + Print(Named(ms, i), level + 1, pretty) + After(i + 1 == |ms|, pretty)
  }

  function PrintMembers(ms: seq<Member>, i: nat, level: nat, pretty: bool): seq<byte>
    requires i <= |ms|
    decreases ms, |ms| - i, 1
  {
    if i == |ms| then [] else PrintMember(ms, i, level, pretty) + PrintMembers(ms, i + 1, level, pretty)
  }

  lemma ItemsStep(items: seq<Json>, i: nat, level: nat, pretty: bool)
    requires i <= |items|
    ensures PrintItems(items, i, level, pretty)
      == if i == |items| then [] else PrintItem(items, i, level, pretty) + PrintItems(items, i + 1, level, pretty)
  {
  }

  lemma MembersStep(ms: seq<Member>, i: nat, level: nat, pretty: bool)
    requires i <= |ms|
    ensures PrintMembers(ms, i, level, pretty)
      == if i == |ms| then [] else PrintMember(ms, i, level, pretty) + PrintMembers(ms, i + 1, level, pretty)
  {
  }

  // ---- json_serialize_to_buffer_r ----
  //
  // A null buffer measures. In the writing pass `text` is, ghostly, what the buffer holds in front
  // of `off`.

  ghost predicate Holds(buf: array?<byte>, off: nat, text: seq<byte>)
    reads buf
  {
    |text| == off && (buf != null ==> off <= buf.Length && buf[..off] == text)
  }

  ghost predicate Room(buf: array?<byte>, end: nat)
  {
    buf != null ==> end < buf.Length
  }

  ghost predicate Ended(buf: array?<byte>, end: nat)
    reads buf
  {
    buf != null ==> end < buf.Length && buf[end] == 0
  }

  /** append_string: the text and a NUL. */
  method AppendString(buf: array?<byte>, off: nat, s: seq<byte>, ghost text: seq<byte>) returns (written: nat)
    requires Holds(buf, off, text) && Room(buf, off + |s|)
    modifies buf
    ensures written == |s| && Holds(buf, off + written, text + s) && Ended(buf, off + written)
  {
    if buf != null {
      var i := 0;
      while i < |s|
        invariant 0 <= i <= |s|
        invariant buf[..off + i] == text + s[..i]
      {
        buf[off + i] := s[i];
        i := i + 1;
      }
      assert s[..i] == s;
      buf[off + i] := 0;
    }
    written := |s|;
  }

  method AppendIndent(buf: array?<byte>, off: nat, level: nat, ghost text: seq<byte>) returns (written: nat)
    requires Holds(buf, off, text) && Room(buf, off + |Indent(level)|)
    modifies buf
    ensures written == |Indent(level)| && Holds(buf, off + written, text + Indent(level))
  {
    written := 0;
    var i := 0;
    assert text + Indent(0) == text;
    while i < level
      invariant 0 <= i <= level
      invariant written == |Indent(i)|
      invariant Holds(buf, off + written, text + Indent(i))
    {
      IndentGrows(i, level);
      IndentSnoc(i);
      assert text + Indent(i) + [SPACE, SPACE, SPACE, SPACE] == text + Indent(i + 1);
      var n := AppendString(buf, off + written, [SPACE, SPACE, SPACE, SPACE], text + Indent(i));
      written := written + n;
      i := i + 1;
    }
  }

  lemma {:induction false} IndentSnoc(i: nat)
    ensures Indent(i) + [SPACE, SPACE, SPACE, SPACE] == Indent(i + 1)
  {
    if i > 0 { IndentSnoc(i - 1); }
  }

  lemma {:induction false} IndentLength(level: nat)
    ensures |Indent(level)| == 4 * level
  {
    if level > 0 { IndentLength(level - 1); }
  }

  lemma IndentGrows(i: nat, level: nat)
    requires i < level
    ensures |Indent(i)| + 4 <= |Indent(level)|
  {
    IndentLength(i);
    IndentLength(level);
  }

  method AppendChar(buf: array?<byte>, off: nat, c: byte, ghost text: seq<byte>)
    requires Holds(buf, off, text) && Room(buf, off)
    modifies buf
    ensures Holds(buf, off + 1, text + [c])
  {
    if buf != null {
      buf[off] := c;
    }
  }

  method SerializeByte(c: byte, buf: array?<byte>, off: nat, ghost text: seq<byte>) returns (written: nat)
    requires Holds(buf, off, text) && Room(buf, off + |Escape(c)|)
    modifies buf
    ensures written == |Escape(c)| && Holds(buf, off + written, text + Escape(c))
  {
    var e := Escape(c);
    if |e| > 1 {
      written := AppendString(buf, off, e, text);
    } else {
      AppendChar(buf, off, c, text);
      written := 1;
    }
  }

  /** The first i bytes of a string are written, or measured. */
  ghost predicate Serialized(s: seq<byte>, i: nat, buf: array?<byte>, off: nat, written: nat, text: seq<byte>)
    reads buf
  {
    i <= |s| && written == |EscapeAll(s[..i])| && Holds(buf, off + written, text + EscapeAll(s[..i]))
  }

  /** One turn of the loop over the bytes. */
  method SerializeNext(s: seq<byte>, i: nat, buf: array?<byte>, off: nat, written0: nat, ghost text: seq<byte>)
    returns (written: nat)
    requires i < |s| && Serialized(s, i, buf, off, written0, text) && Room(buf, off + |EscapeAll(s)|)
    modifies buf
    ensures Serialized(s, i + 1, buf, off, written, text)
  {
    hide EscapeAll, Escape;
    EscapeAllGrows(s, i);
    Concat3(text, EscapeAll(s[..i]), Escape(s[i]));
    var n := SerializeByte(s[i], buf, off + written0, text + EscapeAll(s[..i]));
    written := written0 + n;
  }

  method SerializeBytes(s: seq<byte>, buf: array?<byte>, off: nat, ghost text: seq<byte>) returns (written: nat)
    requires Holds(buf, off, text) && Room(buf, off + |EscapeAll(s)|)
    modifies buf
    ensures written == |EscapeAll(s)| && Holds(buf, off + written, text + EscapeAll(s))
  {
    written := 0;
    var i: nat := 0;
    assert s[..0] == [] && text + EscapeAll([]) == text;
    assert Serialized(s, 0, buf, off, 0, text);
    hide EscapeAll, Serialized, Holds;
    while i < |s|
      invariant i <= |s| && Serialized(s, i, buf, off, written, text)
    {
      written := SerializeNext(s, i, buf, off, written, text);
      i := i + 1;
    }
    AllSerialized(s, buf, off, written, text);
  }

  lemma AllSerialized(s: seq<byte>, buf: array?<byte>, off: nat, written: nat, text: seq<byte>)
    requires Serialized(s, |s|, buf, off, written, text)
    ensures written == |EscapeAll(s)| && Holds(buf, off + written, text + EscapeAll(s))
  {
    assert s[..|s|] == s;
  }

  /** json_serialize_string */
  method SerializeString(s: seq<byte>, buf: array?<byte>, off: nat, ghost text: seq<byte>) returns (written: nat)
    requires Holds(buf, off, text) && Room(buf, off + |PrintString(s)|)
    modifies buf
    ensures written == |PrintString(s)| && Holds(buf, off + written, text + PrintString(s)) && Ended(buf, off + written)
  {
    written := AppendString(buf, off, [QUOTE], text);
    var n := SerializeBytes(s, buf, off + written, text + [QUOTE]);
    written := written + n;
    Concat4(text, [QUOTE], EscapeAll(s), [QUOTE]);
    n := AppendString(buf, off + written, [QUOTE], text + [QUOTE] + EscapeAll(s));
    written := written + n;
  }

  lemma {:induction false} EscapeAllConcat(a: seq<byte>, b: seq<byte>)
    ensures EscapeAll(a + b) == EscapeAll(a) + EscapeAll(b)
  {
    hide Escape;
    if a == [] {
      assert a + b == b;
    } else {
      EscapeAllConcat(a[1..], b);
      assert (a + b)[0] == a[0] && (a + b)[1..] == a[1..] + b;
      Concat3(Escape(a[0]), EscapeAll(a[1..]), EscapeAll(b));
    }
  }

  lemma EscapeAllGrows(s: seq<byte>, i: nat)
    requires i < |s|
    ensures EscapeAll(s[..i + 1]) == EscapeAll(s[..i]) + Escape(s[i])
    ensures |EscapeAll(s[..i])| + |Escape(s[i])| <= |EscapeAll(s)|
  {
    assert s[..i + 1] == s[..i] + [s[i]];
    EscapeAllConcat(s[..i], [s[i]]);
    assert s == s[..i + 1] + s[i + 1..];
    EscapeAllConcat(s[..i + 1], s[i + 1..]);
    assert EscapeAll([s[i]]) == Escape(s[i]) + EscapeAll([]);
  }

  /** json_serialize_to_buffer_r: the pass that measures (no buffer) and the pass that writes
      count the same bytes, and the second leaves exactly the printed text and a NUL. */
  method Serialize(v: Json, buf: array?<byte>, off: nat, level: nat, pretty: bool, ghost text: seq<byte>)
    returns (written: nat)
    requires Holds(buf, off, text) && Room(buf, off + |Print(v, level, pretty)|)
    modifies buf
    ensures written == |Print(v, level, pretty)|
    ensures Holds(buf, off + written, text + Print(v, level, pretty)) && Ended(buf, off + written)
    decreases v, 0
  {
    match v
    case Null => written := AppendString(buf, off, TextNull(), text);
    case Bool(b) =>
      if b {
        written := AppendString(buf, off, TextTrue(), text);
      } else {
        written := AppendString(buf, off, TextFalse(), text);
      }
    case Number(n) => written := AppendString(buf, off, PrintNumber(n), text);
    case String(s) => written := SerializeString(s, buf, off, text);
    case Array(items) => written := SerializeArray(items, buf, off, level, pretty, text);
    case Object(ms) => written := SerializeObject(ms, buf, off, level, pretty, text);
  }

  /** The opening bracket, and a line break in front of the first of some items. */
  method AppendOpen(bracket: byte, buf: array?<byte>, off: nat, empty: bool, pretty: bool, ghost text: seq<byte>)
    returns (written: nat)
    requires Holds(buf, off, text) && Room(buf, off + 1 + |Open(empty, pretty)|)
    modifies buf
    ensures written == 1 + |Open(empty, pretty)| && Holds(buf, off + written, text + ([bracket] + Open(empty, pretty)))
  {
    written := AppendString(buf, off, [bracket], text);
    if !empty && pretty {
      var n := AppendString(buf, off + written, [NEWLINE], text + [bracket]);
      assert text + [bracket] + [NEWLINE] == text + ([bracket] + [NEWLINE]);
      written := written + n;
    } else {
      assert [bracket] + [] == [bracket];
    }
  }

  method AppendAfter(last: bool, buf: array?<byte>, off: nat, pretty: bool, ghost text: seq<byte>)
    returns (written: nat)
    requires Holds(buf, off, text) && Room(buf, off + |After(last, pretty)|)
    modifies buf
    ensures written == |After(last, pretty)| && Holds(buf, off + written, text + After(last, pretty))
  {
    written := 0;
    ghost var done := text;
    if !last {
      written := AppendString(buf, off, [COMMA], text);
      done := text + [COMMA];
    }
    if pretty {
      var n := AppendString(buf, off + written, [NEWLINE], done);
      written := written + n;
      done := done + [NEWLINE];
    }
    assert done == text + After(last, pretty);
  }

  method AppendClose(bracket: byte, buf: array?<byte>, off: nat, empty: bool, level: nat, pretty: bool,
                     ghost text: seq<byte>)
    returns (written: nat)
    requires Holds(buf, off, text) && Room(buf, off + |Close(empty, level, pretty)| + 1)
    modifies buf
    ensures written == |Close(empty, level, pretty)| + 1
    ensures Holds(buf, off + written, text + (Close(empty, level, pretty) + [bracket])) && Ended(buf, off + written)
  {
    written := 0;
    ghost var close := Close(empty, level, pretty);
    if !empty && pretty {
      written := AppendIndent(buf, off, level, text);
    } else {
      assert text + [] == text;
    }
    var n := AppendString(buf, off + written, [bracket], text + close);
    assert text + close + [bracket] == text + (close + [bracket]);
    written := written + n;
  }

  method SerializeItems(items: seq<Json>, buf: array?<byte>, off: nat, level: nat, pretty: bool, ghost text: seq<byte>)
    returns (written: nat)
    requires Holds(buf, off, text) && Room(buf, off + |PrintItems(items, 0, level, pretty)|)
    modifies buf
    ensures written == |PrintItems(items, 0, level, pretty)|
    ensures Holds(buf, off + written, text + PrintItems(items, 0, level, pretty))
    decreases items, |items| + 1
  {
    hide PrintItems, PrintItem;
    ghost var all := PrintItems(items, 0, level, pretty);
    ghost var done: seq<byte> := [];
    written := 0;
    var i := 0;
    assert text + [] == text && [] + all == all;
    while i < |items|
      invariant 0 <= i <= |items|
      invariant done + PrintItems(items, i, level, pretty) == all
      invariant written == |done| && Holds(buf, off + written, text + done)
    {
      ghost var piece := PrintItem(items, i, level, pretty);
      ItemsStep(items, i, level, pretty);
      Concat3(done, piece, PrintItems(items, i + 1, level, pretty));
      Concat3(text, done, piece);
      var n := SerializeItem(items, i, buf, off + written, level, pretty, text + done);
      written := written + n;
      done := done + piece;
      i := i + 1;
    }
    ItemsStep(items, i, level, pretty);
    assert done + [] == done;
  }

  method SerializeArray(items: seq<Json>, buf: array?<byte>, off: nat, level: nat, pretty: bool, ghost text: seq<byte>)
    returns (written: nat)
    requires Holds(buf, off, text) && Room(buf, off + |Print(Array(items), level, pretty)|)
    modifies buf
    ensures written == |Print(Array(items), level, pretty)|
    ensures Holds(buf, off + written, text + Print(Array(items), level, pretty)) && Ended(buf, off + written)
    decreases items, |items| + 2
  {
    hide PrintItems;
    ghost var head, tail := [LBRACKET] + Open(items == [], pretty), Close(items == [], level, pretty) + [RBRACKET];
    ghost var all := PrintItems(items, 0, level, pretty);
    Concat3(head + all, Close(items == [], level, pretty), [RBRACKET]);
    written := AppendOpen(LBRACKET, buf, off, items == [], pretty, text);
    var n := SerializeItems(items, buf, off + written, level, pretty, text + head);
    written := written + n;
    n := AppendClose(RBRACKET, buf, off + written, items == [], level, pretty, text + head + all);
    Concat4(text, head, all, tail);
    written := written + n;
  }

  method SerializeItem(items: seq<Json>, i: nat, buf: array?<byte>, off: nat, level: nat, pretty: bool,
                       ghost text: seq<byte>)
    returns (written: nat)
    requires i < |items| && Holds(buf, off, text) && Room(buf, off + |PrintItem(items, i, level, pretty)|)
    modifies buf
    ensures written == |PrintItem(items, i, level, pretty)|
    ensures Holds(buf, off + written, text + PrintItem(items, i, level, pretty))
    decreases items, |items| - i
  {
    written := 0;
    ghost var before, value, after := Before(level, pretty), Print(items[i], level + 1, pretty),
      After(i + 1 == |items|, pretty);
    if pretty {
      written := AppendIndent(buf, off, level + 1, text);
    } else {
      assert text + [] == text;
    }
    var n := Serialize(items[i], buf, off + written, level + 1, pretty, text + before);
    written := written + n;
    n := AppendAfter(i + 1 == |items|, buf, off + written, pretty, text + before + value);
    Concat4(text, before, value, after);
    written := written + n;
  }

  method SerializeMembers(ms: seq<Member>, buf: array?<byte>, off: nat, level: nat, pretty: bool, ghost text: seq<byte>)
    returns (written: nat)
    requires Holds(buf, off, text) && Room(buf, off + |PrintMembers(ms, 0, level, pretty)|)
    modifies buf
    ensures written == |PrintMembers(ms, 0, level, pretty)|
    ensures Holds(buf, off + written, text + PrintMembers(ms, 0, level, pretty))
    decreases ms, |ms| + 1
  {
    hide PrintMembers, PrintMember;
    ghost var all := PrintMembers(ms, 0, level, pretty);
    ghost var done: seq<byte> := [];
    written := 0;
    var i := 0;
    assert text + [] == text && [] + all == all;
    while i < |ms|
      invariant 0 <= i <= |ms|
      invariant done + PrintMembers(ms, i, level, pretty) == all
      invariant written == |done| && Holds(buf, off + written, text + done)
    {
      ghost var piece := PrintMember(ms, i, level, pretty);
      MembersStep(ms, i, level, pretty);
      Concat3(done, piece, PrintMembers(ms, i + 1, level, pretty));
      Concat3(text, done, piece);
      var n := SerializeMember(ms, i, buf, off + written, level, pretty, text + done);
      written := written + n;
      done := done + piece;
      i := i + 1;
    }
    MembersStep(ms, i, level, pretty);
    assert done + [] == done;
  }

  method SerializeObject(ms: seq<Member>, buf: array?<byte>, off: nat, level: nat, pretty: bool, ghost text: seq<byte>)
    returns (written: nat)
    requires Holds(buf, off, text) && Room(buf, off + |Print(Object(ms), level, pretty)|)
    modifies buf
    ensures written == |Print(Object(ms), level, pretty)|
    ensures Holds(buf, off + written, text + Print(Object(ms), level, pretty)) && Ended(buf, off + written)
    decreases ms, |ms| + 2
  {
    hide PrintMembers;
    ghost var head, tail := [LBRACE] + Open(ms == [], pretty), Close(ms == [], level, pretty) + [RBRACE];
    ghost var all := PrintMembers(ms, 0, level, pretty);
    Concat3(head + all, Close(ms == [], level, pretty), [RBRACE]);
    written := AppendOpen(LBRACE, buf, off, ms == [], pretty, text);
    var n := SerializeMembers(ms, buf, off + written, level, pretty, text + head);
    written := written + n;
    n := AppendClose(RBRACE, buf, off + written, ms == [], level, pretty, text + head + all);
    Concat4(text, head, all, tail);
    written := written + n;
  }

  method SerializeMember(ms: seq<Member>, i: nat, buf: array?<byte>, off: nat, level: nat, pretty: bool,
                         ghost text: seq<byte>)
    returns (written: nat)
    requires i < |ms| && Holds(buf, off, text) && Room(buf, off + |PrintMember(ms, i, level, pretty)|)
    modifies buf
    ensures written == |PrintMember(ms, i, level, pretty)|
    ensures Holds(buf, off + written, text + PrintMember(ms, i, level, pretty))
    decreases ms, |ms| - i
  {
    ghost var key, value := PrintKey(ms[i].name, level, pretty), Print(Named(ms, i), level + 1, pretty);
    written := SerializeKey(ms[i].name, buf, off, level, pretty, text);
    var n := Serialize(Named(ms, i), buf, off + written, level + 1, pretty, text + key);
    written := written + n;
    n := AppendAfter(i + 1 == |ms|, buf, off + written, pretty, text + key + value);
    Concat4(text, key, value, After(i + 1 == |ms|, pretty));
    written := written + n;
  }

  method SerializeKey(name: seq<byte>, buf: array?<byte>, off: nat, level: nat, pretty: bool, ghost text: seq<byte>)
    returns (written: nat)
    requires Holds(buf, off, text) && Room(buf, off + |PrintKey(name, level, pretty)|)
    modifies buf
    ensures written == |PrintKey(name, level, pretty)|
    ensures Holds(buf, off + written, text + PrintKey(name, level, pretty))
  {
    written := 0;
    ghost var before := Before(level, pretty);
    if pretty {
      written := AppendIndent(buf, off, level + 1, text);
    } else {
      assert text + [] == text;
    }
    var n := SerializeString(name, buf, off + written, text + before);
    written := written + n;
    n := AppendString(buf, off + written, Gap(pretty), text + before + PrintString(name));
    Concat4(text, before, PrintString(name), Gap(pretty));
    written := written + n;
  }

  /** json_serialize_to_string and its pretty form: measure, allocate, write. The buffer is filled
      exactly, its final NUL in the last byte. */
  method SerializeToString(v: Json, pretty: bool) returns (buf: array<byte>)
    ensures fresh(buf) && buf[..] == Print(v, 0, pretty) + [0]
  {
    var size := Serialize(v, null, 0, 0, pretty, []);
    buf := new byte[size + 1];
    assert [] + Print(v, 0, pretty) == Print(v, 0, pretty);
    var written := Serialize(v, buf, 0, 0, pretty, []);
    assert buf[..] == buf[..written] + [buf[written]];
  }
}
