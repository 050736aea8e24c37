/** Quoted strings of parson.c: finding the closing quote, undoing the escapes,
    and the escapes the serializer writes. */
module JsonString {
  import opened Bytes
  import Utf8

  const QUOTE: byte := 34
  const BACKSLASH: byte := 92
  const SLASH: byte := 47
  const LOWER_U: byte := 117

  // ---- skip_quotes ----

  /** The number of bytes in front of the closing quote, scanning from inside a string. */
  function BodyLength(s: seq<byte>): (n: Option<nat>)
    ensures n.Some? ==> n.value < |s| && s[n.value] == QUOTE
  {
    if At(s, 0) == 0 then None
    else if s[0] == QUOTE then Some(0)
    else if s[0] == BACKSLASH then
      if At(s, 1) == 0 then None
      else match BodyLength(s[2..]) case None => None case Some(n) => Some(n + 2)
    else match BodyLength(s[1..]) case None => None case Some(n) => Some(n + 1)
  }

  /** What skip_quotes guarantees of a token body: no NUL, no bare quote, no backslash left alone at the end. */
  predicate WellEscaped(b: seq<byte>)
  {
    b == [] ||
    (b[0] != 0 && b[0] != QUOTE &&
     if b[0] == BACKSLASH then |b| >= 2 && b[1] != 0 && WellEscaped(b[2..]) else WellEscaped(b[1..]))
  }

  lemma {:induction false} BodyIsWellEscaped(s: seq<byte>)
    requires BodyLength(s).Some?
    ensures WellEscaped(s[..BodyLength(s).value])
    decreases |s|
  {
    var n := BodyLength(s).value;
    if s[0] == QUOTE {
    } else if s[0] == BACKSLASH {
      BodyIsWellEscaped(s[2..]);
      assert s[..n][2..] == s[2..][..n-2];
    } else {
      BodyIsWellEscaped(s[1..]);
      assert s[..n][1..] == s[1..][..n-1];
    }
  }

  /** And the closing quote is the first one that ends a well-escaped body. */
  lemma {:induction false} BodyLengthOf(b: seq<byte>, rest: seq<byte>)
    requires WellEscaped(b)
    ensures BodyLength(b + [QUOTE] + rest) == Some(|b|)
    decreases |b|
  {
    var s := b + [QUOTE] + rest;
    if b == [] {
      assert s[0] == QUOTE;
    } else if b[0] == BACKSLASH {
      BodyLengthOf(b[2..], rest);
      assert s[2..] == b[2..] + [QUOTE] + rest;
    } else {
      BodyLengthOf(b[1..], rest);
      assert s[1..] == b[1..] + [QUOTE] + rest;
    }
  }

  /** skip_quotes: `s` is the text at the pointer; the result is the text behind the closing quote. */
  method SkipQuotes(s: seq<byte>) returns (rest: Option<seq<byte>>)
    ensures At(s, 0) != QUOTE ==> rest == None
    ensures At(s, 0) == QUOTE ==>
      rest == match BodyLength(s[1..]) case None => None case Some(n) => Some(s[n + 2..])
  {
    if At(s, 0) != QUOTE {
      return None;
    }
    var i := 1;
    assert s[1..] == s[i..];
    while At(s, i) != QUOTE
      invariant 1 <= i <= |s|
      invariant BodyLength(s[1..]) ==
        match BodyLength(s[i..]) case None => None case Some(n) => Some(i - 1 + n)
      decreases |s| - i
    {
      assert s[i..] != [] ==> s[i..][0] == s[i];
      if At(s, i) == 0 {
        return None;
      } else if s[i] == BACKSLASH {
        assert At(s[i..], 1) == At(s, i + 1);
        i := i + 1;
        if At(s, i) == 0 {
          return None;
        }
        assert s[i-1..][2..] == s[i+1..];
      } else {
        assert s[i..][1..] == s[i+1..];
      }
      i := i + 1;
    }
    assert s[i..][0] == QUOTE;
    return Some(s[i + 1..]);
  }

  // ---- parse_utf16 ----

  /** hex_char_to_int */
  function HexDigit(c: byte): (d: int)
    ensures -1 <= d < 16
  {
    if 48 <= c <= 57 then c - 48
    else if 97 <= c <= 102 then c - 97 + 10
    else if 65 <= c <= 70 then c - 65 + 10
    else -1
  }

  /** The value of four hexadecimal digits at the front of s. */
  function Hex4(s: seq<byte>): (v: Option<nat>)
    ensures v.Some? ==> |s| >= 4 && v.value < 0x10000
    ensures v.Some? ==> forall i :: 0 <= i < 4 ==> HexDigit(s[i]) != -1
  {
    if |s| < 4 || HexDigit(s[0]) == -1 || HexDigit(s[1]) == -1 || HexDigit(s[2]) == -1 || HexDigit(s[3]) == -1 then None
    else Some(((HexDigit(s[0]) * 16 + HexDigit(s[1])) * 16 + HexDigit(s[2])) * 16 + HexDigit(s[3]))
  }

  predicate IsLead(cp: int) { 0xD800 <= cp <= 0xDBFF }
  predicate IsTrail(cp: int) { 0xDC00 <= cp <= 0xDFFF }

  datatype Unit = Unit(cp: Utf8.scalar, used: nat)

  function Combine(lead: nat, trail: nat): Utf8.scalar
    requires IsLead(lead) && IsTrail(trail)
  {
    (lead - 0xD800) % 1024 * 1024 + (trail - 0xDC00) % 1024 + 0x10000
  }

  /** A trail surrogate written as \uXXXX. */
  function Trail(s: seq<byte>): (v: Option<nat>)
    ensures v.Some? ==> |s| >= 6 && IsTrail(v.value)
  {
    if |s| < 6 || s[0] != BACKSLASH || s[1] != LOWER_U then None
    else match Hex4(s[2..])
      case None => None
      case Some(v) => if IsTrail(v) then Some(v) else None
  }

  /** The code point written as XXXX, or as XXXX\uXXXX for a surrogate pair, behind a `\u`. */
  function Utf16(s: seq<byte>): (u: Option<Unit>)
    ensures u.Some? ==> u.value.used <= |s|
  {
    match Hex4(s)
    case None => None
    case Some(cp) =>
      if IsLead(cp) then
        match Trail(s[4..])
        case None => None
        case Some(trail) => Some(Unit(Combine(cp, trail), 10))
      else if IsTrail(cp) then None
      else Some(Unit(cp, 4))
  }

  /** The one-letter escapes. */
  function SimpleEscape(c: byte): (r: Option<byte>)
    ensures r.Some? ==> 0 < r.value < 0x80
  {
    if c == QUOTE || c == BACKSLASH || c == SLASH then Some(c)
    else if c == 98 then Some(8)
    else if c == 102 then Some(12)
    else if c == 110 then Some(10)
    else if c == 114 then Some(13)
    else if c == 116 then Some(9)
    else None
  }

  function Prepend(p: seq<byte>, r: Option<seq<byte>>): Option<seq<byte>>
  {
    match r case None => None case Some(t) => Some(p + t)
  }

  datatype Chunk = Chunk(bytes: seq<byte>, used: nat)

  /** One character or escape at the front of a token body. */
  function Next(b: seq<byte>): (c: Option<Chunk>)
    requires b != []
    ensures c.Some? ==> 0 < c.value.used <= |b| && |c.value.bytes| <= c.value.used
  {
    if b[0] == BACKSLASH then
      if At(b, 1) == LOWER_U then
        match Utf16(b[2..])
        case None => None
        case Some(u) => Some(Chunk(Utf8.Encode(u.cp), 2 + u.used))
      else
        match SimpleEscape(At(b, 1))
        case None => None
        case Some(c) => Some(Chunk([c], 2))
    else if b[0] < 0x20 then None
    else Some(Chunk([b[0]], 1))
  }

  /** The meaning of a token body. It sees no byte behind the closing quote. */
  function Unescape(b: seq<byte>): Option<seq<byte>>
  {
    if At(b, 0) == 0 then Some([])
    else match Next(b)
      case None => None
      case Some(c) => Prepend(c.bytes, Unescape(b[c.used..]))
  }

  /** Undoing the escapes never lengthens the text, so the buffer of process_string suffices. */
  lemma {:induction false} UnescapeShrinks(b: seq<byte>)
    requires Unescape(b).Some?
    ensures |Unescape(b).value| <= |b|
    decreases |b|
  {
    if At(b, 0) != 0 {
      UnescapeShrinks(b[Next(b).value.used..]);
    }
  }

  // ---- what is read ----

  /** The text from the pointer on, with the terminating NUL, its only one, as last byte. */
  predicate Terminated(t: seq<byte>)
  {
    t != [] && t[|t| - 1] == 0 && forall i :: 0 <= i < |t| - 1 ==> t[i] != 0
  }

  /** How many bytes parse_utf16_hex looks at: its NUL test comes before the digits are judged. */
  function HexReads(t: seq<byte>): (n: nat)
    requires Terminated(t)
    ensures n <= |t|
  {
    if t[0] == 0 then 1 else if t[1] == 0 then 2 else if t[2] == 0 then 3 else 4
  }

  /** The hexadecimal lookahead passes the closing quote, at index q, exactly when fewer than three
      bytes are in front of it; it never passes the terminating NUL. */
  lemma LookaheadPassesQuote(t: seq<byte>, q: nat)
    requires Terminated(t) && q < |t| - 1 && t[q] == QUOTE
    ensures HexReads(t) > q + 1 <==> q < 3
    ensures HexReads(t) <= |t|
  {
  }

  /** The second half of a surrogate pair is looked at, with fewer than three bytes left for its digits. */
  predicate TrailPasses(s: seq<byte>)
  {
    2 <= |s| < 5 && s[0] == BACKSLASH && s[1] == LOWER_U
  }

  /** What stands behind a `\u` makes parse_utf16 look behind the closing quote. */
  predicate Utf16Passes(s: seq<byte>)
  {
    |s| < 3 || (Hex4(s).Some? && IsLead(Hex4(s).value) && TrailPasses(s[4..]))
  }

  predicate UnitPasses(b: seq<byte>)
  {
    |b| >= 2 && b[0] == BACKSLASH && b[1] == LOWER_U && Utf16Passes(b[2..])
  }

  /** A token body makes process_string look behind the closing quote: all of it decodes up to a `\u` of
      whose digits, or of whose partner's digits, fewer than three bytes are there. */
  predicate Passes(b: seq<byte>)
  {
    At(b, 0) != 0 && (UnitPasses(b) || (Next(b).Some? && Passes(b[Next(b).value.used..])))
  }

  /** Such a token is always rejected. */
  lemma {:induction false} PassingIsRejected(b: seq<byte>)
    requires Passes(b)
    ensures Unescape(b) == None
  {
    if UnitPasses(b) {
      assert Utf16(b[2..]) == None;
    } else {
      PassingIsRejected(b[Next(b).value.used..]);
    }
  }

  /** Still, what follows the closing quote never changes the value. */
  lemma HexStopsAtQuote(t: seq<byte>, q: nat)
    requires q < |t| && t[q] == QUOTE
    ensures Hex4(t) == Hex4(t[..q])
  {
  }

  /** parse_utf16_hex; `looked` counts the bytes it looks at. */
  method ParseUtf16Hex(t: seq<byte>, p: nat) returns (v: Option<nat>, ghost looked: nat)
    requires p < |t| && Terminated(t[p..])
    ensures v == Hex4(t[p..]) && looked == HexReads(t[p..])
  {
    ghost var h := t[p..];
    assert h[0] == t[p];
    looked := 1;
    if t[p] == 0 { return None, looked; }
    assert h[1] == t[p + 1];
    looked := 2;
    if t[p + 1] == 0 { return None, looked; }
    assert h[2] == t[p + 2];
    looked := 3;
    if t[p + 2] == 0 { return None, looked; }
    assert h[3] == t[p + 3];
    looked := 4;
    if t[p + 3] == 0 { return None, looked; }
    var x1, x2, x3, x4 := HexDigit(t[p]), HexDigit(t[p + 1]), HexDigit(t[p + 2]), HexDigit(t[p + 3]);
    if x1 == -1 || x2 == -1 || x3 == -1 || x4 == -1 {
      return None, looked;
    }
    v := Some(x1 * 4096 + x2 * 256 + x3 * 16 + x4);
  }

  // ---- UTF-8 preservation ----

  lemma HexIsAscii(s: seq<byte>)
    requires Hex4(s).Some?
    ensures forall i :: 0 <= i < 4 ==> s[i] < 0x80
  {
  }

  /** Dropping ASCII bytes from the front keeps a string valid. */
  lemma {:induction false} DropAscii(s: seq<byte>, n: nat)
    requires n <= |s| && (forall i :: 0 <= i < n ==> s[i] < 0x80)
    ensures Utf8.IsValid(s) == Utf8.IsValid(s[n..])
  {
    if n == 0 {
      assert s[0..] == s;
    } else {
      Utf8.AsciiHead(s);
      DropAscii(s[1..], n - 1);
      assert s[1..][n-1..] == s[n..];
    }
  }

  lemma Utf16IsAscii(s: seq<byte>)
    requires Utf16(s).Some?
    ensures forall i :: 0 <= i < Utf16(s).value.used ==> s[i] < 0x80
  {
    HexIsAscii(s);
    if Utf16(s).value.used == 10 {
      assert s[4..][2..] == s[6..] && s[4..][0] == s[4] && s[4..][1] == s[5];
      HexIsAscii(s[6..]);
      forall i | 6 <= i < 10 ensures s[i] < 0x80 {
        assert s[6..][i - 6] == s[i];
      }
    }
  }

  /** Bytes that are neither control characters nor backslashes are copied. */
  lemma CopyOne(b: seq<byte>)
    requires b != [] && b[0] >= 0x20 && b[0] != BACKSLASH
    ensures Unescape(b) == Prepend([b[0]], Unescape(b[1..]))
  {
  }

  lemma {:induction false} CopyRun(b: seq<byte>, n: nat)
    requires n <= |b| && (forall i :: 0 <= i < n ==> b[i] >= 0x20 && b[i] != BACKSLASH)
    ensures Unescape(b) == Prepend(b[..n], Unescape(b[n..]))
  {
    hide Unescape;
    if n == 0 {
      assert b[0..] == b;
      assert Unescape(b).Some? ==> [] + Unescape(b).value == Unescape(b).value;
    } else {
      CopyOne(b);
      CopyRun(b[1..], n - 1);
      assert b[1..][n-1..] == b[n..];
      assert [b[0]] + b[1..][..n-1] == b[..n];
      PrependTwice([b[0]], b[1..][..n-1], Unescape(b[n..]));
    }
  }

  lemma ValidCopy(b: seq<byte>, n: nat, tail: seq<byte>)
    requires b != [] && n == Utf8.Verify(b) > 0 && Utf8.IsValid(tail)
    ensures n <= |b| && Utf8.IsValid(b[..n] + tail)
  {
    Utf8.VerifySound(b);
    Utf8.ValidPrepend(Utf8.CodePoint(b, n), tail);
  }

  lemma VerifiedRun(b: seq<byte>)
    requires b != [] && Utf8.Verify(b) > 1
    ensures Utf8.Verify(b) <= |b|
    ensures forall i :: 0 <= i < Utf8.Verify(b) ==> b[i] >= 0x80
  {
  }

  /** A token body that is valid UTF-8 is decoded to valid UTF-8. */
  lemma {:induction false} UnescapeKeepsUtf8(b: seq<byte>)
    requires Utf8.IsValid(b) && Unescape(b).Some?
    ensures Utf8.IsValid(Unescape(b).value)
    decreases |b|
  {
    if At(b, 0) == 0 {
    } else if b[0] == BACKSLASH {
      if b[1] == LOWER_U {
        var u := Utf16(b[2..]).value;
        Utf16IsAscii(b[2..]);
        assert forall i :: 2 <= i < 2 + u.used ==> b[i] == b[2..][i - 2];
        DropAscii(b, 2 + u.used);
        UnescapeKeepsUtf8(b[2 + u.used..]);
        Utf8.ValidPrepend(u.cp, Unescape(b[2 + u.used..]).value);
      } else {
        DropAscii(b, 2);
        UnescapeKeepsUtf8(b[2..]);
        Utf8.AsciiHead(Unescape(b).value);
        assert Unescape(b).value[1..] == Unescape(b[2..]).value;
      }
    } else {
      var n := Utf8.Verify(b);
      if n > 1 { VerifiedRun(b); }
      CopyRun(b, n);
      UnescapeKeepsUtf8(b[n..]);
      ValidCopy(b, n, Unescape(b[n..]).value);
    }
  }

  /** The string a caller sees ends at the first NUL; it is valid UTF-8 too. */
  lemma DecodedStringIsUtf8(b: seq<byte>)
    requires Utf8.IsValid(b) && Unescape(b).Some?
    ensures Utf8.IsValid(CString(Unescape(b).value))
  {
    UnescapeKeepsUtf8(b);
    Utf8.ValidPrefix(Unescape(b).value);
  }

  // ---- process_string ----

  lemma TerminatedFrom(t: seq<byte>, p: nat)
    requires Terminated(t) && p < |t|
    ensures Terminated(t[p..])
  {
  }

  /** A hexadecimal field is the same read from the token as from the whole text. */
  lemma HexInToken(t: seq<byte>, p: nat, q: nat)
    requires p <= q < |t| && t[q] == QUOTE
    ensures Hex4(t[p..]) == Hex4(t[p..q])
  {
    assert t[p..][q - p] == QUOTE;
    HexStopsAtQuote(t[p..], q - p);
    assert t[p..][..q - p] == t[p..q];
  }

  /** The byte-writing branches of parse_utf16; the pointer is left on the last byte written. */
  method PutUtf8(cp: Utf8.scalar, out: array<byte>, o: nat) returns (o': nat)
    requires o + |Utf8.Encode(cp)| <= out.Length
    modifies out
    ensures o' + 1 == o + |Utf8.Encode(cp)|
    ensures out[..o' + 1] == old(out[..o]) + Utf8.Encode(cp)
  {
    if cp < 0x80 {
      out[o] := cp;
      return o;
    } else if cp < 0x800 {
      out[o], out[o + 1] := 0xC0 + cp / 64 % 32, 0x80 + cp % 64;
      return o + 1;
    } else if cp < 0x10000 {
      out[o], out[o + 1], out[o + 2] := 0xE0 + cp / 4096 % 16, 0x80 + cp / 64 % 64, 0x80 + cp % 64;
      return o + 2;
    } else {
      out[o], out[o + 1], out[o + 2], out[o + 3] :=
        0xF0 + cp / 262144 % 8, 0x80 + cp / 4096 % 64, 0x80 + cp / 64 % 64, 0x80 + cp % 64;
      return o + 3;
    }
  }

  // In what follows `reach` is the end of what has been read: one behind the highest index looked at.

  function Max(a: nat, b: nat): nat { if a < b then b else a }

  /** A hexadecimal field at p of a token that ends at q. */
  method ReadHex(t: seq<byte>, p: nat, ghost q: nat) returns (v: Option<nat>, ghost reach: nat)
    requires Terminated(t) && p <= q < |t| && t[q] == QUOTE
    ensures v == Hex4(t[p..q])
    ensures p < reach <= |t| && (reach > q + 1 <==> q - p < 3)
  {
    TerminatedFrom(t, p);
    HexInToken(t, p, q);
    assert t[p..][q - p] == QUOTE;
    LookaheadPassesQuote(t[p..], q - p);
    ghost var looked;
    v, looked := ParseUtf16Hex(t, p);
    reach := p + looked;
  }

  method ReadTrail(t: seq<byte>, i: nat, ghost q: nat) returns (v: Option<nat>, ghost reach: nat)
    requires Terminated(t) && i <= q < |t| && t[q] == QUOTE
    ensures v == Trail(t[i..q])
    ensures reach <= |t| && (reach > q + 1 <==> TrailPasses(t[i..q]))
  {
    ghost var s := t[i..q];
    assert |s| > 0 ==> s[0] == t[i];
    reach := i + 1;
    if t[i] != BACKSLASH {
      return None, reach;
    }
    assert |s| > 1 ==> s[1] == t[i + 1];
    reach := i + 2;
    if t[i + 1] != LOWER_U {
      return None, reach;
    }
    assert s[2..] == t[i + 2..q];
    v, reach := ReadHex(t, i + 2, q);
    if v.Some? && !IsTrail(v.value) {
      return None, reach;
    }
  }

  /** The reading half of parse_utf16: the code point and the number of bytes behind the `u` it takes. */
  method ReadUtf16(t: seq<byte>, p: nat, ghost q: nat) returns (u: Option<Unit>, ghost reach: nat)
    requires Terminated(t) && p < q < |t| && t[q] == QUOTE
    ensures u == Utf16(t[p + 1..q])
    ensures reach <= |t| && (reach > q + 1 <==> Utf16Passes(t[p + 1..q]))
  {
    var lead;
    lead, reach := ReadHex(t, p + 1, q);
    if lead == None {
      return None, reach;
    }
    if IsLead(lead.value) {
      assert t[p + 1..q][4..] == t[p + 5..q];
      var trail;
      ghost var further;
      trail, further := ReadTrail(t, p + 5, q);
      reach := Max(reach, further);
      if trail == None {
        return None, reach;
      }
      return Some(Unit(Combine(lead.value, trail.value), 10)), reach;
    } else if IsTrail(lead.value) {
      return None, reach;
    }
    return Some(Unit(lead.value, 4)), reach;
  }

  /** parse_utf16: p points at the `u`, q at the closing quote; both pointers stop one short of the next unit. */
  method ParseUtf16(t: seq<byte>, p: nat, out: array<byte>, o: nat, ghost q: nat)
    returns (ok: bool, p': nat, o': nat, ghost reach: nat)
    requires Terminated(t) && p < q < |t| && t[q] == QUOTE
    requires o + (q - p) <= out.Length
    modifies out
    ensures ok <==> Utf16(t[p + 1..q]).Some?
    ensures ok ==> p' == p + Utf16(t[p + 1..q]).value.used < q && o <= o' < o + (q - p)
    ensures ok ==> out[..o' + 1] == old(out[..o]) + Utf8.Encode(Utf16(t[p + 1..q]).value.cp)
    ensures reach <= |t| && (reach > q + 1 <==> Utf16Passes(t[p + 1..q]))
  {
    p', o' := p, o;
    var u;
    u, reach := ReadUtf16(t, p, q);
    if u == None {
      return false, p', o', reach;
    }
    o' := PutUtf8(u.value.cp, out, o);
    return true, p + u.value.used, o', reach;
  }

  lemma {:induction false} WellEscapedSkip(b: seq<byte>, n: nat)
    requires n <= |b| && forall i :: 0 <= i < n ==> b[i] != BACKSLASH && b[i] != QUOTE && b[i] != 0
    ensures WellEscaped(b) == WellEscaped(b[n..])
  {
    if n == 0 {
      assert b[0..] == b;
    } else {
      WellEscapedSkip(b[1..], n - 1);
      assert b[1..][n-1..] == b[n..];
    }
  }

  /** Behind a \u escape the rest of the body is well escaped again. */
  lemma WellEscapedAfterUtf16(b: seq<byte>)
    requires WellEscaped(b) && |b| >= 2 && b[0] == BACKSLASH && b[1] == LOWER_U && Utf16(b[2..]).Some?
    ensures WellEscaped(b[2 + Utf16(b[2..]).value.used..])
  {
    var s := b[2..];
    WellEscapedSkip(s, 4);
    if Utf16(s).value.used == 10 {
      assert s[4..][0] == s[4] && s[4..][2..] == s[6..];
      WellEscapedSkip(s[6..], 4);
      assert s[6..][4..] == b[12..];
    } else {
      assert s[4..] == b[6..];
    }
  }

  lemma WellEscapedNext(b: seq<byte>)
    requires WellEscaped(b) && b != [] && Next(b).Some?
    ensures WellEscaped(b[Next(b).value.used..])
  {
    if b[0] == BACKSLASH && b[1] == LOWER_U {
      WellEscapedAfterUtf16(b);
    }
  }

  /** One turn of the loop of process_string. */
  method ProcessUnit(t: seq<byte>, i: nat, out: array<byte>, o: nat, ghost q: nat)
    returns (ok: bool, i': nat, o': nat, ghost reach: nat)
    requires Terminated(t) && i < q < |t| && t[q] == QUOTE && (t[i] == BACKSLASH ==> i + 1 < q)
    requires o + (q - i) <= out.Length
    modifies out
    ensures ok <==> Next(t[i..q]).Some?
    ensures ok ==> i' == i + Next(t[i..q]).value.used && o <= o' <= o + (i' - i)
    ensures ok ==> out[..o'] == old(out[..o]) + Next(t[i..q]).value.bytes
    ensures reach <= |t| && (reach > q + 1 <==> UnitPasses(t[i..q]))
  {
    ghost var b := t[i..q];
    assert b[0] == t[i];
    i', o', reach := i, o, i + 1;
    if t[i] == BACKSLASH {
      assert b[1] == t[i + 1];
      reach := i + 2;
      if t[i + 1] == LOWER_U {
        assert b[2..] == t[i + 2..q];
        var p, k;
        ghost var further;
        ok, p, k, further := ParseUtf16(t, i + 1, out, o, q);
        reach := Max(reach, further);
        if ok {
          i', o' := p + 1, k + 1;
        }
        return;
      }
      var c := SimpleEscape(t[i + 1]);
      if c == None {
        return false, i, o, reach;
      }
      out[o] := c.value;
      return true, i + 2, o + 1, reach;
    } else if t[i] < 0x20 {
      return false, i, o, reach;
    }
    out[o] := t[i];
    return true, i + 1, o + 1, reach;
  }

  lemma PassesStep(b: seq<byte>)
    requires b != [] && b[0] != 0
    ensures UnitPasses(b) ==> Passes(b) && Next(b) == None
    ensures !UnitPasses(b) ==> Passes(b) == (Next(b).Some? && Passes(b[Next(b).value.used..]))
  {
  }

  /** process_string, on the token body t[start..start + len]. Every index into t and into the
      output buffer of len + 1 bytes is in range; bytes behind the closing quote are read exactly
      when the body says so, and none behind the NUL. */
  method ProcessString(t: seq<byte>, start: nat, len: nat) returns (r: Option<seq<byte>>, ghost reach: nat)
    requires Terminated(t) && start + len < |t| && t[start + len] == QUOTE
    requires WellEscaped(t[start..start + len])
    ensures r == Unescape(t[start..start + len])
    ensures reach <= |t| && (reach > start + len + 1 <==> Passes(t[start..start + len]))
  {
    hide Passes, UnitPasses;
    var q := start + len;
    var output := new byte[len + 1];
    var i, o := start, 0;
    reach := start + 1;
    assert output[..0] == [];
    PrependNothing(Unescape(t[i..q]));
    while t[i] != 0 && i - start < len
      invariant start <= i <= q && 0 <= o <= i - start && reach <= q + 1
      invariant WellEscaped(t[i..q]) && (Passes(t[start..q]) <==> Passes(t[i..q]))
      invariant Unescape(t[start..q]) == Prepend(output[..o], Unescape(t[i..q]))
      decreases q - i
    {
      ghost var was, b := output[..o], t[i..q];
      assert b[0] == t[i];
      PassesStep(b);
      var ok;
      ghost var further;
      ok, i, o, further := ProcessUnit(t, i, output, o, q);
      reach := Max(reach, further);
      if !ok {
        return None, reach;
      }
      WellEscapedNext(b);
      assert b[Next(b).value.used..] == t[i..q];
      PrependTwice(was, Next(b).value.bytes, Unescape(t[i..q]));
      reach := Max(reach, i + 1);
    }
    r := Some(output[..o]);
    output[o] := 0;
    assert i == q && t[i..q] == [];
    NothingPasses();
    assert r.value + [] == r.value;
  }

  lemma NothingPasses()
    ensures !Passes([])
  {
  }

  /** The text `"\u"1`: the token is found and rejected, and the digit behind it, at index 4, is read. */
  method LookaheadExample() returns (rest: Option<seq<byte>>, r: Option<seq<byte>>, ghost reach: nat)
    ensures rest == Some([49]) && r == None && reach >= 5
  {
    var s: seq<byte> := [QUOTE, BACKSLASH, LOWER_U, QUOTE, 49];
    assert s[1..] == [BACKSLASH, LOWER_U] + [QUOTE] + [49];
    assert WellEscaped([BACKSLASH, LOWER_U][2..]);
    BodyLengthOf([BACKSLASH, LOWER_U], [49]);
    rest := SkipQuotes(s);
    assert s[4..] == [49];
    var t := s + [0];
    var body := t[1..3];
    assert body == [BACKSLASH, LOWER_U] && UnitPasses(body) && Passes(body);
    r, reach := ProcessString(t, 1, 2);
    PassingIsRejected(body);
  }

  lemma PrependNothing(r: Option<seq<byte>>)
    ensures Prepend([], r) == r
  {
    if r.Some? { assert [] + r.value == r.value; }
  }

  lemma PrependTwice(a: seq<byte>, b: seq<byte>, r: Option<seq<byte>>)
    ensures Prepend(a, Prepend(b, r)) == Prepend(a + b, r)
  {
    if r.Some? { assert a + (b + r.value) == a + b + r.value; }
  }

  /** get_quoted_string on the text at the pointer: the C string in the quotes and the text behind them. */
  function QuotedString(s: seq<byte>): (r: Option<(seq<byte>, seq<byte>)>)
    ensures r.Some? ==> |r.value.1| < |s|
  {
    if At(s, 0) != QUOTE then None
    else match BodyLength(s[1..])
      case None => None
      case Some(n) =>
        match Unescape(s[1..n + 1])
        case None => None
        case Some(x) => Some((CString(x), s[n + 2..]))
  }

  // ---- json_serialize_string ----

  function HexChar(d: nat): byte
    requires d < 16
  {
    if d < 10 then 48 + d else 97 + d - 10
  }

  /** The text the serializer writes for one byte of a string. */
  function Escape(c: byte): (r: seq<byte>)
  {
    if c == QUOTE || c == BACKSLASH || c == SLASH then [BACKSLASH, c]
    else if c == 8 then [BACKSLASH, 98]
    else if c == 12 then [BACKSLASH, 102]
    else if c == 10 then [BACKSLASH, 110]
    else if c == 13 then [BACKSLASH, 114]
    else if c == 9 then [BACKSLASH, 116]
    else if c < 0x20 then [BACKSLASH, LOWER_U, 48, 48, HexChar(c / 16), HexChar(c % 16)]
    else [c]
  }

  function EscapeAll(s: seq<byte>): seq<byte>
  {
    if s == [] then [] else Escape(s[0]) + EscapeAll(s[1..])
  }

  function PrintString(s: seq<byte>): seq<byte>
  {
    [QUOTE] + EscapeAll(s) + [QUOTE]
  }

  lemma NextOfEscape(b: seq<byte>, c: byte)
    requires Escape(c) <= b && c != 0
    ensures Next(b) == Some(Chunk([c], |Escape(c)|))
  {
    var e := Escape(c);
    assert b[0] == e[0];
    if |e| > 1 { assert b[1] == e[1]; }
    if |e| == 6 {
      var h := b[2..];
      assert h[0] == e[2] && h[1] == e[3] && h[2] == e[4] && h[3] == e[5];
      assert Hex4(h) == Some(c as nat);
    }
  }

  lemma EscapeThenWellEscaped(c: byte, rest: seq<byte>)
    requires c != 0 && WellEscaped(rest)
    ensures WellEscaped(Escape(c) + rest)
  {
    var b, n := Escape(c) + rest, |Escape(c)|;
    assert b[n..] == rest && b[0] == Escape(c)[0];
    if n == 6 {
      var h := b[2..];
      assert h == [48, 48, HexChar(c / 16), HexChar(c % 16)] + rest;
      WellEscapedSkip(h, 4);
      assert h[4..] == rest;
    }
  }

  lemma {:induction false} EscapeIsWellEscaped(s: seq<byte>)
    requires 0 !in s
    ensures WellEscaped(EscapeAll(s))
  {
    if s != [] {
      assert s[0] in s;
      EscapeIsWellEscaped(s[1..]);
      EscapeThenWellEscaped(s[0], EscapeAll(s[1..]));
    }
  }

  lemma {:induction false} UnescapeEscape(s: seq<byte>)
    requires 0 !in s
    ensures Unescape(EscapeAll(s)) == Some(s)
  {
    if s != [] {
      var c, b := s[0], EscapeAll(s);
      assert c in s;
      NextOfEscape(b, c);
      assert b[|Escape(c)|..] == EscapeAll(s[1..]);
      UnescapeEscape(s[1..]);
      assert b[0] == Escape(c)[0] != 0;
      assert [c] + s[1..] == s;
    }
  }

  /** Reading back a printed string. */
  lemma QuotedStringOfPrint(s: seq<byte>, rest: seq<byte>)
    requires 0 !in s
    ensures QuotedString(PrintString(s) + rest) == Some((s, rest))
  {
    hide EscapeAll, BodyLength, Unescape, CString, WellEscaped;
    var t, b := PrintString(s) + rest, EscapeAll(s);
    EscapeIsWellEscaped(s);
    BodyLengthOf(b, rest);
    assert t[1..] == b + [QUOTE] + rest;
    assert t[1..|b| + 1] == b;
    assert t[|b| + 2..] == rest;
    UnescapeEscape(s);
    CStringNoNul(s);
  }
}
