/** Texts with comments, byte by byte, and what the parser with comments makes of them. */
module JsonCommented {
  import opened Bytes
  import opened JsonParser
  import opened JsonComments
  import opened Sequences

  /** The first place of a token, in front of the NUL. */
  predicate FirstAt(s: seq<byte>, token: seq<byte>, k: nat)
  {
    k <= |s| && token <= s[k..] && forall i :: 0 <= i < k ==> s[i] != 0 && !(token <= s[i..])
  }

  lemma FirstBehind(s: seq<byte>, token: seq<byte>, k: nat)
    requires s != [] && s[0] != 0 && !(token <= s)
    ensures FirstAt(s, token, k + 1) <==> FirstAt(s[1..], token, k)
  {
    var t := s[1..];
    assert s[0..] == s;
    assert forall i :: 0 <= i <= |t| ==> t[i..] == s[i + 1..];
    if FirstAt(t, token, k) {
      assert t[k..] == s[k + 1..];
      assert forall i :: 0 < i < k + 1 ==> s[i] == t[i - 1] && s[i..] == t[i - 1..];
    }
    if FirstAt(s, token, k + 1) {
      assert forall i :: 0 <= i < k ==> t[i] == s[i + 1] && t[i..] == s[i + 1..];
    }
  }

  /** A token is found at its first place, and nowhere if it has none. */
  lemma {:induction false} FoundIsFirst(s: seq<byte>, token: seq<byte>, k: nat)
    requires token != [] && 0 !in token
    ensures IndexOf(s, token) == Some(k) <==> FirstAt(s, token, k)
    decreases |s|
  {
    hide FirstAt;
    if token <= s || At(s, 0) == 0 || k == 0 {
      FoundAtOnce(s, token, k);
    } else {
      FirstBehind(s, token, k - 1);
      FoundIsFirst(s[1..], token, k - 1);
    }
  }

  lemma FoundAtOnce(s: seq<byte>, token: seq<byte>, k: nat)
    requires token != [] && 0 !in token && (token <= s || At(s, 0) == 0 || k == 0)
    ensures IndexOf(s, token) == Some(k) <==> FirstAt(s, token, k)
  {
    assert s[0..] == s;
    assert token[0] in token && (token <= s ==> token[0] == s[0]);
  }

  datatype Piece = Code(text: seq<byte>) | Block(body: seq<byte>) | Line(body: seq<byte>)

  /** Code ends outside strings and has a slash only inside them. A block comment holds anything but NUL and the
      token that closes it. A line comment holds no quote, backslash or slash, since the block comments are looked
      for first, and the scan counts the quotes in it. */
  predicate Allowed(p: Piece)
  {
    match p
    case Code(text) => Neutral(text, false, false)
    case Block(body) =>
      0 !in body && forall i :: 0 <= i < |body| ==> !(body[i] == 42 && (body + [42, 47])[i + 1] == 47)
    case Line(body) =>
      (forall i :: 0 <= i < |body| ==> body[i] !in [0, 10, 34, 47, 92]) && (body != [] ==> body[0] != 42)
  }

  predicate AllAllowed(ps: seq<Piece>)
  {
    ps == [] || (Allowed(ps[0]) && AllAllowed(ps[1..]))
  }

  function Spaces(n: nat): (s: seq<byte>)
    ensures |s| == n
  {
    seq(n, _ => 32)
  }

  /** The bytes of a piece. */
  function Raw(p: Piece): seq<byte>
  {
    match p
    case Code(text) => text
    case Block(body) => [47, 42] + body + [42, 47]
    case Line(body) => [47, 47] + body + [10]
  }

  /** As many blanks in the place of a comment, the end of its line included. */
  function Blanked(p: Piece): seq<byte>
  {
    match p
    case Code(text) => text
    case Block(body) => Spaces(|body| + 4)
    case Line(body) => Spaces(|body| + 3)
  }

  /** Without the block comments only. */
  function HalfBlanked(p: Piece): seq<byte> { if p.Block? then Blanked(p) else Raw(p) }

  function Raws(ps: seq<Piece>): seq<byte> { if ps == [] then [] else Raw(ps[0]) + Raws(ps[1..]) }
  function HalfBlankeds(ps: seq<Piece>): seq<byte>
  {
    if ps == [] then [] else HalfBlanked(ps[0]) + HalfBlankeds(ps[1..])
  }

  function Blankeds(ps: seq<Piece>): seq<byte> { if ps == [] then [] else Blanked(ps[0]) + Blankeds(ps[1..]) }

  function WithoutBlocks(s: seq<byte>): seq<byte> { Strip(s, BlockStart(), BlockEnd(), false, false) }
  function WithoutLines(s: seq<byte>): seq<byte> { Strip(s, LineStart(), LineEnd(), false, false) }

  lemma SpacesAreBlanks(n: nat)
    ensures Spaces(n) == Blanks(n) && Neutral(Spaces(n), false, false)
  {
    PlainIsNeutral(Spaces(n));
  }

  /** The closing token of a block comment is the one behind its body. */
  lemma BlockCloses(body: seq<byte>, t: seq<byte>)
    requires Allowed(Block(body))
    ensures IndexOf(body + [42, 47] + t, [42, 47]) == Some(|body|)
  {
    var s := body + [42, 47] + t;
    assert s[|body|..] == [42, 47] + t;
    forall i | 0 <= i < |body| ensures s[i] != 0 && !([42, 47] <= s[i..]) {
      assert s[i] == body[i] && body[i] in body && s[i + 1] == (body + [42, 47])[i + 1];
      assert s[i..][0] == s[i] && s[i..][1] == s[i + 1];
    }
    FoundIsFirst(s, [42, 47], |body|);
  }

  lemma BlockIsRemoved(body: seq<byte>, t: seq<byte>)
    requires Allowed(Block(body))
    ensures WithoutBlocks([47, 42] + body + [42, 47] + t) == Spaces(|body| + 4) + WithoutBlocks(t)
  {
    hide IndexOf, Strip;
    var s := [47, 42] + body + [42, 47] + t;
    BlockCloses(body, t);
    SpacesAreBlanks(|body| + 4);
    assert s[2..] == body + [42, 47] + t && s[|body| + 4..] == t && BlockStart() <= s;
    StripComment(s, BlockStart(), BlockEnd(), false);
  }

  /** A line comment stays when the block comments are removed. */
  lemma LineIsKept(body: seq<byte>, t: seq<byte>)
    requires Allowed(Line(body))
    ensures WithoutBlocks([47, 47] + body + [10] + t) == [47, 47] + body + [10] + WithoutBlocks(t)
  {
    hide Strip;
    var u := body + [10] + t;
    var s := [47, 47] + u;
    assert [47, 47] + body + [10] + t == s && s[1..] == [47] + u && ([47] + u)[1..] == u;
    assert s[0] == 47 && s[1] == 47 && u[0] == if body == [] then 10 else body[0];
    assert ([47] + u)[0] == 47 && ([47] + u)[1] == u[0];
    StripOther(s, BlockStart(), BlockEnd(), false, false);
    StripOther([47] + u, BlockStart(), BlockEnd(), false, false);
    PlainIsNeutral(body + [10]);
    StripNeutral(body + [10], t, BlockStart(), BlockEnd(), false, false);
    var r := WithoutBlocks(t);
    assert [47] + ([47] + (body + [10] + r)) == [47, 47] + body + [10] + r;
  }

  lemma LineCloses(body: seq<byte>, t: seq<byte>)
    requires Allowed(Line(body))
    ensures IndexOf(body + [10] + t, [10]) == Some(|body|)
  {
    var s := body + [10] + t;
    assert s[|body|..] == [10] + t;
    forall i | 0 <= i < |body| ensures s[i] != 0 && !([10] <= s[i..]) {
      assert s[i] == body[i] && s[i..][0] == s[i];
    }
    FoundIsFirst(s, [10], |body|);
  }

  lemma LineIsRemoved(body: seq<byte>, t: seq<byte>)
    requires Allowed(Line(body))
    ensures WithoutLines([47, 47] + body + [10] + t) == Spaces(|body| + 3) + WithoutLines(t)
  {
    hide IndexOf, Strip;
    var s := [47, 47] + body + [10] + t;
    LineCloses(body, t);
    SpacesAreBlanks(|body| + 3);
    assert s[2..] == body + [10] + t && s[|body| + 3..] == t && LineStart() <= s;
    StripComment(s, LineStart(), LineEnd(), false);
  }

  lemma {:induction false} BlocksAreRemoved(ps: seq<Piece>)
    requires AllAllowed(ps)
    ensures WithoutBlocks(Raws(ps)) == HalfBlankeds(ps)
  {
    hide Strip, Neutral;
    if ps == [] {
      StripAtNul([], BlockStart(), BlockEnd(), false, false);
    } else {
      BlocksAreRemoved(ps[1..]);
      match ps[0]
      case Code(text) => StripNeutral(text, Raws(ps[1..]), BlockStart(), BlockEnd(), false, false);
      case Block(body) => BlockIsRemoved(body, Raws(ps[1..]));
      case Line(body) => LineIsKept(body, Raws(ps[1..]));
    }
  }

  lemma {:induction false} LinesAreRemoved(ps: seq<Piece>)
    requires AllAllowed(ps)
    ensures WithoutLines(HalfBlankeds(ps)) == Blankeds(ps)
  {
    hide Strip, Neutral;
    if ps == [] {
      StripAtNul([], LineStart(), LineEnd(), false, false);
    } else {
      var t := HalfBlankeds(ps[1..]);
      LinesAreRemoved(ps[1..]);
      match ps[0]
      case Code(text) => StripNeutral(text, t, LineStart(), LineEnd(), false, false);
      case Block(body) =>
        SpacesAreBlanks(|body| + 4);
        StripNeutral(Spaces(|body| + 4), t, LineStart(), LineEnd(), false, false);
      case Line(body) => LineIsRemoved(body, t);
    }
  }

  /** The parser with comments reads such a text as the plain one reads it with blanks in the place of the
      comments. */
  lemma CommentsAreBlanks(ps: seq<Piece>)
    requires AllAllowed(ps)
    ensures ParseStringWithComments(Raws(ps)) == ParseValue(Blankeds(ps), 0)
  {
    BlocksAreRemoved(ps);
    LinesAreRemoved(ps);
  }

  /** A block comment that is not closed loses its opening token, and nothing behind it is looked at. */
  lemma UnclosedBlock(p: seq<byte>, rest: seq<byte>)
    requires Neutral(p, false, false) && forall k :: !FirstAt(rest, [42, 47], k)
    ensures WithoutBlocks(p + ([47, 42] + rest)) == p + (Spaces(2) + rest)
  {
    hide IndexOf, Strip, FirstAt;
    var s := [47, 42] + rest;
    StripNeutral(p, s, BlockStart(), BlockEnd(), false, false);
    if IndexOf(rest, [42, 47]).Some? {
      FoundIsFirst(rest, [42, 47], IndexOf(rest, [42, 47]).value);
    }
    SpacesAreBlanks(2);
    assert s[2..] == rest;
    StripComment(s, BlockStart(), BlockEnd(), false);
  }

  /** But not every text: a quote in a line comment hides the comments behind it from the other scan. */
  lemma QuoteInALine()
    ensures var s := [47, 47, 34, 10, 47, 42, 42, 47]; // a quote in a line comment, and an empty block comment
      WithoutBlocks(s) == s
  {
    var s := [47, 47, 34, 10, 47, 42, 42, 47];
    assert s[1..] == [47, 34, 10, 47, 42, 42, 47] && s[1..][1..] == [34, 10, 47, 42, 42, 47];
    assert s[2..][1..] == [10, 47, 42, 42, 47] && s[3..][1..] == [47, 42, 42, 47] && s[4..][1..] == [42, 42, 47];
    assert s[5..][1..] == [42, 47] && s[6..][1..] == [47] && s[7..][1..] == [];
    StripInside([47, 42, 42, 47]);
    StripOther(s, BlockStart(), BlockEnd(), false, false);
    StripOther(s[1..], BlockStart(), BlockEnd(), false, false);
    StripQuote(s[2..], BlockStart(), BlockEnd(), false);
    StripOther(s[3..], BlockStart(), BlockEnd(), true, false);
    assert s[1..][1..] == s[2..] && s[2..][1..] == s[3..] && s[3..][1..] == s[4..];
    assert s == [s[0]] + ([s[1]] + ([s[2]] + ([s[3]] + s[4..])));
  }

  lemma {:induction false} StripInside(s: seq<byte>)
    requires forall i :: 0 <= i < |s| ==> s[i] !in [0, 34, 92]
    ensures Strip(s, BlockStart(), BlockEnd(), true, false) == s
  {
    if s != [] {
      StripInside(s[1..]);
      assert s == [s[0]] + s[1..];
    }
  }
}
