/** The spellings of a string after section 2.5 of RFC 4627, byte by byte: what the decoder makes of them, and that
    it takes nothing else. Nothing here is said in terms of the decoder's own functions. */
module JsonSpelling {
  import opened Bytes
  import opened JsonString
  import Utf8

  /** One character of a string: itself, a one-letter escape, or its code point in hexadecimal digits, in a
      surrogate pair if need be; upper says which digits are upper-case letters. */
  datatype Piece = Plain(b: byte) | Short(letter: byte) | Code(cp: Utf8.scalar, upper: seq<bool>)

  function Digit(d: nat, upper: bool): byte
    requires d < 16
  {
    if d < 10 then 48 + d else if upper then 55 + d else 87 + d
  }

  /** Four hexadecimal digits. */
  function Hex(v: nat, upper: seq<bool>): (s: seq<byte>)
    requires |upper| == 4
    ensures |s| == 4
  {
    [Digit(v / 0x1000 % 16, upper[0]), Digit(v / 0x100 % 16, upper[1]), Digit(v / 0x10 % 16, upper[2]),
     Digit(v % 16, upper[3])]
  }

  /** What the letter of a one-letter escape stands for. */
  function Letter(c: byte): Option<byte>
  {
    match c
    case 34 => Some(34)
    case 92 => Some(92)
    case 47 => Some(47)
    case 98 => Some(8)
    case 102 => Some(12)
    case 110 => Some(10)
    case 114 => Some(13)
    case 116 => Some(9)
    case _ => None
  }

  predicate Allowed(p: Piece)
  {
    match p
    case Plain(b) => b >= 32 && b != 34 && b != 92
    case Short(c) => Letter(c).Some?
    case Code(cp, upper) => |upper| == if cp < 0x1_0000 then 4 else 8
  }

  function Text(p: Piece): (s: seq<byte>)
    requires Allowed(p)
    ensures s != []
  {
    match p
    case Plain(b) => [b]
    case Short(c) => [92, c]
    case Code(cp, upper) =>
      if cp < 0x1_0000 then [92, 117] + Hex(cp, upper)
      else
        [92, 117] + Hex(0xD800 + (cp - 0x1_0000) / 0x400, upper[..4]) +
        [92, 117] + Hex(0xDC00 + (cp - 0x1_0000) % 0x400, upper[4..])
  }

  function Meaning(p: Piece): seq<byte>
    requires Allowed(p)
  {
    match p
    case Plain(b) => [b]
    case Short(c) => [Letter(c).value]
    case Code(cp, _) => Utf8.Encode(cp)
  }

  predicate AllAllowed(ps: seq<Piece>)
  {
    forall i :: 0 <= i < |ps| ==> Allowed(ps[i])
  }

  function Texts(ps: seq<Piece>): seq<byte>
    requires AllAllowed(ps)
  {
    if ps == [] then [] else Text(ps[0]) + Texts(ps[1..])
  }

  function Meanings(ps: seq<Piece>): seq<byte>
    requires AllAllowed(ps)
  {
    if ps == [] then [] else Meaning(ps[0]) + Meanings(ps[1..])
  }

  // ---- digits ----

  lemma DigitIs(d: nat, upper: bool)
    requires d < 16
    ensures HexDigit(Digit(d, upper)) == d && Digit(d, upper) != 34 && Digit(d, upper) != 92 && Digit(d, upper) != 0
  {
  }

  lemma HexValue(v: nat)
    requires v < 0x1_0000
    ensures ((v / 0x1000 % 16 * 16 + v / 0x100 % 16) * 16 + v / 0x10 % 16) * 16 + v % 16 == v
  {
  }

  lemma HexIsRead(v: nat, upper: seq<bool>, t: seq<byte>)
    requires v < 0x1_0000 && |upper| == 4
    ensures Hex4(Hex(v, upper) + t) == Some(v)
  {
    hide HexDigit, Digit;
    var s := Hex(v, upper) + t;
    assert s[0] == Hex(v, upper)[0] && s[1] == Hex(v, upper)[1] && s[2] == Hex(v, upper)[2] && s[3] == Hex(v, upper)[3];
    DigitIs(v / 0x1000 % 16, upper[0]);
    DigitIs(v / 0x100 % 16, upper[1]);
    DigitIs(v / 0x10 % 16, upper[2]);
    DigitIs(v % 16, upper[3]);
    HexValue(v);
  }

  lemma IsADigit(c: byte)
    requires HexDigit(c) != -1
    ensures c == Digit(HexDigit(c), c < 97)
  {
  }

  lemma FourDigits(a: nat, b: nat, c: nat, d: nat)
    requires a < 16 && b < 16 && c < 16 && d < 16
    ensures var v := ((a * 16 + b) * 16 + c) * 16 + d;
      v / 0x1000 % 16 == a && v / 0x100 % 16 == b && v / 0x10 % 16 == c && v % 16 == d
  {
  }

  /** Whatever is read as four digits is spelled so. */
  lemma ReadIsHex(s: seq<byte>) returns (upper: seq<bool>)
    requires Hex4(s).Some?
    ensures |upper| == 4 && s[..4] == Hex(Hex4(s).value, upper)
  {
    hide HexDigit, Digit;
    upper := [s[0] < 97, s[1] < 97, s[2] < 97, s[3] < 97];
    IsADigit(s[0]);
    IsADigit(s[1]);
    IsADigit(s[2]);
    IsADigit(s[3]);
    FourDigits(HexDigit(s[0]), HexDigit(s[1]), HexDigit(s[2]), HexDigit(s[3]));
  }

  // ---- one piece ----

  lemma PairValue(cp: Utf8.scalar)
    requires cp >= 0x1_0000
    ensures var lead, trail := 0xD800 + (cp - 0x1_0000) / 0x400, 0xDC00 + (cp - 0x1_0000) % 0x400;
      IsLead(lead) && IsTrail(trail) && Combine(lead, trail) == cp
  {
  }

  lemma PairOf(lead: nat, trail: nat)
    requires IsLead(lead) && IsTrail(trail)
    ensures var cp := Combine(lead, trail);
      cp >= 0x1_0000 && lead == 0xD800 + (cp - 0x1_0000) / 0x400 && trail == 0xDC00 + (cp - 0x1_0000) % 0x400
  {
  }

  /** The decoder reads an allowed piece as what it means, whatever follows. */
  lemma PieceIsRead(p: Piece, t: seq<byte>)
    requires Allowed(p)
    ensures Next(Text(p) + t) == Some(Chunk(Meaning(p), |Text(p)|))
  {
    match p
    case Plain(b) =>
    case Short(c) =>
      assert (Text(p) + t)[1] == c;
    case Code(cp, upper) => CodeIsRead(cp, upper, t);
  }

  lemma CodeIsRead(cp: Utf8.scalar, upper: seq<bool>, t: seq<byte>)
    requires Allowed(Code(cp, upper))
    ensures Next(Text(Code(cp, upper)) + t) == Some(Chunk(Utf8.Encode(cp), |Text(Code(cp, upper))|))
  {
    hide Hex, Hex4, Combine, Utf8.Encode;
    var s := Text(Code(cp, upper)) + t;
    if cp < 0x1_0000 {
      assert s[2..] == Hex(cp, upper) + t;
      HexIsRead(cp, upper, t);
    } else {
      var lead, trail := 0xD800 + (cp - 0x1_0000) / 0x400, 0xDC00 + (cp - 0x1_0000) % 0x400;
      PairValue(cp);
      var u := [92, 117] + (Hex(trail, upper[4..]) + t);
      assert s[2..] == Hex(lead, upper[..4]) + u;
      HexIsRead(lead, upper[..4], u);
      assert s[2..][4..] == u && u[2..] == Hex(trail, upper[4..]) + t;
      HexIsRead(trail, upper[4..], t);
    }
  }

  /** And what it reads is an allowed piece. */
  lemma ReadIsAPiece(b: seq<byte>) returns (p: Piece)
    requires b != [] && WellEscaped(b) && Next(b).Some?
    ensures Allowed(p) && Next(b).value == Chunk(Meaning(p), |Text(p)|) && b == Text(p) + b[|Text(p)|..]
  {
    if b[0] != 92 {
      p := Plain(b[0]);
    } else if b[1] == 117 {
      p := ReadIsACode(b);
    } else {
      p := Short(b[1]);
      assert b == [92, b[1]] + b[2..];
    }
  }

  lemma ReadIsACode(b: seq<byte>) returns (p: Piece)
    requires |b| >= 2 && b[0] == 92 && b[1] == 117 && Next(b).Some?
    ensures Allowed(p) && Next(b).value == Chunk(Meaning(p), |Text(p)|) && b == Text(p) + b[|Text(p)|..]
  {
    hide Hex, Hex4, Combine, Utf8.Encode;
    var s := b[2..];
    var cp := Hex4(s).value;
    var upper := ReadIsHex(s);
    if IsLead(cp) {
      var u := s[4..];
      var trail := Hex4(u[2..]).value;
      var lower := ReadIsHex(u[2..]);
      PairOf(cp, trail);
      p := Code(Combine(cp, trail), upper + lower);
      assert (upper + lower)[..4] == upper && (upper + lower)[4..] == lower;
      assert b == [92, 117] + s[..4] + [92, 117] + u[2..][..4] + b[12..];
    } else {
      p := Code(cp, upper);
      assert b == [92, 117] + s[..4] + b[6..];
    }
  }

  // ---- whole strings ----

  lemma OneIsEscaped(c: byte, t: seq<byte>)
    requires c != 0 && c != 34 && c != 92
    ensures WellEscaped([c] + t) <==> WellEscaped(t)
  {
    assert ([c] + t)[1..] == t;
  }

  lemma TwoAreEscaped(c: byte, t: seq<byte>)
    requires c != 0
    ensures WellEscaped([92, c] + t) <==> WellEscaped(t)
  {
    assert ([92, c] + t)[2..] == t;
  }

  lemma HexIsEscaped(v: nat, upper: seq<bool>, t: seq<byte>)
    requires |upper| == 4
    ensures WellEscaped(Hex(v, upper) + t) <==> WellEscaped(t)
  {
    hide Digit, WellEscaped;
    var h := Hex(v, upper);
    DigitIs(v / 0x1000 % 16, upper[0]);
    DigitIs(v / 0x100 % 16, upper[1]);
    DigitIs(v / 0x10 % 16, upper[2]);
    DigitIs(v % 16, upper[3]);
    OneIsEscaped(h[3], t);
    OneIsEscaped(h[2], [h[3]] + t);
    OneIsEscaped(h[1], [h[2]] + ([h[3]] + t));
    OneIsEscaped(h[0], [h[1]] + ([h[2]] + ([h[3]] + t)));
    assert h + t == [h[0]] + ([h[1]] + ([h[2]] + ([h[3]] + t)));
  }

  lemma PieceIsEscaped(p: Piece, t: seq<byte>)
    requires Allowed(p)
    ensures WellEscaped(Text(p) + t) <==> WellEscaped(t)
  {
    hide WellEscaped, Hex;
    match p
    case Plain(b) => OneIsEscaped(b, t);
    case Short(c) => TwoAreEscaped(c, t);
    case Code(cp, upper) =>
      if cp < 0x1_0000 {
        HexIsEscaped(cp, upper, t);
        TwoAreEscaped(117, Hex(cp, upper) + t);
        assert Text(p) + t == [92, 117] + (Hex(cp, upper) + t);
      } else {
        var lead, trail := 0xD800 + (cp - 0x1_0000) / 0x400, 0xDC00 + (cp - 0x1_0000) % 0x400;
        var u := [92, 117] + (Hex(trail, upper[4..]) + t);
        HexIsEscaped(trail, upper[4..], t);
        TwoAreEscaped(117, Hex(trail, upper[4..]) + t);
        HexIsEscaped(lead, upper[..4], u);
        TwoAreEscaped(117, Hex(lead, upper[..4]) + u);
        assert Text(p) + t == [92, 117] + (Hex(lead, upper[..4]) + u);
      }
  }

  lemma {:induction false} TextsAreRead(ps: seq<Piece>)
    requires AllAllowed(ps)
    ensures WellEscaped(Texts(ps)) && Unescape(Texts(ps)) == Some(Meanings(ps))
    decreases |ps|
  {
    hide Text, Meaning, Next;
    if ps != [] {
      var t := Texts(ps[1..]);
      TextsAreRead(ps[1..]);
      PieceIsRead(ps[0], t);
      PieceIsEscaped(ps[0], t);
      var s := Text(ps[0]) + t;
      assert s == Texts(ps) && s[|Text(ps[0])|..] == t;
    }
  }

  lemma {:induction false} ReadIsTexts(b: seq<byte>) returns (ps: seq<Piece>)
    requires WellEscaped(b) && Unescape(b).Some?
    ensures AllAllowed(ps) && Texts(ps) == b && Meanings(ps) == Unescape(b).value
    decreases |b|
  {
    hide Text, Meaning, Next;
    if b == [] {
      ps := [];
    } else {
      var p := ReadIsAPiece(b);
      var t := b[|Text(p)|..];
      PieceIsEscaped(p, t);
      var rest := ReadIsTexts(t);
      ps := [p] + rest;
      assert ps[0] == p && ps[1..] == rest;
      assert Texts(ps) == Text(p) + t && Meanings(ps) == Meaning(p) + Meanings(rest);
    }
  }

  /** A token body is decoded to r if and only if it is a spelling of r. */
  lemma DecodedIffSpelled(b: seq<byte>, r: seq<byte>)
    requires WellEscaped(b)
    ensures Unescape(b) == Some(r) <==> exists ps :: AllAllowed(ps) && Texts(ps) == b && Meanings(ps) == r
  {
    if Unescape(b) == Some(r) {
      var ps := ReadIsTexts(b);
    }
    forall ps | AllAllowed(ps) && Texts(ps) == b && Meanings(ps) == r ensures Unescape(b) == Some(r) {
      TextsAreRead(ps);
    }
  }

  /** Every scalar value, spelled in hexadecimal with letters of either case, is decoded to its UTF-8 encoding. */
  lemma ScalarIsDecoded(cp: Utf8.scalar, upper: seq<bool>)
    requires |upper| == if cp < 0x1_0000 then 4 else 8
    ensures Unescape(Text(Code(cp, upper))) == Some(Utf8.Encode(cp))
  {
    var ps := [Code(cp, upper)];
    TextsAreRead(ps);
    assert ps[1..] == [] && Texts(ps) == Text(ps[0]) + [] == Text(ps[0]);
    assert Meanings(ps) == Meaning(ps[0]) + [] == Meaning(ps[0]);
  }

  // ---- what the serializer writes ----

  /** One-letter escapes where there are some, lower-case hexadecimal for the other control characters, everything
      else as it is. */
  function Written(c: byte): (p: Piece)
    requires c != 0
    ensures Allowed(p)
  {
    if c == 34 || c == 47 || c == 92 then Short(c)
    else if c == 8 then Short(98)
    else if c == 9 then Short(116)
    else if c == 10 then Short(110)
    else if c == 12 then Short(102)
    else if c == 13 then Short(114)
    else if c < 32 then Code(c, [false, false, false, false])
    else Plain(c)
  }

  function AllWritten(s: seq<byte>): (ps: seq<Piece>)
    requires 0 !in s
    ensures |ps| == |s| && AllAllowed(ps)
  {
    seq(|s|, i requires 0 <= i < |s| => Written(s[i]))
  }

  /** The serializer spells every string so. */
  lemma {:induction false} EscapedIsWritten(s: seq<byte>)
    requires 0 !in s
    ensures EscapeAll(s) == Texts(AllWritten(s))
  {
    if s != [] {
      EscapedIsWritten(s[1..]);
      assert AllWritten(s)[1..] == AllWritten(s[1..]);
      OneIsWritten(s[0]);
    }
  }

  lemma OneIsWritten(c: byte)
    requires c != 0
    ensures Escape(c) == Text(Written(c))
  {
    if c < 32 {
      assert c / 0x10 % 16 == c / 16 && c / 0x100 % 16 == 0 && c / 0x1000 % 16 == 0;
    }
  }
}
