/** UTF-8 validation (parson.c) against the encoding of RFC 3629. */
module Utf8 {
  import opened Bytes

  predicate IsCont(b: byte) { 0x80 <= b < 0xC0 }

  /** num_bytes_in_utf8_sequence */
  function SequenceLength(c: byte): (n: nat)
  {
    if c == 0xC0 || c == 0xC1 || c > 0xF4 || IsCont(c) then 0
    else if c < 0x80 then 1
    else if c < 0xE0 then 2
    else if c < 0xF0 then 3
    else 4
  }

  /** The code point assembled by verify_utf8_sequence from n bytes. */
  function CodePoint(s: seq<byte>, n: nat): int
  {
    if n == 1 then At(s, 0)
    else if n == 2 then At(s, 0) % 32 * 64 + At(s, 1) % 64
    else if n == 3 then (At(s, 0) % 16 * 64 + At(s, 1) % 64) * 64 + At(s, 2) % 64
    else ((At(s, 0) % 8 * 64 + At(s, 1) % 64) * 64 + At(s, 2) % 64) * 64 + At(s, 3) % 64
  }

  /** verify_utf8_sequence: the length of the sequence at the front of s, 0 when it is invalid. */
  function Verify(s: seq<byte>): nat
  {
    var n := SequenceLength(At(s, 0));
    var cp := CodePoint(s, n);
    if n == 0 || (n > 1 && !IsCont(At(s, 1))) || (n > 2 && !IsCont(At(s, 2))) || (n > 3 && !IsCont(At(s, 3))) then 0
    else if (cp < 0x80 && n > 1) || (cp < 0x800 && n > 2) || (cp < 0x10000 && n > 3) then 0
    else if cp > 0x10FFFF then 0
    else if 0xD800 <= cp <= 0xDFFF then 0
    else n
  }

  lemma VerifyInBounds(s: seq<byte>)
    requires s != []
    ensures Verify(s) <= |s|
  {
  }

  /** is_valid_utf8 */
  predicate IsValid(s: seq<byte>)
  {
    s == [] || (VerifyInBounds(s); Verify(s) > 0 && IsValid(s[Verify(s)..]))
  }

  /** The loop of is_valid_utf8. */
  method IsValidUtf8(s: seq<byte>) returns (ok: bool)
    ensures ok == IsValid(s)
  {
    var rest := s;
    while rest != []
      invariant IsValid(rest) == IsValid(s)
      decreases |rest|
    {
      VerifyInBounds(rest);
      var len := Verify(rest);
      if len == 0 {
        return false;
      }
      rest := rest[len..];
    }
    return true;
  }

  // ---- RFC 3629 ----

  predicate IsScalar(cp: int) { 0 <= cp <= 0x10FFFF && !(0xD800 <= cp <= 0xDFFF) }

  type scalar = cp: int | 0 <= cp <= 0x10FFFF && !(0xD800 <= cp <= 0xDFFF)

  /** Section 3 of RFC 3629; the bit fields are disjoint, so `|` is `+`. */
  function Encode(cp: scalar): (r: seq<byte>)
  {
    if cp < 0x80 then [cp]
    else if cp < 0x800 then [0xC0 + cp / 64, 0x80 + cp % 64]
    else if cp < 0x10000 then [0xE0 + cp / 4096, 0x80 + cp / 64 % 64, 0x80 + cp % 64]
    else [0xF0 + cp / 262144, 0x80 + cp / 4096 % 64, 0x80 + cp / 64 % 64, 0x80 + cp % 64]
  }

  /** The examples of section 7 of RFC 3629. */
  lemma EncodeExamples()
    ensures Encode(0x41) == [0x41] && Encode(0x2262) == [0xE2, 0x89, 0xA2] && Encode(0x0391) == [0xCE, 0x91]
    ensures Encode(0xD55C) == [0xED, 0x95, 0x9C] && Encode(0x65E5) == [0xE6, 0x97, 0xA5]
    ensures Encode(0x233B4) == [0xF0, 0xA3, 0x8E, 0xB4]
  {
  }

  function EncodeAll(cps: seq<scalar>): seq<byte>
  {
    if cps == [] then [] else Encode(cps[0]) + EncodeAll(cps[1..])
  }

  // Splitting a code point into its 6-bit digits and putting it together again.

  lemma Cont(b: byte)
    requires IsCont(b)
    ensures b == 0x80 + b % 64
  {
  }

  lemma Digits2(a: int, b: int)
    requires 0 <= b < 64
    ensures (a * 64 + b) / 64 == a && (a * 64 + b) % 64 == b
  {
  }

  lemma Digits3(a: int, b: int, c: int)
    requires 0 <= b < 64 && 0 <= c < 64
    ensures var cp := (a * 64 + b) * 64 + c; cp / 4096 == a && cp / 64 % 64 == b && cp % 64 == c
  {
    Digits2(a * 64 + b, c);
    Digits2(a, b);
  }

  lemma Digits4(a: int, b: int, c: int, d: int)
    requires 0 <= b < 64 && 0 <= c < 64 && 0 <= d < 64
    ensures var cp := ((a * 64 + b) * 64 + c) * 64 + d;
      cp / 262144 == a && cp / 4096 % 64 == b && cp / 64 % 64 == c && cp % 64 == d
  {
    Digits2((a * 64 + b) * 64 + c, d);
    Digits3(a, b, c);
  }

  lemma Lead(b: byte)
    ensures SequenceLength(b) == 2 ==> b == 0xC0 + b % 32
    ensures SequenceLength(b) == 3 ==> b == 0xE0 + b % 16
    ensures SequenceLength(b) == 4 ==> b == 0xF0 + b % 8
  {
  }

  lemma Sound2(s: seq<byte>)
    requires s != [] && Verify(s) == 2
    ensures 2 <= |s| && s[..2] == Encode(CodePoint(s, 2))
  {
    Lead(s[0]);
    Cont(s[1]);
    Digits2(s[0] % 32, s[1] % 64);
  }

  lemma Sound3(s: seq<byte>)
    requires s != [] && Verify(s) == 3
    ensures 3 <= |s| && s[..3] == Encode(CodePoint(s, 3))
  {
    Lead(s[0]);
    Cont(s[1]);
    Cont(s[2]);
    Digits3(s[0] % 16, s[1] % 64, s[2] % 64);
  }

  lemma Sound4(s: seq<byte>)
    requires s != [] && Verify(s) == 4
    ensures 4 <= |s| && s[..4] == Encode(CodePoint(s, 4))
  {
    Lead(s[0]);
    Cont(s[1]);
    Cont(s[2]);
    Cont(s[3]);
    Digits4(s[0] % 8, s[1] % 64, s[2] % 64, s[3] % 64);
  }

  /** A sequence accepted by the validator is the encoding of its code point, which is no surrogate. */
  lemma VerifySound(s: seq<byte>)
    requires s != [] && Verify(s) > 0
    ensures var n := Verify(s); n <= |s| && IsScalar(CodePoint(s, n)) && s[..n] == Encode(CodePoint(s, n))
  {
    var n := Verify(s);
    if n == 2 {
      Sound2(s);
    } else if n == 3 {
      Sound3(s);
    } else if n == 4 {
      Sound4(s);
    } else {
      assert n == 1;
    }
  }

  lemma Regroup(cp: nat)
    requires cp <= 0x10FFFF
    ensures cp == cp / 64 * 64 + cp % 64
    ensures cp / 64 == cp / 4096 * 64 + cp / 64 % 64
    ensures cp / 4096 == cp / 262144 * 64 + cp / 4096 % 64
    ensures cp / 262144 <= 4
  {
  }

  lemma Assemble2(s: seq<byte>, a: nat, b: nat)
    requires a < 32 && b < 64 && [0xC0 + a, 0x80 + b] <= s
    ensures CodePoint(s, 2) == a * 64 + b
  {
    assert s[0] == 0xC0 + a && s[1] == 0x80 + b;
  }

  lemma Assemble3(s: seq<byte>, a: nat, b: nat, c: nat)
    requires a < 16 && b < 64 && c < 64 && [0xE0 + a, 0x80 + b, 0x80 + c] <= s
    ensures CodePoint(s, 3) == (a * 64 + b) * 64 + c
  {
    assert s[0] == 0xE0 + a && s[1] == 0x80 + b && s[2] == 0x80 + c;
  }

  lemma Assemble4(s: seq<byte>, a: nat, b: nat, c: nat, d: nat)
    requires a < 8 && b < 64 && c < 64 && d < 64 && [0xF0 + a, 0x80 + b, 0x80 + c, 0x80 + d] <= s
    ensures CodePoint(s, 4) == ((a * 64 + b) * 64 + c) * 64 + d
  {
    assert s[0] == 0xF0 + a && s[1] == 0x80 + b && s[2] == 0x80 + c && s[3] == 0x80 + d;
  }

  lemma CodePointEncoded(s: seq<byte>, cp: scalar)
    requires Encode(cp) <= s
    ensures SequenceLength(At(s, 0)) == |Encode(cp)|
    ensures CodePoint(s, |Encode(cp)|) == cp
  {
    assert s[0] == Encode(cp)[0];
    Regroup(cp);
    if cp < 0x80 {
    } else if cp < 0x800 {
      Assemble2(s, cp / 64, cp % 64);
    } else if cp < 0x10000 {
      Assemble3(s, cp / 4096, cp / 64 % 64, cp % 64);
    } else {
      Assemble4(s, cp / 262144, cp / 4096 % 64, cp / 64 % 64, cp % 64);
    }
  }

  lemma VerifyEncoded(s: seq<byte>, cp: scalar)
    requires Encode(cp) <= s
    ensures Verify(s) == |Encode(cp)|
  {
    var e := Encode(cp);
    CodePointEncoded(s, cp);
    assert |e| > 1 ==> s[1] == e[1];
    assert |e| > 2 ==> s[2] == e[2];
    assert |e| > 3 ==> s[3] == e[3];
  }

  lemma VerifyComplete(cp: scalar, rest: seq<byte>)
    ensures Verify(Encode(cp) + rest) == |Encode(cp)|
  {
    VerifyEncoded(Encode(cp) + rest, cp);
  }

  lemma ValidPrepend(cp: scalar, rest: seq<byte>)
    ensures IsValid(Encode(cp) + rest) == IsValid(rest)
  {
    VerifyComplete(cp, rest);
    assert (Encode(cp) + rest)[|Encode(cp)|..] == rest;
  }

  /** Every concatenation of encoded scalar values is accepted. */
  lemma {:induction false} EncodedIsValid(cps: seq<scalar>)
    ensures IsValid(EncodeAll(cps))
  {
    if cps != [] {
      EncodedIsValid(cps[1..]);
      ValidPrepend(cps[0], EncodeAll(cps[1..]));
    }
  }

  /** And nothing else is: an accepted string is the encoding of some sequence of scalar values. */
  lemma {:induction false} ValidIsEncoded(s: seq<byte>) returns (cps: seq<scalar>)
    requires IsValid(s)
    ensures EncodeAll(cps) == s
    decreases |s|
  {
    if s == [] {
      cps := [];
    } else {
      VerifySound(s);
      var n := Verify(s);
      var tail := ValidIsEncoded(s[n..]);
      cps := [CodePoint(s, n)] + tail;
      assert cps[1..] == tail && s == s[..n] + s[n..];
    }
  }

  /** is_valid_utf8 accepts exactly the strings RFC 3629 defines. */
  lemma ValidIffEncoded(s: seq<byte>)
    ensures IsValid(s) <==> exists cps: seq<scalar> :: EncodeAll(cps) == s
  {
    if IsValid(s) {
      var cps := ValidIsEncoded(s);
    }
    forall cps: seq<scalar> | EncodeAll(cps) == s
      ensures IsValid(s)
    {
      EncodedIsValid(cps);
    }
  }

  lemma AsciiHead(s: seq<byte>)
    requires s != [] && s[0] < 0x80
    ensures IsValid(s) == IsValid(s[1..])
  {
  }

  /** A string cut off in front of a NUL byte stays valid. */
  lemma {:induction false} ValidPrefix(s: seq<byte>)
    requires IsValid(s)
    ensures IsValid(CString(s))
    decreases |s|
  {
    if s != [] && s[0] != 0 {
      VerifySound(s);
      var n := Verify(s);
      ValidPrefix(s[n..]);
      CStringSkip(s, n);
      VerifySound(s);
      ValidPrepend(CodePoint(s, n), CString(s[n..]));
    }
  }

  lemma {:induction false} CStringSkip(s: seq<byte>, n: nat)
    requires n <= |s| && forall i :: 0 <= i < n ==> s[i] != 0
    ensures CString(s) == s[..n] + CString(s[n..])
  {
    if n == 0 {
      assert s[0..] == s;
    } else {
      CStringSkip(s[1..], n - 1);
      assert s[1..][n-1..] == s[n..];
      assert s[..n] == [s[0]] + s[1..][..n-1];
    }
  }
}
