/** Bytes and C strings. A C string is the sequence of its bytes without the
    terminating NUL; `At` is the byte a C pointer reads, NUL at the end. */
module Bytes {
  type byte = x: int | 0 <= x < 256

  function At(s: seq<byte>, i: nat): (b: byte)
  {
    if i < |s| then s[i] else 0
  }

  /** What a C reader sees of a buffer: the bytes in front of the first NUL. */
  function CString(s: seq<byte>): (r: seq<byte>)
    ensures |r| <= |s|
  {
    if s == [] || s[0] == 0 then [] else [s[0]] + CString(s[1..])
  }

  lemma {:induction false} CStringIsPrefix(s: seq<byte>)
    ensures 0 !in CString(s) && CString(s) <= s
  {
    if s != [] && s[0] != 0 {
      CStringIsPrefix(s[1..]);
    }
  }

  lemma {:induction false} CStringNoNul(s: seq<byte>)
    requires 0 !in s
    ensures CString(s) == s
  {
    if s != [] {
      assert s[0] in s;
      assert forall b :: b in s[1..] ==> b in s;
      CStringNoNul(s[1..]);
    }
  }

  datatype Option<+T> = None | Some(value: T)
}
