/** Bit fields of a big-endian byte stream: bit 0 is the highest bit of byte 0. */
module Bits {
  import opened Bytes
  import opened Words

  function Pow2(n: nat): (p: nat)
    ensures p > 0
  {
    if n == 0 then 1 else 2 * Pow2(n - 1)
  }

  /** The highest k bits of a byte. */
  function High(b: byte, k: nat): (h: nat)
    requires k <= 8
    decreases 8 - k
  {
    if k == 8 then b else High(b, k + 1) / 2
  }

  function Bit(s: seq<byte>, i: nat): (b: nat)
    requires i / 8 < |s|
    ensures b < 2
  {
    High(s[i / 8], i % 8 + 1) % 2
  }

  /** The bits [a, a + w) of the stream, as a number. */
  function Field(s: seq<byte>, a: nat, w: nat): nat
    requires a + w <= 8 * |s|
  {
    if w == 0 then 0 else 2 * Field(s, a, w - 1) + Bit(s, a + w - 1)
  }

  lemma {:induction false} Pow2Sum(a: nat, b: nat)
    ensures Pow2(a + b) == Pow2(a) * Pow2(b)
  {
    if a > 0 {
      Pow2Sum(a - 1, b);
    }
  }

  lemma {:induction false} FieldBound(s: seq<byte>, a: nat, w: nat)
    requires a + w <= 8 * |s|
    ensures Field(s, a, w) < Pow2(w)
  {
    if w > 0 { FieldBound(s, a, w - 1); }
  }

  lemma FieldStep(s: seq<byte>, a: nat, w: nat)
    requires a + w + 1 <= 8 * |s|
    ensures Field(s, a, w + 1) == 2 * Field(s, a, w) + Bit(s, a + w)
  {
  }

  lemma Double(f: nat, h: nat, p: nat, l: nat, b: nat)
    requires f == h * p + l
    ensures 2 * f + b == h * (2 * p) + (2 * l + b)
  {
  }

  /** A field is its high part shifted, plus its low part. */
  lemma {:induction false} FieldSplit(s: seq<byte>, a: nat, x: nat, y: nat)
    requires a + x + y <= 8 * |s|
    ensures Field(s, a, x + y) == Field(s, a, x) * Pow2(y) + Field(s, a + x, y)
  {
    hide Bit;
    if y > 0 {
      FieldSplit(s, a, x, y - 1);
      FieldStep(s, a, x + y - 1);
      FieldStep(s, a + x, y - 1);
      Double(Field(s, a, x + y - 1), Field(s, a, x), Pow2(y - 1), Field(s, a + x, y - 1), Bit(s, a + x + y - 1));
    }
  }

  lemma Powers()
    ensures Pow2(0) == 1 && Pow2(1) == 2 && Pow2(2) == 4 && Pow2(3) == 8 && Pow2(4) == 16
    ensures Pow2(5) == 32 && Pow2(6) == 64 && Pow2(7) == 128 && Pow2(8) == 256
  {
    assert Pow2(0) == 1;
    assert Pow2(1) == 2 * Pow2(0);
    assert Pow2(2) == 2 * Pow2(1);
    assert Pow2(3) == 2 * Pow2(2);
    assert Pow2(4) == 2 * Pow2(3);
    assert Pow2(5) == 2 * Pow2(4);
    assert Pow2(6) == 2 * Pow2(5);
    assert Pow2(7) == 2 * Pow2(6);
    assert Pow2(8) == 2 * Pow2(7);
  }

  lemma {:induction false} HighBound(b: byte, k: nat)
    requires k <= 8
    ensures High(b, k) < Pow2(k)
    decreases 8 - k
  {
    if k == 8 {
      Powers();
    } else {
      HighBound(b, k + 1);
      assert Pow2(k + 1) == 2 * Pow2(k);
    }
  }

  lemma BitOfByte(s: seq<byte>, i: nat, k: nat)
    requires i < |s| && k < 8
    ensures Bit(s, 8 * i + k) == High(s[i], k + 1) % 2
  {
    assert (8 * i + k) / 8 == i && (8 * i + k) % 8 == k;
  }

  lemma {:induction false} HighField(s: seq<byte>, i: nat, k: nat)
    requires i < |s| && k <= 8
    ensures Field(s, 8 * i, k) == High(s[i], k)
  {
    if k == 0 {
      HighBound(s[i], 0);
    } else {
      HighField(s, i, k - 1);
      BitOfByte(s, i, k - 1);
    }
  }

  /** A whole byte of the stream. */
  lemma ByteField(s: seq<byte>, i: nat)
    requires i < |s|
    ensures Field(s, 8 * i, 8) == s[i]
  {
    HighField(s, i, 8);
  }

  lemma FrontOfByte(s: seq<byte>, i: nat, n: nat, r: nat)
    requires i < |s| && n + r == 8
    ensures s[i] / Pow2(r) == Field(s, 8 * i, n)
  {
    hide Field;
    var t, l, p := Field(s, 8 * i, n), Field(s, 8 * i + n, r), Pow2(r);
    assert s[i] == t * p + l by {
      ByteField(s, i);
      FieldSplit(s, 8 * i, n, r);
    }
    FieldBound(s, 8 * i + n, r);
    QuotientIs(s[i], t, l, p);
  }

  lemma EndOfField(s: seq<byte>, a: nat, o: nat, k: nat)
    requires a + o + k <= 8 * |s|
    ensures Field(s, a, o + k) % Pow2(k) == Field(s, a + o, k)
  {
    FieldSplit(s, a, o, k);
    FieldBound(s, a + o, k);
    ModPart(Field(s, a, o), Field(s, a + o, k), Pow2(k));
  }

  /** The k bits of a byte behind its first o, with r bits left. */
  lemma PartOfByte(s: seq<byte>, i: nat, o: nat, k: nat, r: nat)
    requires i < |s| && o + k + r == 8
    ensures Field(s, 8 * i + o, k) == s[i] / Pow2(r) % Pow2(k)
  {
    FrontOfByte(s, i, o + k, r);
    EndOfField(s, 8 * i, o, k);
  }
}
