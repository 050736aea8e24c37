/** The packed-pixel converters of cameras.c and registration.c, against bit fields of the packed stream. */
module Unpack {
  import opened Bytes
  import opened Bits
  import opened Words

  // ---- the 32-bit window ----

  lemma TwoTo32()
    ensures Pow2(32) == TWO32
  {
    Powers();
    Pow2Sum(8, 8);
    Pow2Sum(16, 16);
  }

  lemma Products(hi: int, k: int, t: int, p: int, f: int, c: int)
    ensures (hi * p + f) * 256 - k * (t * (p * 256)) + c == (hi - k * t) * (p * 256) + (f * 256 + c)
  {
  }

  lemma Nonnegative(h: int, d: int, f: int)
    requires 0 <= h * d + f && 0 <= f < d
    ensures h >= 0
  {
    assert h * d + d == (h + 1) * d;
    assert h <= -1 ==> (h + 1) * d <= 0;
  }

  lemma ShiftedFits(buffer: nat, c: byte)
    ensures buffer * 256 % TWO32 + c < TWO32
  {
    var k := buffer * 256 / TWO32;
    assert buffer * 256 % TWO32 == 256 * (buffer - k * 0x100_0000);
  }

  /** Shifting a byte into the window cuts off high bits only. */
  lemma ShiftIn(buffer: nat, c: byte, hi: nat, p: nat, f: nat, t: nat) returns (hi': nat)
    requires buffer == hi * p + f && f < p && TWO32 == t * (p * 256)
    ensures buffer * 256 % TWO32 + c == hi' * (p * 256) + (f * 256 + c)
  {
    var k := buffer * 256 / TWO32;
    Products(hi, k, t, p, f, 0);
    Products(hi, k, t, p, f, c);
    Nonnegative(hi - k * t, p * 256, f * 256);
    hi' := hi - k * t;
  }

  lemma Regroup(q: int, v: int, b: int, h: int, l: int)
    ensures q * (v * b) + (h * b + l) == (q * v + h) * b + l
  {
  }

  lemma ShiftOut(x: nat, q: nat, h: nat, l: nat, v: nat, b: nat)
    requires x == (q * v + h) * b + l && h < v && l < b
    ensures x / b % v == h
  {
    QuotientIs(x, q * v + h, l, b);
    ModPart(q, h, v);
  }

  /** The low `bits` bits of the window are the unread end of the bytes taken so far. */
  ghost predicate Window(src: seq<byte>, buffer: nat, bits: nat, m: nat, a: nat, hi: nat)
  {
    m <= |src| && a + bits == 8 * m && buffer < TWO32 && buffer == hi * Pow2(bits) + Field(src, a, bits)
  }

  lemma FieldGrows(src: seq<byte>, a: nat, bits: nat, m: nat)
    requires m < |src| && a + bits == 8 * m
    ensures Field(src, a, bits + 8) == Field(src, a, bits) * 256 + src[m]
  {
    FieldSplit(src, a, bits, 8);
    ByteField(src, m);
    Powers();
  }

  lemma PowerGrows(bits: nat)
    ensures Pow2(bits + 8) == Pow2(bits) * 256
  {
    Pow2Sum(bits, 8);
    Powers();
  }

  lemma PowerTo32(bits: nat, k: nat)
    requires bits + 8 + k == 32
    ensures TWO32 == Pow2(k) * (Pow2(bits) * 256)
  {
    PowerGrows(bits);
    Pow2Sum(k, bits + 8);
    TwoTo32();
  }

  lemma WindowGrows(src: seq<byte>, buffer: nat, bits: nat, m: nat, a: nat, hi: nat) returns (hi': nat)
    requires Window(src, buffer, bits, m, a, hi) && bits <= 24 && m < |src|
    ensures Window(src, buffer * 256 % TWO32 + src[m], bits + 8, m + 1, a, hi')
  {
    FieldBound(src, a, bits);
    PowerTo32(bits, 24 - bits);
    hi' := ShiftIn(buffer, src[m], hi, Pow2(bits), Field(src, a, bits), Pow2(24 - bits));
    ShiftedFits(buffer, src[m]);
    FieldGrows(src, a, bits, m);
    PowerGrows(bits);
  }

  /** The inner loop of the converters: bytes are taken until vw bits are there. */
  method TakeBytes(src: seq<byte>, vw: nat, buffer0: nat, bits0: nat, m0: nat, ghost a: nat, ghost hi0: nat)
    returns (buffer: nat, bits: nat, m: nat, ghost hi: nat)
    requires 1 <= vw <= 16 && bits0 < 8 && Window(src, buffer0, bits0, m0, a, hi0) && a + vw <= 8 * |src|
    ensures vw <= bits < vw + 8 && Window(src, buffer, bits, m, a, hi)
  {
    buffer, bits, m, hi := buffer0, bits0, m0, hi0;
    while bits < vw
      invariant bits < vw + 8 && Window(src, buffer, bits, m, a, hi)
    {
      hi := WindowGrows(src, buffer, bits, m, a, hi);
      buffer := buffer * 256 % TWO32 + src[m];
      bits, m := bits + 8, m + 1;
    }
  }

  /** The next element of vw bits, as the shift and the mask produce it. */
  lemma NextElement(src: seq<byte>, buffer: nat, vw: nat, b: nat, m: nat, a: nat, hi: nat)
    requires Window(src, buffer, vw + b, m, a, hi)
    ensures buffer / Pow2(b) % Pow2(vw) == Field(src, a, vw)
    ensures Window(src, buffer, b, m, a + vw, hi * Pow2(vw) + Field(src, a, vw))
  {
    hide Field, Pow2;
    var h, l, v, w := Field(src, a, vw), Field(src, a + vw, b), Pow2(vw), Pow2(b);
    FieldSplit(src, a, vw, b);
    Pow2Sum(vw, b);
    Regroup(hi, v, w, h, l);
    assert buffer == (hi * v + h) * w + l;
    FieldBound(src, a, vw);
    FieldBound(src, a + vw, b);
    ShiftOut(buffer, hi, h, l, v, w);
  }

  /** The k-th element of vw bits of a packed array. */
  function Element(src: seq<byte>, k: nat, vw: nat): nat
  {
    if k * vw + vw <= 8 * |src| then Field(src, k * vw, vw) else 0
  }

  /** One turn of the outer loop: the next element of the window. */
  method TakeElement(src: seq<byte>, vw: nat, buffer0: nat, bits0: nat, m0: nat, ghost a: nat, ghost hi0: nat)
    returns (v: uint16, top: byte, buffer: nat, bits: nat, m: nat, ghost hi: nat)
    requires 1 <= vw <= 16 && bits0 < 8 && Window(src, buffer0, bits0, m0, a, hi0) && a + vw <= 8 * |src|
    ensures v == Field(src, a, vw) && bits < 8 && Window(src, buffer, bits, m, a + vw, hi)
    ensures vw >= 8 ==> top == v / Pow2(vw - 8)
  {
    hide Field, Pow2;
    buffer, bits, m, hi := TakeBytes(src, vw, buffer0, bits0, m0, a, hi0);
    bits := bits - vw;
    NextElement(src, buffer, vw, bits, m, a, hi);
    ElementFits(src, a, vw);
    v := buffer / Pow2(bits) % Pow2(vw);
    top := 0;
    if vw >= 8 {
      HighByte(src, buffer, vw, bits, m, a, hi);
      top := buffer / Pow2(bits + vw - 8) % 256;
    }
    hi := hi * Pow2(vw) + Field(src, a, vw);
  }

  lemma ReadSoFar(m: nat, bits: nat, a: nat)
    requires a + bits == 8 * m && bits < 8
    ensures m == (a + 7) / 8
  {
  }

  /** convert_packed_to_16bit: `read` is how far the source pointer has moved. */
  method ConvertPackedTo16(src: seq<byte>, dest: array<uint16>, vw: nat, n: nat) returns (read: nat)
    requires 1 <= vw <= 16 && n * vw <= 8 * |src| && n <= dest.Length
    modifies dest
    ensures read == (n * vw + 7) / 8
    ensures forall k :: 0 <= k < n ==> dest[k] == Element(src, k, vw)
    ensures forall k :: n <= k < dest.Length ==> dest[k] == old(dest[k])
  {
    var buffer: nat, bitsIn: nat, m: nat, i: nat := 0, 0, 0, 0;
    ghost var hi: nat, a: nat := 0, 0;
    while i < n
      invariant i <= n && a == i * vw && bitsIn < 8 && Window(src, buffer, bitsIn, m, a, hi)
      invariant forall k :: 0 <= k < i ==> dest[k] == Element(src, k, vw)
      invariant forall k :: n <= k < dest.Length ==> dest[k] == old(dest[k])
    {
      Room(i, n, vw);
      var v, top;
      v, top, buffer, bitsIn, m, hi := TakeElement(src, vw, buffer, bitsIn, m, a, hi);
      dest[i] := v;
      i, a := i + 1, a + vw;
    }
    ReadSoFar(m, bitsIn, a);
    read := m;
  }

  lemma Room(i: nat, n: nat, vw: nat)
    requires i < n
    ensures i * vw + vw <= n * vw && (i + 1) * vw == i * vw + vw
  {
    assert (i + 1) * vw <= n * vw;
  }

  lemma {:induction false} PowerGrowing(a: nat, b: nat)
    requires a <= b
    ensures Pow2(a) <= Pow2(b)
  {
    if a < b { PowerGrowing(a, b - 1); }
  }

  lemma ElementFits(src: seq<byte>, a: nat, vw: nat)
    requires a + vw <= 8 * |src| && vw <= 16
    ensures Field(src, a, vw) < 0x1_0000
  {
    FieldBound(src, a, vw);
    PowerGrowing(vw, 16);
    Powers();
    Pow2Sum(8, 8);
  }

  /** convert_packed_to_8bit, for elements of at least 8 bits: their high 8 bits. */
  method ConvertPackedTo8(src: seq<byte>, dest: array<byte>, vw: nat, n: nat) returns (read: nat)
    requires 8 <= vw <= 16 && n * vw <= 8 * |src| && n <= dest.Length
    modifies dest
    ensures read == (n * vw + 7) / 8
    ensures forall k :: 0 <= k < n ==> dest[k] == Element(src, k, vw) / Pow2(vw - 8)
    ensures forall k :: n <= k < dest.Length ==> dest[k] == old(dest[k])
  {
    var buffer: nat, bitsIn: nat, m: nat, i: nat := 0, 0, 0, 0;
    ghost var hi: nat, a: nat := 0, 0;
    while i < n
      invariant i <= n && a == i * vw && bitsIn < 8 && Window(src, buffer, bitsIn, m, a, hi)
      invariant forall k :: 0 <= k < i ==> dest[k] == Element(src, k, vw) / Pow2(vw - 8)
      invariant forall k :: n <= k < dest.Length ==> dest[k] == old(dest[k])
    {
      Room(i, n, vw);
      var v, top;
      v, top, buffer, bitsIn, m, hi := TakeElement(src, vw, buffer, bitsIn, m, a, hi);
      dest[i] := top;
      i, a := i + 1, a + vw;
    }
    ReadSoFar(m, bitsIn, a);
    read := m;
  }

  /** The 8-bit form takes the window's element of 8 bits at the same place. */
  lemma HighByte(src: seq<byte>, buffer: nat, vw: nat, b: nat, m: nat, a: nat, hi: nat)
    requires Window(src, buffer, vw + b, m, a, hi) && vw >= 8
    ensures buffer / Pow2(b + vw - 8) % 256 == Field(src, a, vw) / Pow2(vw - 8)
  {
    Powers();
    assert Window(src, buffer, 8 + (b + vw - 8), m, a, hi);
    NextElement(src, buffer, 8, b + vw - 8, m, a, hi);
    FieldSplit(src, a, 8, vw - 8);
    FieldBound(src, a + 8, vw - 8);
    QuotientIs(Field(src, a, vw), Field(src, a, 8), Field(src, a + 8, vw - 8), Pow2(vw - 8));
  }

  // ---- the unrolled 11-bit unpackers ----

  /** The eight formulas over eleven bytes. The parts joined by `|` are disjoint, `& 2047` is a modulus. */
  function Pixel11(r: seq<byte>, j: nat): (v: uint16)
    requires |r| == 11 && j < 8
  {
    if j == 0 then r[0] as int * 8 + r[1] as int / 32
    else if j == 1 then (r[1] as int * 64 + r[2] as int / 4) % 2048
    else if j == 2 then (r[2] as int * 512 + r[3] as int * 2 + r[4] as int / 128) % 2048
    else if j == 3 then (r[4] as int * 16 + r[5] as int / 16) % 2048
    else if j == 4 then (r[5] as int * 128 + r[6] as int / 2) % 2048
    else if j == 5 then (r[6] as int * 1024 + r[7] as int * 4 + r[8] as int / 64) % 2048
    else if j == 6 then (r[8] as int * 32 + r[9] as int / 8) % 2048
    else (r[9] as int * 256 + r[10] as int) % 2048
  }

  /** A field over the end of byte i (k bits, from its bit o) and the front of byte i + 1 (l bits). */
  lemma TwoBytes(s: seq<byte>, i: nat, o: nat, k: nat, l: nat, r: nat, p: nat, q: nat, d: nat)
    requires i + 1 < |s| && o + k == 8 && l + r == 8 && p == Pow2(k) && q == Pow2(l) && d == Pow2(r) && d * q == 256
    ensures Field(s, 8 * i + o, k + l) == s[i] % p * q + s[i + 1] / d
  {
    FieldSplit(s, 8 * i + o, k, l);
    assert Field(s, 8 * i + o, k) == s[i] % p by {
      PartOfByte(s, i, o, k, 0);
      Powers();
    }
    FrontOfByte(s, i + 1, l, r);
    assert 8 * i + o + k == 8 * (i + 1);
  }

  lemma Masked(x: nat, y: nat, p: nat, q: nat)
    requires p * q == 2048 && y < q && p > 0
    ensures (x * q + y) % 2048 == x % p * q + y
  {
    var d, m := x / p, x % p;
    Spread(x, d, m, p, q);
    assert m * q + q <= p * q by { Below(m, p, q); }
    ModPart(d, m * q + y, 2048);
  }

  lemma Spread(x: int, d: int, m: int, p: int, q: int)
    requires x == d * p + m
    ensures x * q == d * (p * q) + m * q
  {
  }

  lemma Below(m: nat, p: nat, q: nat)
    requires m < p
    ensures m * q + q <= p * q
  {
    assert (m + 1) * q <= p * q;
  }

  // The formulas one by one.

  lemma Pixel0(s: seq<byte>)
    requires |s| == 11
    ensures Pixel11(s, 0) == Field(s, 0, 11)
  {
    Powers();
    TwoBytes(s, 0, 0, 8, 3, 5, 256, 8, 32);
  }

  lemma Pixel1(s: seq<byte>)
    requires |s| == 11
    ensures Pixel11(s, 1) == Field(s, 11, 11)
  {
    Powers();
    TwoBytes(s, 1, 3, 5, 6, 2, 32, 64, 4);
    Masked(s[1], s[2] / 4, 32, 64);
  }

  lemma Pixel2(s: seq<byte>)
    requires |s| == 11
    ensures Pixel11(s, 2) == Field(s, 22, 11)
  {
    Powers();
    TwoBytes(s, 2, 6, 2, 8, 0, 4, 256, 1);
    FieldSplit(s, 22, 10, 1);
    FrontOfByte(s, 4, 1, 7);
    Masked(s[2], s[3] as int * 2 + s[4] as int / 128, 4, 512);
  }

  lemma Pixel3(s: seq<byte>)
    requires |s| == 11
    ensures Pixel11(s, 3) == Field(s, 33, 11)
  {
    Powers();
    TwoBytes(s, 4, 1, 7, 4, 4, 128, 16, 16);
    Masked(s[4], s[5] / 16, 128, 16);
  }

  lemma Pixel4(s: seq<byte>)
    requires |s| == 11
    ensures Pixel11(s, 4) == Field(s, 44, 11)
  {
    Powers();
    TwoBytes(s, 5, 4, 4, 7, 1, 16, 128, 2);
    Masked(s[5], s[6] / 2, 16, 128);
  }

  lemma Pixel5(s: seq<byte>)
    requires |s| == 11
    ensures Pixel11(s, 5) == Field(s, 55, 11)
  {
    Powers();
    TwoBytes(s, 6, 7, 1, 8, 0, 2, 256, 1);
    FieldSplit(s, 55, 9, 2);
    FrontOfByte(s, 8, 2, 6);
    Masked(s[6], s[7] as int * 4 + s[8] as int / 64, 2, 1024);
  }

  lemma Pixel6(s: seq<byte>)
    requires |s| == 11
    ensures Pixel11(s, 6) == Field(s, 66, 11)
  {
    Powers();
    TwoBytes(s, 8, 2, 6, 5, 3, 64, 32, 8);
    Masked(s[8], s[9] / 8, 64, 32);
  }

  lemma Pixel7(s: seq<byte>)
    requires |s| == 11
    ensures Pixel11(s, 7) == Field(s, 77, 11)
  {
    Powers();
    TwoBytes(s, 9, 5, 3, 8, 0, 8, 256, 1);
    Masked(s[9], s[10], 8, 256);
  }

  /** The eight pixels are the eight 11-bit fields of the eleven bytes. */
  lemma PixelIsField(s: seq<byte>, j: nat)
    requires |s| == 11 && j < 8
    ensures Pixel11(s, j) == Field(s, 11 * j, 11)
  {
    if j == 0 { Pixel0(s); }
    else if j == 1 { Pixel1(s); }
    else if j == 2 { Pixel2(s); }
    else if j == 3 { Pixel3(s); }
    else if j == 4 { Pixel4(s); }
    else if j == 5 { Pixel5(s); }
    else if j == 6 { Pixel6(s); }
    else { Pixel7(s); }
  }

  lemma {:induction false} FieldOfSlice(s: seq<byte>, p: nat, len: nat, a: nat, w: nat)
    requires p + len <= |s| && a + w <= 8 * len
    ensures Field(s[p..p + len], a, w) == Field(s, 8 * p + a, w)
  {
    if w > 0 {
      FieldOfSlice(s, p, len, a, w - 1);
      var i := a + w - 1;
      assert (8 * p + i) / 8 == p + i / 8 && (8 * p + i) % 8 == i % 8;
    }
  }

  /** Pixel j of the block of eleven bytes at p. */
  lemma BlockPixel(s: seq<byte>, b: nat, j: nat)
    requires 11 * b + 11 <= |s| && j < 8
    ensures Pixel11(s[11 * b..11 * b + 11], j) == Element(s, 8 * b + j, 11)
  {
    PixelIsField(s[11 * b..11 * b + 11], j);
    FieldOfSlice(s, 11 * b, 11, 11 * j, 11);
    assert (8 * b + j) * 11 == 8 * (11 * b) + 11 * j;
  }

  /** convert_packed11_to_16bit: whole blocks of eight, against the general converter at 11 bits. */
  method ConvertPacked11(raw: seq<byte>, frame: array<uint16>, n: nat)
    requires 11 * n <= 8 * |raw| && n <= frame.Length
    modifies frame
    ensures forall k :: 0 <= k < n - n % 8 ==> frame[k] == Element(raw, k, 11)
    ensures forall k :: n - n % 8 <= k < frame.Length ==> frame[k] == old(frame[k])
  {
    hide Element, Pixel11;
    var left := n;
    var b := 0;
    while left >= 8
      invariant left >= 0 && left + 8 * b == n
      invariant forall k :: 0 <= k < 8 * b ==> frame[k] == Element(raw, k, 11)
      invariant forall k :: 8 * b <= k < frame.Length ==> frame[k] == old(frame[k])
    {
      var r := raw[11 * b..11 * b + 11];
      forall j | 0 <= j < 8 {
        frame[8 * b + j] := Pixel11(r, j);
      }
      forall k | 8 * b <= k < 8 * b + 8 ensures frame[k] == Element(raw, k, 11) {
        BlockPixel(raw, b, k - 8 * b);
        assert frame[8 * b + (k - 8 * b)] == Pixel11(r, k - 8 * b);
      }
      left := left - 8;
      b := b + 1;
    }
  }

  /** unpack_8_pixels */
  function Unpack8(r: seq<byte>): (u: seq<uint16>)
    requires |r| == 11
    ensures |u| == 8
  {
    seq(8, j requires 0 <= j < 8 => Pixel11(r, j))
  }
}
