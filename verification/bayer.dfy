/** convert_bayer_to_rgb: demosaicing through two 32-bit shift buffers, against mirrored neighbours. */
module Bayer {
  import opened Bytes
  import opened Words

  datatype Rgb = Rgb(r: byte, g: byte, b: byte)

  // ---- the specification: one pixel from its neighbours ----

  function Average(a: byte, b: byte): byte { (a as int + b as int) / 2 }

  /** The column (or line) left of i, and the one right of it, mirrored at the borders. */
  function Before(i: nat): nat { if i == 0 then 1 else i - 1 }
  function After(i: nat, n: nat): nat { if 0 < i == n - 1 then i - 1 else i + 1 }

  /** The four configurations, from the values left, here and right and the vertical averages
      left, here and right. */
  function Configured(yOdd: bool, xOdd: bool, l: byte, c: byte, r: byte, vl: byte, vc: byte, vr: byte): Rgb
  {
    var hSum := Average(l, r);
    if !yOdd && !xOdd then Rgb(hSum, c, vc)
    else if !yOdd then Rgb(c, Average(hSum, vc), Average(vl, vr))
    else if !xOdd then Rgb(Average(vl, vr), Average(hSum, vc), c)
    else Rgb(vc, c, hSum)
  }

  /** Three lines of the raw image: the current one, and its upper and lower neighbours. */
  datatype Lines = Lines(above: seq<byte>, here: seq<byte>, below: seq<byte>)
  {
    predicate Wide(w: nat) { w >= 2 && |above| == |here| == |below| == w }

    function Vertical(x: nat): byte
      requires x < |above| && x < |below|
    {
      Average(above[x], below[x])
    }

    function Pixel(w: nat, yOdd: bool, x: nat): Rgb
      requires Wide(w) && x < w
    {
      var l, r := Before(x), After(x, w);
      Configured(yOdd, x % 2 == 1, here[l], here[x], here[r], Vertical(l), Vertical(x), Vertical(r))
    }

    /** The bytes of the first x pixels. */
    function Row(w: nat, yOdd: bool, x: nat): (s: seq<byte>)
      requires Wide(w) && x <= w
      ensures |s| == 3 * x
    {
      if x == 0 then [] else Row(w, yOdd, x - 1) + ToBytes(Pixel(w, yOdd, x - 1))
    }
  }

  function ToBytes(p: Rgb): (s: seq<byte>)
    ensures |s| == 3
  {
    [p.r, p.g, p.b]
  }

  // ---- the shift buffers ----

  const TWO24: int := 0x100_0000

  /** The three low bytes of a buffer; what has been shifted out above them does not matter. */
  predicate Holds(v: nat, previous: byte, current: byte, next: byte)
  {
    v < TWO32 && v % TWO24 == previous * 65536 + current as int * 256 + next as int
  }

  function Byte0(v: nat): byte { v % 256 }
  function Byte1(v: nat): byte { v / 256 % 256 }
  function Byte2(v: nat): byte { v / 65536 % 256 }

  lemma HeldBytes(v: nat, previous: byte, current: byte, next: byte)
    requires Holds(v, previous, current, next)
    ensures Byte2(v) == previous && Byte1(v) == current && Byte0(v) == next
  {
    var k := v / TWO24;
    assert v == k * TWO24 + previous * 65536 + current as int * 256 + next as int;
    assert v / 256 == k * 65536 + previous * 256 + current as int;
    assert v / 65536 == k * 256 + previous;
  }

  /** Putting a byte into the free place. */
  lemma PutNext(v: nat, previous: byte, current: byte, next: byte)
    requires Holds(v, previous, current, 0)
    ensures Holds(v + next, previous, current, next)
  {
    var k := v / TWO24;
    assert v == k * TWO24 + previous * 65536 + current as int * 256;
    assert v + next == k * TWO24 + (previous * 65536 + current as int * 256 + next as int);
  }

  lemma ShiftLeft(v: nat, previous: byte, current: byte, next: byte)
    requires Holds(v, previous, current, next)
    ensures Holds(v * 256 % TWO32, current, next, 0)
  {
    var k := v / TWO24;
    var low := previous * 65536 + current as int * 256 + next as int;
    assert v == k * TWO24 + low;
    assert v * 256 == k * TWO32 + low * 256;
    assert low * 256 == previous * TWO24 + (current * 65536 + next as int * 256);
    assert v * 256 % TWO32 == low * 256;
  }

  /** The output bytes of a configuration, computed from the buffers as the loop body does. */
  function FromBuffers(yOdd: bool, xOdd: bool, hVals: nat, vSums: nat): Rgb
  {
    var hSum: byte := (Byte2(hVals) as int + Byte0(hVals) as int) / 2;
    if !yOdd && !xOdd then Rgb(hSum, Byte1(hVals), Byte1(vSums))
    else if !yOdd then Rgb(Byte1(hVals), (hSum as int + Byte1(vSums) as int) / 2,
                           (Byte2(vSums) as int + Byte0(vSums) as int) / 2)
    else if !xOdd then Rgb((Byte2(vSums) as int + Byte0(vSums) as int) / 2, (hSum as int + Byte1(vSums) as int) / 2,
                           Byte1(hVals))
    else Rgb(Byte1(vSums), Byte1(hVals), hSum)
  }

  /** The right column: the buffers' free places take their left neighbours, and sums of equal
      values are not computed. */
  function FromBuffersLast(yOdd: bool, xOdd: bool, hVals: nat, vSums: nat): Rgb
  {
    var hSum := Byte0(hVals);
    if !yOdd && !xOdd then Rgb(hSum, Byte1(hVals), Byte1(vSums))
    else if !yOdd then Rgb(Byte1(hVals), (hSum as int + Byte1(vSums) as int) / 2, Byte0(vSums))
    else if !xOdd then Rgb(Byte0(vSums), (hSum as int + Byte1(vSums) as int) / 2, Byte1(hVals))
    else Rgb(Byte1(vSums), Byte1(hVals), hSum)
  }

  /** The buffers in front of pixel x: its left neighbour and itself, horizontally and vertically. */
  predicate InFront(t: Lines, w: nat, x: nat, hVals: nat, vSums: nat)
    requires t.Wide(w) && x < w
  {
    Holds(hVals, t.here[Before(x)], t.here[x], 0) && Holds(vSums, t.Vertical(Before(x)), t.Vertical(x), 0)
  }

  /** The buffers once the next values are in. */
  lemma Filled(t: Lines, w: nat, x: nat, hVals: nat, vSums: nat)
    requires t.Wide(w) && x + 1 < w && InFront(t, w, x, hVals, vSums)
    ensures Holds(hVals + t.here[x + 1], t.here[Before(x)], t.here[x], t.here[x + 1])
    ensures Holds(vSums + t.Vertical(x + 1), t.Vertical(Before(x)), t.Vertical(x), t.Vertical(x + 1))
  {
    PutNext(hVals, t.here[Before(x)], t.here[x], t.here[x + 1]);
    PutNext(vSums, t.Vertical(Before(x)), t.Vertical(x), t.Vertical(x + 1));
  }

  lemma InnerPixel(t: Lines, w: nat, yOdd: bool, x: nat, hVals: nat, vSums: nat)
    requires t.Wide(w) && x + 1 < w && InFront(t, w, x, hVals, vSums)
    ensures FromBuffers(yOdd, x % 2 == 1, hVals + t.here[x + 1], vSums + t.Vertical(x + 1)) == t.Pixel(w, yOdd, x)
  {
    Filled(t, w, x, hVals, vSums);
    HeldBytes(hVals + t.here[x + 1], t.here[Before(x)], t.here[x], t.here[x + 1]);
    HeldBytes(vSums + t.Vertical(x + 1), t.Vertical(Before(x)), t.Vertical(x), t.Vertical(x + 1));
  }

  lemma NextInFront(t: Lines, w: nat, x: nat, hVals: nat, vSums: nat)
    requires t.Wide(w) && x + 1 < w && InFront(t, w, x, hVals, vSums)
    ensures InFront(t, w, x + 1, (hVals + t.here[x + 1]) * 256 % TWO32, (vSums + t.Vertical(x + 1)) * 256 % TWO32)
  {
    Filled(t, w, x, hVals, vSums);
    ShiftLeft(hVals + t.here[x + 1], t.here[Before(x)], t.here[x], t.here[x + 1]);
    ShiftLeft(vSums + t.Vertical(x + 1), t.Vertical(Before(x)), t.Vertical(x), t.Vertical(x + 1));
  }

  lemma LastPixel(t: Lines, w: nat, yOdd: bool, hVals: nat, vSums: nat)
    requires t.Wide(w) && InFront(t, w, w - 1, hVals, vSums)
    ensures FromBuffersLast(yOdd, (w - 1) % 2 == 1, hVals + Byte2(hVals), vSums + Byte2(vSums)) ==
      t.Pixel(w, yOdd, w - 1)
  {
    var x, l := w - 1, w - 2;
    HeldBytes(hVals, t.here[l], t.here[x], 0);
    HeldBytes(vSums, t.Vertical(l), t.Vertical(x), 0);
    PutNext(hVals, t.here[l], t.here[x], t.here[l]);
    PutNext(vSums, t.Vertical(l), t.Vertical(x), t.Vertical(l));
    HeldBytes(hVals + t.here[l], t.here[l], t.here[x], t.here[l]);
    HeldBytes(vSums + t.Vertical(l), t.Vertical(l), t.Vertical(x), t.Vertical(l));
  }

  /** The masked shifts that fill the buffers at the left border, from the values of the first two columns. */
  function FirstValues(c0: byte, c1: byte): nat { c0 as int * 256 + c1 as int * 65536 }

  function FirstSums(a0: byte, b0: byte, a1: byte, b1: byte): nat
  {
    (a0 as int + b0 as int) * 128 / 256 % 256 * 256 + (a1 as int + b1 as int) * 32768 / 65536 % 256 * 65536
  }

  lemma HalfShifted(s: nat)
    requires s < 512
    ensures s * 128 / 256 % 256 == s / 2 && s * 32768 / 65536 % 256 == s / 2
  {
  }

  lemma TwoHeld(previous: byte, current: byte)
    ensures Holds(current as int * 256 + previous as int * 65536, previous, current, 0)
  {
  }

  lemma FirstBuffers(t: Lines, w: nat)
    requires t.Wide(w)
    ensures InFront(t, w, 0, FirstValues(t.here[0], t.here[1]),
                    FirstSums(t.above[0], t.below[0], t.above[1], t.below[1]))
  {
    HalfShifted(t.above[0] as int + t.below[0] as int);
    HalfShifted(t.above[1] as int + t.below[1] as int);
    TwoHeld(t.here[1], t.here[0]);
    TwoHeld(t.Vertical(1), t.Vertical(0));
    hide Holds;
  }

  // ---- the whole image, as a sequence of lines ----

  predicate Picture(lines: seq<seq<byte>>, w: nat)
  {
    w >= 2 && |lines| >= 3 && forall y :: 0 <= y < |lines| ==> |lines[y]| == w
  }

  /** Line y with its neighbours, mirrored at the top and the bottom. */
  function LinesAt(lines: seq<seq<byte>>, w: nat, y: nat): (t: Lines)
    requires Picture(lines, w) && y < |lines|
    ensures t.Wide(w)
  {
    Lines(lines[Before(y)], lines[y], lines[After(y, |lines|)])
  }

  /** The pixel rows above y. */
  function Image(lines: seq<seq<byte>>, w: nat, y: nat): seq<byte>
    requires Picture(lines, w) && y <= |lines|
  {
    if y == 0 then [] else Image(lines, w, y - 1) + LinesAt(lines, w, y - 1).Row(w, (y - 1) % 2 == 1, w)
  }

  /** The lines of a raw buffer. */
  function Line(raw: seq<byte>, w: nat, y: nat): (s: seq<byte>)
    requires y * w + w <= |raw|
    ensures |s| == w
  {
    raw[y * w..y * w + w]
  }

  lemma LineFits(w: nat, h: nat, y: nat)
    requires y < h
    ensures y * w + w <= w * h
  {
    assert (y + 1) * w <= h * w;
  }

  function LinesOf(raw: seq<byte>, w: nat, h: nat): (lines: seq<seq<byte>>)
    requires w >= 2 && h >= 3 && |raw| == w * h
    ensures |lines| == h && Picture(lines, w)
  {
    seq(h, y requires 0 <= y < h => LineFits(w, h, y); Line(raw, w, y))
  }

  /** Three bytes at the destination pointer. */
  method WritePixel(dst: array<byte>, d: nat, p: Rgb)
    requires d + 3 <= dst.Length
    modifies dst
    ensures dst[..d + 3] == old(dst[..d]) + ToBytes(p)
  {
    dst[d], dst[d + 1], dst[d + 2] := p.r, p.g, p.b;
  }

  ghost predicate At(raw: seq<byte>, w: nat, t: Lines, cur: nat, prev: nat, next: nat)
  {
    t.Wide(w) && cur + w <= |raw| && prev + w <= |raw| && next + w <= |raw|
    && t == Lines(raw[prev..prev + w], raw[cur..cur + w], raw[next..next + w])
  }

  /** The left column, mirrored. */
  method LoadBuffers(raw: seq<byte>, w: nat, cur: nat, prev: nat, next: nat, ghost t: Lines)
    returns (hVals: nat, vSums: nat)
    requires At(raw, w, t, cur, prev, next)
    ensures InFront(t, w, 0, hVals, vSums)
  {
    hide InFront, FirstValues, FirstSums;
    FirstBuffers(t, w);
    hVals := FirstValues(raw[cur], raw[cur + 1]);
    vSums := FirstSums(raw[prev], raw[next], raw[prev + 1], raw[next + 1]);
  }

  /** One turn of the loop over the columns. */
  method ConvertPixel(raw: seq<byte>, dst: array<byte>, d: nat, w: nat, yOdd: bool, x: nat,
                      cur: nat, prev: nat, next: nat,
                      hVals0: nat, vSums0: nat, ghost t: Lines) returns (hVals: nat, vSums: nat)
    requires x + 1 < w && d + 3 <= dst.Length && At(raw, w, t, cur, prev, next) && InFront(t, w, x, hVals0, vSums0)
    modifies dst
    ensures InFront(t, w, x + 1, hVals, vSums)
    ensures dst[..d + 3] == old(dst[..d]) + ToBytes(t.Pixel(w, yOdd, x))
  {
    hide FromBuffers, InFront, Lines.Pixel, ToBytes;
    InnerPixel(t, w, yOdd, x, hVals0, vSums0);
    NextInFront(t, w, x, hVals0, vSums0);
    hVals := hVals0 + raw[cur + x + 1];
    vSums := vSums0 + (raw[prev + x + 1] as int + raw[next + x + 1] as int) / 2;
    WritePixel(dst, d, FromBuffers(yOdd, x % 2 == 1, hVals, vSums));
    hVals, vSums := hVals * 256 % TWO32, vSums * 256 % TWO32;
  }

  /** The right column, mirrored. */
  method ConvertLast(dst: array<byte>, d: nat, w: nat, yOdd: bool, hVals: nat, vSums: nat, ghost t: Lines)
    requires t.Wide(w) && d + 3 <= dst.Length && InFront(t, w, w - 1, hVals, vSums)
    modifies dst
    ensures dst[..d + 3] == old(dst[..d]) + ToBytes(t.Pixel(w, yOdd, w - 1))
  {
    LastPixel(t, w, yOdd, hVals, vSums);
    WritePixel(dst, d, FromBuffersLast(yOdd, (w - 1) % 2 == 1, hVals + Byte2(hVals), vSums + Byte2(vSums)));
  }

  /** In front of d stand what was there before and the first x pixels of a line. */
  ghost predicate Converted(dst: array<byte>, d: nat, before: seq<byte>, t: Lines, w: nat, yOdd: bool, x: nat)
    reads dst
  {
    t.Wide(w) && x <= w && d <= dst.Length && dst[..d] == before + t.Row(w, yOdd, x)
  }

  /** Between two columns: the output so far, and the buffers. */
  ghost predicate Between(dst: array<byte>, d: nat, before: seq<byte>, t: Lines, w: nat, yOdd: bool, x: nat,
                          hVals: nat, vSums: nat)
    reads dst
  {
    Converted(dst, d, before, t, w, yOdd, x) && x < w && InFront(t, w, x, hVals, vSums)
  }

  lemma InBetween(dst: array<byte>, d: nat, before: seq<byte>, t: Lines, w: nat, yOdd: bool, hVals: nat, vSums: nat)
    requires Converted(dst, d, before, t, w, yOdd, 0) && w >= 2 && InFront(t, w, 0, hVals, vSums)
    ensures Between(dst, d, before, t, w, yOdd, 0, hVals, vSums)
  {
  }

  lemma RowGrows(before: seq<byte>, t: Lines, w: nat, yOdd: bool, x: nat)
    requires t.Wide(w) && x < w
    ensures before + t.Row(w, yOdd, x) + ToBytes(t.Pixel(w, yOdd, x)) == before + t.Row(w, yOdd, x + 1)
  {
  }

  /** One turn of the loop over the lines. The pointers are at the starts of the current line and its
      neighbours. */
  method ConvertLine(raw: seq<byte>, dst: array<byte>, d0: nat, w: nat, yOdd: bool, cur: nat, prev: nat, next: nat,
                     ghost t: Lines)
    requires d0 + 3 * w <= dst.Length && At(raw, w, t, cur, prev, next)
    modifies dst
    ensures dst[..d0 + 3 * w] == old(dst[..d0]) + t.Row(w, yOdd, w)
  {
    assert t.Wide(w);
    ghost var before := dst[..d0];
    assert Converted(dst, d0, before, t, w, yOdd, 0);
    hide Converted, InFront, At, Lines.Row;
    var hVals, vSums, d := ConvertColumns(raw, dst, d0, w, yOdd, cur, prev, next, t, before);
    ConvertRight(dst, d, w, yOdd, hVals, vSums, t, before);
    AllConverted(dst, d0 + 3 * w, before, t, w, yOdd);
  }

  lemma AllConverted(dst: array<byte>, d: nat, before: seq<byte>, t: Lines, w: nat, yOdd: bool)
    requires Converted(dst, d, before, t, w, yOdd, w)
    ensures d <= dst.Length && dst[..d] == before + t.Row(w, yOdd, w)
  {
  }

  method ConvertRight(dst: array<byte>, d: nat, w: nat, yOdd: bool, hVals: nat, vSums: nat, ghost t: Lines,
                      ghost before: seq<byte>)
    requires w >= 2 && d + 3 <= dst.Length && Between(dst, d, before, t, w, yOdd, w - 1, hVals, vSums)
    modifies dst
    ensures Converted(dst, d + 3, before, t, w, yOdd, w)
  {
    hide Lines.Row, InFront, Lines.Pixel, ToBytes;
    RowGrows(before, t, w, yOdd, w - 1);
    ConvertLast(dst, d, w, yOdd, hVals, vSums, t);
  }

  method ConvertColumn(raw: seq<byte>, dst: array<byte>, d: nat, w: nat, yOdd: bool, x: nat,
                       cur: nat, prev: nat, next: nat,
                       hVals0: nat, vSums0: nat, ghost t: Lines, ghost before: seq<byte>)
    returns (hVals: nat, vSums: nat)
    requires x + 1 < w && d + 3 <= dst.Length && At(raw, w, t, cur, prev, next)
    requires Between(dst, d, before, t, w, yOdd, x, hVals0, vSums0)
    modifies dst
    ensures Between(dst, d + 3, before, t, w, yOdd, x + 1, hVals, vSums)
  {
    assert t.Wide(w);
    hide Lines.Row, Lines.Pixel, ToBytes, InFront, At;
    RowGrows(before, t, w, yOdd, x);
    hVals, vSums := ConvertPixel(raw, dst, d, w, yOdd, x, cur, prev, next, hVals0, vSums0, t);
  }

  /** The loop over the columns. */
  method ConvertColumns(raw: seq<byte>, dst: array<byte>, d0: nat, w: nat, yOdd: bool, cur: nat, prev: nat, next: nat,
                        ghost t: Lines, ghost before: seq<byte>) returns (hVals: nat, vSums: nat, d: nat)
    requires w >= 2 && d0 + 3 * w <= dst.Length && At(raw, w, t, cur, prev, next)
    requires Converted(dst, d0, before, t, w, yOdd, 0)
    modifies dst
    ensures Between(dst, d, before, t, w, yOdd, w - 1, hVals, vSums) && d == d0 + 3 * w - 3
  {
    hide Between, Converted, At;
    hVals, vSums := LoadBuffers(raw, w, cur, prev, next, t);
    d := d0;
    InBetween(dst, d, before, t, w, yOdd, hVals, vSums);
    var x: nat := 0;
    while x < w - 1
      invariant x <= w - 1 && d == d0 + 3 * x && Between(dst, d, before, t, w, yOdd, x, hVals, vSums)
    {
      hVals, vSums := ConvertColumn(raw, dst, d, w, yOdd, x, cur, prev, next, hVals, vSums, t, before);
      x, d := x + 1, d + 3;
    }
  }

  /** The line pointers: at the borders both neighbours are the one inside. */
  method Neighbours(w: nat, h: nat, y: nat, cur: nat, prev0: nat, next0: nat) returns (prev: nat, next: nat)
    requires h >= 3 && y < h && cur == y * w
    requires (y < h - 1 ==> next0 == cur + w) && (y >= 2 ==> prev0 == cur - w)
    ensures prev == Before(y) * w && next == After(y, h) * w
  {
    prev, next := prev0, next0;
    Steps(w, y);
    if y > 0 && y < h - 1 {
      prev := cur - w;
    } else if y == 0 {
      prev := next;
    } else {
      next := prev;
    }
  }

  lemma Steps(w: nat, y: nat)
    ensures (y + 1) * w == y * w + w && (y >= 1 ==> (y - 1) * w == y * w - w && 0 <= y * w - w)
    ensures 0 * w == 0 && 1 * w == w
  {
    if y >= 1 { assert (y - 1) * w + w == y * w; }
  }

  /** The y-th line, appended to those above it. */
  method ConvertNext(raw: seq<byte>, dst: array<byte>, w: nat, y: nat, cur: nat, prev: nat, next: nat,
                     ghost lines: seq<seq<byte>>)
    requires Picture(lines, w) && y < |lines| && 3 * cur + 3 * w <= dst.Length
    requires At(raw, w, LinesAt(lines, w, y), cur, prev, next) && dst[..3 * cur] == Image(lines, w, y)
    modifies dst
    ensures dst[..3 * (cur + w)] == Image(lines, w, y + 1)
  {
    ConvertLine(raw, dst, 3 * cur, w, y % 2 == 1, cur, prev, next, LinesAt(lines, w, y));
  }

  /** Where the pointers stand in front of line y: `prev` counts from the second line on, `next` not
      in front of the last. */
  ghost predicate Pointing(w: nat, h: nat, y: nat, cur: nat, prev: nat, next: nat)
  {
    cur == y * w && (y < h - 1 ==> next == cur + w) && (y >= 2 ==> prev == cur - w)
  }

  lemma PointingNext(w: nat, h: nat, y: nat, cur: nat)
    requires h >= 3 && y < h && cur == y * w
    ensures Pointing(w, h, y + 1, cur + w, Before(y) * w + w, After(y, h) * w + w)
  {
    Steps(w, y);
  }

  method ConvertTurn(raw: seq<byte>, dst: array<byte>, w: nat, h: nat, y: nat, cur: nat, prev0: nat, next0: nat,
                     ghost lines: seq<seq<byte>>) returns (prev: nat, next: nat)
    requires w >= 2 && h >= 3 && |raw| == w * h && y < h && dst.Length == 3 * |raw|
    requires Pointing(w, h, y, cur, prev0, next0) && cur <= |raw|
    requires lines == LinesOf(raw, w, h) && dst[..3 * cur] == Image(lines, w, y)
    modifies dst
    ensures cur + w <= |raw| && Pointing(w, h, y + 1, cur + w, prev, next)
    ensures dst[..3 * (cur + w)] == Image(lines, w, y + 1)
  {
    LineFits(w, h, y);
    prev, next := Neighbours(w, h, y, cur, prev0, next0);
    LinesAreAt(raw, w, h, y);
    ConvertNext(raw, dst, w, y, cur, prev, next, LinesOf(raw, w, h));
    PointingNext(w, h, y, cur);
    prev, next := prev + w, next + w;
  }

  /** convert_bayer_to_rgb */
  method ConvertBayerToRgb(raw: seq<byte>, dst: array<byte>, w: nat, h: nat)
    requires w >= 2 && h >= 3 && |raw| == w * h && dst.Length == 3 * |raw|
    modifies dst
    ensures dst[..] == Image(LinesOf(raw, w, h), w, h)
  {
    ghost var lines := LinesOf(raw, w, h);
    var cur: nat, next: nat, prev: nat := 0, w, 0;
    var y := 0;
    PointingAtStart(w, h);
    while y < h
      invariant 0 <= y <= h && cur <= |raw| && Pointing(w, h, y, cur, prev, next)
      invariant dst[..3 * cur] == Image(lines, w, y)
    {
      prev, next := ConvertTurn(raw, dst, w, h, y, cur, prev, next, lines);
      cur, y := cur + w, y + 1;
    }
    PointingAtEnd(w, h, cur, prev, next);
    assert dst[..3 * cur] == dst[..];
  }

  lemma PointingAtStart(w: nat, h: nat)
    ensures Pointing(w, h, 0, 0, 0, w)
  {
  }

  lemma PointingAtEnd(w: nat, h: nat, cur: nat, prev: nat, next: nat)
    requires Pointing(w, h, h, cur, prev, next)
    ensures cur == w * h
  {
  }

  lemma LinesAreAt(raw: seq<byte>, w: nat, h: nat, y: nat)
    requires w >= 2 && h >= 3 && |raw| == w * h && y < h
    ensures At(raw, w, LinesAt(LinesOf(raw, w, h), w, y), y * w, Before(y) * w, After(y, h) * w)
  {
    LineFits(w, h, y);
    LineFits(w, h, Before(y));
    LineFits(w, h, After(y, h));
  }

  // ---- pixel by pixel ----

  lemma {:induction false} RowAt(t: Lines, w: nat, yOdd: bool, n: nat, x: nat)
    requires t.Wide(w) && x < n <= w
    ensures t.Row(w, yOdd, n)[3 * x..3 * x + 3] == ToBytes(t.Pixel(w, yOdd, x))
  {
    if x < n - 1 {
      RowAt(t, w, yOdd, n - 1, x);
    }
  }

  lemma {:induction false} ImageSize(lines: seq<seq<byte>>, w: nat, y: nat)
    requires Picture(lines, w) && y <= |lines|
    ensures |Image(lines, w, y)| == 3 * (y * w)
  {
    if y > 0 {
      ImageSize(lines, w, y - 1);
      Steps(w, y);
    }
  }

  /** Row y begins behind the rows above it. */
  lemma {:induction false} ImageRow(lines: seq<seq<byte>>, w: nat, n: nat, y: nat)
    requires Picture(lines, w) && y < n <= |lines|
    ensures Image(lines, w, y) + LinesAt(lines, w, y).Row(w, y % 2 == 1, w) <= Image(lines, w, n)
  {
    hide Image, LinesAt, Lines.Row;
    ImageGrows(lines, w, n - 1);
    if y < n - 1 {
      ImageRow(lines, w, n - 1, y);
    }
  }

  lemma ImageGrows(lines: seq<seq<byte>>, w: nat, y: nat)
    requires Picture(lines, w) && y < |lines|
    ensures Image(lines, w, y + 1) == Image(lines, w, y) + LinesAt(lines, w, y).Row(w, y % 2 == 1, w)
  {
  }

  /** The bytes of pixel (x, y) of the converted image. */
  lemma ImageAt(lines: seq<seq<byte>>, w: nat, x: nat, y: nat)
    requires Picture(lines, w) && x < w && y < |lines|
    ensures var i, s := 3 * (y * w) + 3 * x, Image(lines, w, |lines|);
      i + 3 <= |s| && s[i..i + 3] == ToBytes(LinesAt(lines, w, y).Pixel(w, y % 2 == 1, x))
  {
    hide Image, Lines.Row, Lines.Pixel, ToBytes, LinesAt;
    var row := LinesAt(lines, w, y).Row(w, y % 2 == 1, w);
    ImageRow(lines, w, |lines|, y);
    ImageSize(lines, w, y);
    RowAt(LinesAt(lines, w, y), w, y % 2 == 1, w, x);
    SliceInPrefix(Image(lines, w, y), row, Image(lines, w, |lines|), 3 * x);
  }

  lemma SliceInPrefix(a: seq<byte>, b: seq<byte>, s: seq<byte>, i: nat)
    requires a + b <= s && i + 3 <= |b|
    ensures s[|a| + i..|a| + i + 3] == b[i..i + 3]
  {
    assert forall k :: 0 <= k < |b| ==> s[|a| + k] == (a + b)[|a| + k] == b[k];
  }

  // ---- the formulas of the comment ----

  /** The averages of two and of four neighbours, taken at once. */
  function Of2(a: byte, b: byte): int { (a as int + b as int) / 2 }
  function Of4(a: byte, b: byte, c: byte, d: byte): int { (a as int + b as int + c as int + d as int) / 4 }

  /** An average of averages is the average of four, or one less: less exactly when both sums are odd
      and together a multiple of four. */
  lemma AverageOfAverages(a: byte, b: byte, c: byte, d: byte)
    ensures var exact, got := Of4(a, b, c, d), Average(Average(a, b), Average(c, d)) as int;
      var p, q := a as int + b as int, c as int + d as int;
      got == if p % 2 == 1 && q % 2 == 1 && (p + q) % 4 == 0 then exact - 1 else exact
  {
    var p, q := a as int + b as int, c as int + d as int;
    assert p == 2 * (p / 2) + p % 2 && q == 2 * (q / 2) + q % 2;
  }

  predicate OneLower(got: int, exact: int) { got == exact || got == exact - 1 }

  /** Every value against the one that the comment of convert_bayer_to_rgb gives, from the nine pixels around. */
  lemma AgainstTheComment(t: Lines, w: nat, yOdd: bool, x: nat)
    requires t.Wide(w) && x < w
    ensures var l, r, p := Before(x), After(x, w), t.Pixel(w, yOdd, x);
      var cross := Of4(t.here[l], t.here[r], t.above[x], t.below[x]);
      var corners := Of4(t.above[l], t.below[l], t.above[r], t.below[r]);
      var sides, ends := Of2(t.here[l], t.here[r]), Of2(t.above[x], t.below[x]);
      if !yOdd && x % 2 == 0 then p.r == sides && p.g == t.here[x] && p.b == ends
      else if !yOdd then p.r == t.here[x] && OneLower(p.g, cross) && OneLower(p.b, corners)
      else if x % 2 == 0 then OneLower(p.r, corners) && OneLower(p.g, cross) && p.b == t.here[x]
      else p.r == ends && p.g == t.here[x] && p.b == sides
  {
    var l, r := Before(x), After(x, w);
    AverageOfAverages(t.here[l], t.here[r], t.above[x], t.below[x]);
    AverageOfAverages(t.above[l], t.below[l], t.above[r], t.below[r]);
  }

  // ---- every byte of the picture, out of the raw buffer ----

  lemma InBuffer(w: nat, h: nat, a: nat, b: nat)
    requires a < w && b < h
    ensures b * w + a < w * h && b * w + w <= w * h
  {
    assert (b + 1) * w <= h * w;
    assert (b + 1) * w == b * w + w;
  }

  /** The raw value in column a of line b. */
  function Sample(raw: seq<byte>, w: nat, h: nat, a: nat, b: nat): byte
    requires |raw| == w * h && a < w && b < h
  {
    InBuffer(w, h, a, b);
    raw[b * w + a]
  }

  lemma SampleIs(raw: seq<byte>, w: nat, h: nat, a: nat, b: nat)
    requires w >= 2 && h >= 3 && |raw| == w * h && a < w && b < h
    ensures LinesOf(raw, w, h)[b][a] == Sample(raw, w, h, a, b)
  {
    InBuffer(w, h, a, b);
  }

  /** The neighbour of i below n in front of it, or behind it, mirrored at the border. */
  function Left(i: nat, n: nat): (l: nat)
    requires i < n && n >= 2
    ensures l < n
  {
    if i == 0 then 1 else i - 1
  }

  function Right(i: nat, n: nat): (r: nat)
    requires i < n && n >= 2
    ensures r < n
  {
    if i == n - 1 then n - 2 else i + 1
  }

  /** Half of a sum of two bytes, dropping the half. */
  function Half(a: byte, b: byte): byte { (a as int + b as int) / 2 }

  /** The three bytes of a pixel out of the raw values around it: even lines begin with green and red, odd ones with
      blue and green, and what is not there is averaged, two at a time. */
  function Demosaiced(raw: seq<byte>, w: nat, h: nat, x: nat, y: nat): seq<byte>
    requires w >= 2 && h >= 3 && |raw| == w * h && x < w && y < h
  {
    var l, r, u, d := Left(x, w), Right(x, w), Left(y, h), Right(y, h);
    var here := Sample(raw, w, h, x, y);
    var sides := Half(Sample(raw, w, h, l, y), Sample(raw, w, h, r, y));
    var ends := Half(Sample(raw, w, h, x, u), Sample(raw, w, h, x, d));
    var corners := Half(Half(Sample(raw, w, h, l, u), Sample(raw, w, h, l, d)),
                        Half(Sample(raw, w, h, r, u), Sample(raw, w, h, r, d)));
    if y % 2 == 0 && x % 2 == 0 then [sides, here, ends]
    else if y % 2 == 0 then [here, Half(sides, ends), corners]
    else if x % 2 == 0 then [corners, Half(sides, ends), here]
    else [ends, here, sides]
  }

  lemma DemosaicedAt(raw: seq<byte>, w: nat, h: nat, x: nat, y: nat)
    requires w >= 2 && h >= 3 && |raw| == w * h && x < w && y < h
    ensures var s, i := Image(LinesOf(raw, w, h), w, h), 3 * (y * w) + 3 * x;
      i + 3 <= |s| && s[i..i + 3] == Demosaiced(raw, w, h, x, y)
  {
    hide Image, Sample;
    var l, r, u, d := Left(x, w), Right(x, w), Left(y, h), Right(y, h);
    SampleIs(raw, w, h, x, y);
    SampleIs(raw, w, h, l, y);
    SampleIs(raw, w, h, r, y);
    SampleIs(raw, w, h, x, u);
    SampleIs(raw, w, h, x, d);
    SampleIs(raw, w, h, l, u);
    SampleIs(raw, w, h, l, d);
    SampleIs(raw, w, h, r, u);
    SampleIs(raw, w, h, r, d);
    hide LinesOf;
    ImageAt(LinesOf(raw, w, h), w, x, y);
  }
}
