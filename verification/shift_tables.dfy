/** freenect_create_dxdy_tables: a cubic in row and column by two-dimensional forward differencing,
    with a floor at every step, against the exact cubic. Accumulators count 2^-17 pixels. */
module ShiftTables {

  // ---- the fields of the registration info ----

  /** Coefficients of one axis, as 64-bit accumulators start out: x is the value, xx, yx its first
      differences along the row and between rows, and so on; a, b, c, d the constant third differences. */
  datatype Start = Start(a: int, b: int, c: int, d: int, x: int, xx: int, yx: int, xxx: int, yxx: int, yyx: int)

  /** The 32-bit fields of one axis. */
  datatype Info = Info(a: int, b: int, c: int, d: int, x: int, xx: int, yx: int, xxx: int, yxx: int, yyx: int)
  {
    predicate Valid()
    {
      Is32(a) && Is32(b) && Is32(c) && Is32(d) && Is32(x) && Is32(xx) && Is32(yx) && Is32(xxx) && Is32(yxx) && Is32(yyx)
    }
  }

  predicate Is32(v: int) { -0x8000_0000 <= v < 0x8000_0000 }

  /** A 32-bit result keeps its low 32 bits. */
  function Wrap32(v: int): (w: int)
    ensures Is32(w)
  {
    (v + 0x8000_0000) % 0x1_0000_0000 - 0x8000_0000
  }

  /** The shifts that extract the starting values, done in 32 bits; `>>` is a floor. */
  function Extracted(i: Info): (s: Start)
    requires i.Valid()
  {
    Start(i.a, i.b, i.c, i.d, Wrap32(i.x * 8192) / 16, Wrap32(i.xx * 2048) / 8, Wrap32(i.yx * 2048) / 8,
      Wrap32(Wrap32(i.xxx * 32) * 8), Wrap32(Wrap32(i.yxx * 32) * 8), Wrap32(Wrap32(i.yyx * 32) * 8))
  }

  // ---- the differencing ----

  datatype RowState = RowState(x: int, xx: int, yx: int, xxx: int, yxx: int, yyx: int)
  datatype ColState = ColState(x: int, xx: int, xxx: int)

  /** What the head of the row loop does. */
  function NextRow(s: Start, r: RowState): RowState
  {
    RowState(r.x + r.yx / 64, r.xx + r.yxx / 256, r.yx + r.yyx / 256, r.xxx + s.c, r.yxx + s.d, r.yyx + s.b)
  }

  function NextCol(s: Start, k: ColState): ColState
  {
    ColState(k.x + k.xx / 64, k.xx + k.xxx / 256, k.xxx + s.a)
  }

  function Row(s: Start, n: nat): RowState
  {
    if n == 0 then RowState(s.x, s.xx, s.yx, s.xxx, s.yxx, s.yyx) else NextRow(s, Row(s, n - 1))
  }

  function Col(s: Start, n: nat, c: nat): ColState
  {
    if c == 0 then ColState(Row(s, n).x, Row(s, n).xx, Row(s, n).xxx) else NextCol(s, Col(s, n, c - 1))
  }

  // ---- the exact cubic ----

  function C2(n: nat): nat { if n == 0 then 0 else C2(n - 1) + (n - 1) }
  function C3(n: nat): nat { if n == 0 then 0 else C3(n - 1) + C2(n - 1) }

  lemma {:induction false} Binomials(n: nat)
    ensures 2 * C2(n) == n * (n - 1) && 6 * C3(n) == n * (n - 1) * (n - 2)
  {
    if n > 0 {
      Binomials(n - 1);
      var m := n - 1;
      assert n * m == m * (m - 1) + 2 * m;
      assert n * m * (n - 2) == m * (m - 1) * (m - 2) + 3 * (m * (m - 1)) by { Third(m); }
    }
  }

  lemma Third(m: int)
    ensures (m + 1) * m * (m - 1) == m * (m - 1) * (m - 2) + 3 * (m * (m - 1))
  {
    var p := m * (m - 1);
    assert (m + 1) * m * (m - 1) == (m + 1) * p;
  }

  // Values scaled up until no division is left: by 256, and by 256 * 64 = 16384.

  function ExactYx(s: Start, n: nat): int { 256 * s.yx + n * s.yyx + s.b * C2(n) }
  function ExactRowX(s: Start, n: nat): int { 16384 * s.x + 256 * (n * s.yx) + C2(n) * s.yyx + s.b * C3(n) }
  function ExactRowXx(s: Start, n: nat): int { 256 * s.xx + n * s.yxx + s.d * C2(n) }
  function ExactRowXxx(s: Start, n: nat): int { s.xxx + n * s.c }
  function ExactXx(s: Start, n: nat, c: nat): int { ExactRowXx(s, n) + c * ExactRowXxx(s, n) + s.a * C2(c) }

  /** 16384 times the cubic at row n - 1 and column c. */
  function Cubic(s: Start, n: nat, c: nat): int
  {
    ExactRowX(s, n) + c * ExactRowXx(s, n) + C2(c) * ExactRowXxx(s, n) + s.a * C3(c)
  }

  // ---- how far the floors fall behind ----

  predicate Between(low: int, v: int, high: int) { low <= v <= high }

  lemma Shift8(v: int)
    ensures Between(0, v - 256 * (v / 256), 255)
  {
  }

  lemma Shift6(v: int)
    ensures Between(0, v - 64 * (v / 64), 63)
  {
  }

  lemma {:induction false} RowLinear(s: Start, n: nat)
    ensures Row(s, n).yyx == s.yyx + n * s.b && Row(s, n).yxx == s.yxx + n * s.d && Row(s, n).xxx == ExactRowXxx(s, n)
  {
    if n > 0 {
      RowLinear(s, n - 1);
      Succ(n - 1, s.b);
      Succ(n - 1, s.d);
      Succ(n - 1, s.c);
    }
  }

  lemma Succ(m: int, v: int)
    ensures (m + 1) * v == m * v + v
  {
  }

  lemma SuccSum(m: int, k: int, v: int)
    ensures (m + k) * v == m * v + k * v && v * (m + k) == v * m + v * k
  {
  }

  lemma {:induction false} RowQuadratic(s: Start, n: nat)
    ensures Between(0, ExactYx(s, n) - 256 * Row(s, n).yx, 255 * n)
    ensures Between(0, ExactRowXx(s, n) - 256 * Row(s, n).xx, 255 * n)
  {
    if n > 0 {
      var m := n - 1;
      RowQuadratic(s, m);
      RowLinear(s, m);
      Shift8(Row(s, m).yyx);
      Shift8(Row(s, m).yxx);
      Succ(m, s.yyx);
      Succ(m, s.yxx);
      SuccSum(C2(m), m, s.b);
      SuccSum(C2(m), m, s.d);
    }
  }

  lemma ExactRowStep(s: Start, m: nat)
    ensures ExactRowX(s, m + 1) == ExactRowX(s, m) + ExactYx(s, m)
  {
    Succ(m, s.yx);
    SuccSum(C2(m), m, s.yyx);
    SuccSum(C3(m), C2(m), s.b);
  }

  lemma {:induction false} RowCubic(s: Start, n: nat)
    ensures Between(0, ExactRowX(s, n) - 16384 * Row(s, n).x, 255 * C2(n) + 16128 * n)
  {
    if n > 0 {
      var m := n - 1;
      RowCubic(s, m);
      RowQuadratic(s, m);
      Shift6(Row(s, m).yx);
      ExactRowStep(s, m);
      assert Row(s, n).x == Row(s, m).x + Row(s, m).yx / 64;
    }
  }

  lemma {:induction false} ColLinear(s: Start, n: nat, c: nat)
    ensures Col(s, n, c).xxx == ExactRowXxx(s, n) + c * s.a
  {
    if c == 0 {
      RowLinear(s, n);
    } else {
      ColLinear(s, n, c - 1);
      Succ(c - 1, s.a);
    }
  }

  lemma {:induction false} ColQuadratic(s: Start, n: nat, c: nat)
    ensures Between(0, ExactXx(s, n, c) - 256 * Col(s, n, c).xx, 255 * n + 255 * c)
  {
    if c == 0 {
      RowQuadratic(s, n);
    } else {
      var m := c - 1;
      ColQuadratic(s, n, m);
      ColLinear(s, n, m);
      Shift8(Col(s, n, m).xxx);
      Succ(m, ExactRowXxx(s, n));
      SuccSum(C2(m), m, s.a);
    }
  }

  /** The table entry never exceeds the cubic and stays behind it by a bounded amount. */
  lemma {:induction false} ColCubic(s: Start, n: nat, c: nat)
    ensures Between(0, Cubic(s, n, c) - 16384 * Col(s, n, c).x,
                    255 * C2(n) + 16128 * n + 255 * (c * n) + 255 * C2(c) + 16128 * c)
  {
    if c == 0 {
      RowCubic(s, n);
    } else {
      var m := c - 1;
      ColCubic(s, n, m);
      ColQuadratic(s, n, m);
      Shift6(Col(s, n, m).xx);
      Succ(m, ExactRowXx(s, n));
      Succ(m, n);
      SuccSum(C2(m), m, ExactRowXxx(s, n));
      SuccSum(C3(m), C2(m), s.a);
    }
  }

  lemma Times(k: int, p: int, v: int)
    ensures k * (p * v) == k * p * v && k * (v * p) == k * p * v
  {
  }

  lemma SixRowX(s: Start, n: nat)
    ensures 6 * ExactRowX(s, n) ==
      98304 * s.x + 1536 * (n * s.yx) + 3 * (n * (n - 1) * s.yyx) + n * (n - 1) * (n - 2) * s.b
  {
    Binomials(n);
    Times(2, C2(n), s.yyx);
    Times(6, C3(n), s.b);
  }

  lemma SixRowXx(s: Start, n: nat)
    ensures 6 * ExactRowXx(s, n) == 1536 * s.xx + 6 * (n * s.yxx) + 3 * (n * (n - 1) * s.d)
  {
    Binomials(n);
    Times(2, C2(n), s.d);
  }

  /** The cubic, written out: a polynomial in the number of row updates and the column. */
  lemma CubicIsPolynomial(s: Start, n: nat, c: nat)
    ensures 6 * Cubic(s, n, c) ==
      (98304 * s.x + 1536 * (n * s.yx) + 3 * (n * (n - 1) * s.yyx) + n * (n - 1) * (n - 2) * s.b)
      + (1536 * s.xx + 6 * (n * s.yxx) + 3 * (n * (n - 1) * s.d)) * c
      + 3 * (c * (c - 1) * (s.xxx + n * s.c)) + c * (c - 1) * (c - 2) * s.a
  {
    SixRowX(s, n);
    SixRowXx(s, n);
    Times(6, ExactRowXx(s, n), c);
    Binomials(c);
    Times(2, C2(c), s.xxx + n * s.c);
    Times(6, C3(c), s.a);
  }

  // ---- in terms of the registration info ----

  lemma ValueKept(v: int)
    ensures Wrap32(v * 8192) / 16 == 512 * v <==> -0x4_0000 <= v < 0x4_0000
  {
  }

  lemma DifferenceKept(v: int)
    ensures Wrap32(v * 2048) / 8 == 256 * v <==> -0x10_0000 <= v < 0x10_0000
  {
  }

  lemma ShiftsUpKeep(v: int)
    requires Is32(v)
    ensures Wrap32(Wrap32(v * 32) * 8) == 256 * v <==> -0x80_0000 <= v < 0x80_0000
  {
  }

  /** The starting values are the fields, the value times 512 and the differences times 256, exactly when the fields
      have at most 19, 21 and 24 bits. */
  lemma ExtractedIs(i: Info)
    requires i.Valid()
    ensures var s := Extracted(i);
      && s.a == i.a && s.b == i.b && s.c == i.c && s.d == i.d
      && (s.x == 512 * i.x <==> -0x4_0000 <= i.x < 0x4_0000)
      && (s.xx == 256 * i.xx <==> -0x10_0000 <= i.xx < 0x10_0000)
      && (s.yx == 256 * i.yx <==> -0x10_0000 <= i.yx < 0x10_0000)
      && (s.xxx == 256 * i.xxx <==> -0x80_0000 <= i.xxx < 0x80_0000)
      && (s.yxx == 256 * i.yxx <==> -0x80_0000 <= i.yxx < 0x80_0000)
      && (s.yyx == 256 * i.yyx <==> -0x80_0000 <= i.yyx < 0x80_0000)
  {
    hide Wrap32;
    ValueKept(i.x);
    DifferenceKept(i.xx);
    DifferenceKept(i.yx);
    ShiftsUpKeep(i.xxx);
    ShiftsUpKeep(i.yxx);
    ShiftsUpKeep(i.yyx);
  }

  predicate Narrow(i: Info)
  {
    && i.Valid() && -0x4_0000 <= i.x < 0x4_0000
    && -0x10_0000 <= i.xx < 0x10_0000 && -0x10_0000 <= i.yx < 0x10_0000
    && -0x80_0000 <= i.xxx < 0x80_0000 && -0x80_0000 <= i.yxx < 0x80_0000 && -0x80_0000 <= i.yyx < 0x80_0000
  }

  /** The cubic in terms of the fields: its value at the origin, the first differences along a row and between rows, the
      second and the third ones, in the unit of 2^-33 pixel over 6. */
  lemma InfoCubic(i: Info, n: nat, c: nat)
    requires Narrow(i)
    ensures 6 * Cubic(Extracted(i), n, c) ==
      (50331648 * i.x + 393216 * (n * i.yx) + 768 * (n * (n - 1) * i.yyx) + n * (n - 1) * (n - 2) * i.b)
      + (393216 * i.xx + 1536 * (n * i.yxx) + 3 * (n * (n - 1) * i.d)) * c
      + 3 * (c * (c - 1) * (256 * i.xxx + n * i.c)) + c * (c - 1) * (c - 2) * i.a
  {
    hide Cubic, Extracted;
    ExtractedIs(i);
    CubicIsPolynomial(Extracted(i), n, c);
    Times(n, 256, i.yx);
    Times(n * (n - 1), 256, i.yyx);
    Times(n, 256, i.yxx);
  }

  /** The bound in units of 2^-17 pixel, scaled by 16384: less than
      R + R(R-1)/128 + c + cR/64 + c(c-1)/128 behind at row R - 1 and column c. */
  lemma BehindByLess(s: Start, n: nat, c: nat)
    requires n > 0
    ensures var gap := Cubic(s, n, c) - 16384 * Col(s, n, c).x;
      0 <= gap < 16384 * n + 128 * (n * (n - 1)) + 16384 * c + 256 * (c * n) + 128 * (c * (c - 1))
  {
    ColCubic(s, n, c);
    Binomials(n);
    Binomials(c);
    assert c * n >= 0 && 255 * (c * n) <= 256 * (c * n);
  }

  lemma C2Bound(n: nat, top: nat, half: nat)
    requires n <= top && top > 0 && 2 * half == top * (top - 1)
    ensures C2(n) <= half
  {
    Binomials(n);
    Product(n, n - 1, top, top - 1);
  }

  lemma Product(a: int, b: int, c: int, d: int)
    requires 0 <= a <= c && b <= d && 0 <= d
    ensures a * b <= c * d
  {
    assert a * b <= a * d;
    assert a * d <= c * d;
  }

  /** At 640 by 480 that is under 0.09 pixel: a pixel is 2^17 units, and the gap is scaled by 2^14. */
  lemma UnderNineHundredths(s: Start, n: nat, c: nat)
    requires 0 < n <= 480 && c < 640
    ensures var gap := Cubic(s, n, c) - 16384 * Col(s, n, c).x; 0 <= gap && 100 * gap < 9 * (16384 * 131072)
  {
    ColCubic(s, n, c);
    C2Bound(n, 480, 114960);
    C2Bound(c, 639, 203841);
    Product(c, n, 639, 480);
  }

  // ---- no overflow ----

  const P31: int := 0x8000_0000

  /** Starting values and increments of 32 bits. */
  predicate Small(s: Start)
  {
    var b := P31;
    Between(-b, s.a, b) && Between(-b, s.b, b) && Between(-b, s.c, b) && Between(-b, s.d, b) && Between(-b, s.x, b)
    && Between(-b, s.xx, b) && Between(-b, s.yx, b) && Between(-b, s.xxx, b) && Between(-b, s.yxx, b) &&
      Between(-b, s.yyx, b)
  }

  lemma ExtractedIsSmall(i: Info)
    requires i.Valid()
    ensures Small(Extracted(i))
  {
    var x, xx, yx := Wrap32(i.x * 8192), Wrap32(i.xx * 2048), Wrap32(i.yx * 2048);
    assert Between(-P31, x / 16, P31) && Between(-P31, xx / 8, P31) && Between(-P31, yx / 8, P31);
  }

  predicate Within(v: int, k: nat) { Between(-P31 * k, v, P31 * k) }

  lemma {:induction false} RowsSmall(s: Start, n: nat)
    requires Small(s) && n <= 480
    ensures var r := Row(s, n);
      Within(r.xxx, n + 1) && Within(r.yxx, n + 1) && Within(r.yyx, n + 1) && Within(r.xx, 1 + 2 * n)
      && Within(r.yx, 1 + 2 * n) && Within(r.x, 1 + 16 * n)
  {
    if n > 0 {
      RowsSmall(s, n - 1);
    }
  }

  lemma {:induction false} ColsSmall(s: Start, n: nat, c: nat)
    requires Small(s) && n <= 480 && c <= 640
    ensures var k := Col(s, n, c);
      Within(k.xxx, 481 + c) && Within(k.xx, 961 + 5 * c) && Within(k.x, 7681 + 66 * c)
  {
    if c == 0 {
      RowsSmall(s, n);
    } else {
      ColsSmall(s, n, c - 1);
    }
  }

  /** For any 32-bit registration info every accumulator stays below 2^48: no 64-bit overflow, and
      the scaling by 2^-17 is exact in a double. */
  lemma NoOverflow(i: Info, n: nat, c: nat)
    requires i.Valid() && n <= 480 && c <= 640
    ensures var r, k := Row(Extracted(i), n), Col(Extracted(i), n, c);
      forall v :: v in [r.x, r.xx, r.yx, r.xxx, r.yxx, r.yyx, k.x, k.xx, k.xxx] ==>
        Between(-0x1_0000_0000_0000, v, 0x1_0000_0000_0000)
  {
    ExtractedIsSmall(i);
    RowsSmall(Extracted(i), n);
    ColsSmall(Extracted(i), n, c);
  }

  // ---- the loops ----

  /** The first c entries of the row after n updates. */
  function Cells(s: Start, n: nat, c: nat): (r: seq<int>)
    ensures |r| == c
  {
    if c == 0 then [] else Cells(s, n, c - 1) + [Col(s, n, c - 1).x]
  }

  /** The first rows of a table of w columns. */
  function Table(s: Start, w: nat, rows: nat): seq<int>
  {
    if rows == 0 then [] else Table(s, w, rows - 1) + Cells(s, rows, w)
  }

  /** The column loop, for one axis: `t0` is the table offset of the row. */
  method FillRow(table: array<int>, s: Start, w: nat, t0: nat, r: RowState, ghost n: nat)
    requires t0 + w <= table.Length && r == Row(s, n)
    modifies table
    ensures table[..t0 + w] == old(table[..t0]) + Cells(s, n, w)
  {
    var k := ColState(r.x, r.xx, r.xxx);
    var col := 0;
    ghost var before := table[..t0];
    assert before + [] == before;
    while col < w
      invariant 0 <= col <= w && k == Col(s, n, col)
      invariant table[..t0 + col] == before + Cells(s, n, col)
    {
      table[t0 + col] := k.x;
      assert table[..t0 + col + 1] == table[..t0 + col] + [k.x];
      k := ColState(k.x + k.xx / 64, k.xx + k.xxx / 256, k.xxx + s.a);
      col := col + 1;
    }
  }

  /** freenect_create_dxdy_tables, its entries not yet scaled by 2^-17. */
  method CreateTables(xTable: array<int>, yTable: array<int>, w: nat, h: nat, xInfo: Info, yInfo: Info)
    requires xInfo.Valid() && yInfo.Valid() && xTable != yTable && xTable.Length == yTable.Length == h * w
    modifies xTable, yTable
    ensures xTable[..] == Table(Extracted(xInfo), w, h) && yTable[..] == Table(Extracted(yInfo), w, h)
  {
    hide NextRow, Extracted;
    var xs, ys := Extracted(xInfo), Extracted(yInfo);
    var x := RowState(xs.x, xs.xx, xs.yx, xs.xxx, xs.yxx, xs.yyx);
    var y := RowState(ys.x, ys.xx, ys.yx, ys.xxx, ys.yxx, ys.yyx);
    var row, tOffs := 0, 0;
    while row < h
      invariant 0 <= row <= h && 0 <= tOffs == row * w
      invariant x == Row(xs, row) && y == Row(ys, row)
      invariant tOffs <= xTable.Length && xTable[..tOffs] == Table(xs, w, row) && yTable[..tOffs] == Table(ys, w, row)
    {
      RowEnds(row, h, w);
      x := NextRow(xs, x);
      y := NextRow(ys, y);
      FillRow(xTable, xs, w, tOffs, x, row + 1);
      FillRow(yTable, ys, w, tOffs, y, row + 1);
      row, tOffs := row + 1, tOffs + w;
    }
    assert xTable[..tOffs] == xTable[..] && yTable[..tOffs] == yTable[..];
  }

  lemma RowEnds(row: nat, h: nat, w: nat)
    requires row < h
    ensures row * w + w <= h * w && (row + 1) * w == row * w + w
  {
    assert (row + 1) * w <= h * w;
  }

  lemma {:induction false} TableSize(s: Start, w: nat, rows: nat)
    ensures |Table(s, w, rows)| == rows * w
  {
    if rows > 0 { TableSize(s, w, rows - 1); RowEnds(rows - 1, rows, w); }
  }

  lemma {:induction false} CellAt(s: Start, n: nat, w: nat, c: nat)
    requires c < w
    ensures Cells(s, n, w)[c] == Col(s, n, c).x
  {
    if c < w - 1 { CellAt(s, n, w - 1, c); }
  }

  /** The entry for a pixel: as many row updates as lines down to it, as many column steps as columns in front of it. */
  lemma {:induction false} TableAt(s: Start, w: nat, rows: nat, row: nat, c: nat)
    requires row < rows && c < w
    ensures row * w + c < |Table(s, w, rows)| && Table(s, w, rows)[row * w + c] == Col(s, row + 1, c).x
  {
    TableSize(s, w, rows - 1);
    if row < rows - 1 {
      RowEnds(row, rows - 1, w);
      TableAt(s, w, rows - 1, row, c);
    } else {
      CellAt(s, rows, w, c);
    }
  }
}
