/** Depth registration: the forward z-buffer scatter of freenect_apply_registration and the colour
    mapper of freenect_map_rgb_to_depth that rebuilds it. */
module Registration {
  import opened Bytes
  import opened Bits
  import opened Unpack
  import opened Words

  const W: nat := 640
  const H: nat := 480
  const PIXELS: nat := 307200
  const MAX_METRIC: nat := 10000
  const MAX_RAW: nat := 2048

  /** The tables, filled elsewhere, and the padding lines. */
  datatype Tables = Tables(raw_to_mm: seq<uint16>, depth_to_rgb: seq<int>, table: seq<(int, int)>, start_lines: uint16)
  {
    predicate Valid()
    {
      |raw_to_mm| == MAX_RAW && |depth_to_rgb| == MAX_METRIC && |table| == PIXELS
    }
  }

  function U32(v: int): (u: nat)
    ensures u < TWO32
  {
    v % TWO32
  }

  /** C's signed division by REG_X_VAL_SCALE: toward zero. */
  function Unscaled(v: int): int
  {
    if v >= 0 then v / 256 else -((-v) / 256)
  }

  function NewX(t: Tables, i: nat, depth: nat): nat
    requires t.Valid() && i < PIXELS && depth < MAX_METRIC
  {
    U32(Unscaled(t.table[i].0 + t.depth_to_rgb[depth]))
  }

  /** Where freenect_apply_registration puts pixel i, if anywhere. */
  function ForwardTarget(t: Tables, i: nat, depth: nat): Option<nat>
    requires t.Valid() && i < PIXELS
  {
    if depth == 0 || depth >= MAX_METRIC then None
    else
      var nx, ny := NewX(t, i, depth), U32(t.table[i].1);
      if nx >= W then None else Some(U32(ny * W + nx - H * t.start_lines))
  }

  /** Where freenect_map_rgb_to_depth looks for the colour of pixel i, if anywhere. */
  function InverseTarget(t: Tables, i: nat, depth: nat): Option<nat>
    requires t.Valid() && i < PIXELS && depth < MAX_METRIC
  {
    if depth == 0 then None
    else
      var cx, cy := NewX(t, i, depth), U32(t.table[i].1 - t.start_lines * H);
      if cx >= W then None else Some(U32(cy * W + cx))
  }

  // ---- the targets, in plain numbers ----

  /** The table entry of a pixel and the shift of its depth: 256 to a column. */
  function Sum(t: Tables, i: nat, depth: nat): int
    requires t.Valid() && i < PIXELS && depth < MAX_METRIC
  {
    t.table[i].0 + t.depth_to_rgb[depth]
  }

  /** The sum lies in column nx; all of what is under a column on both sides of 0 lies in the first one. */
  predicate InColumn(sum: int, nx: nat)
  {
    if nx == 0 then -256 < sum < 256 else 256 * nx <= sum < 256 * (nx + 1)
  }

  /** A pixel has a target if and only if it has a depth under 10000 and its sum lies in one of the 640 columns. */
  lemma TargetExists(t: Tables, i: nat, depth: nat)
    requires t.Valid() && i < PIXELS && depth < 10000 && -0x8000_0000 <= Sum(t, i, depth) < 0x8000_0000
    ensures ForwardTarget(t, i, depth).Some? <==> depth > 0 && -256 < Sum(t, i, depth) < 256 * 640
    ensures InverseTarget(t, i, depth).Some? <==> depth > 0 && -256 < Sum(t, i, depth) < 256 * 640
  {
  }

  lemma DeepHasNoTarget(t: Tables, i: nat, depth: nat)
    requires t.Valid() && i < PIXELS && depth >= 10000
    ensures ForwardTarget(t, i, depth) == None
  {
  }

  /** The targets of a sum in column nx: the row of the table and that column, without padding; with padding the
      one loses 480 pixels a line and the other 480 rows, both in 32 bits. */
  lemma TargetPlace(t: Tables, i: nat, depth: nat, nx: nat)
    requires t.Valid() && i < PIXELS && 0 < depth < 10000 && nx < 640 && InColumn(Sum(t, i, depth), nx)
    ensures var y, lines := t.table[i].1, t.start_lines as int;
      && ForwardTarget(t, i, depth) == Some((y * 640 + nx - 480 * lines) % 0x1_0000_0000)
      && InverseTarget(t, i, depth) == Some(((y - 480 * lines) * 640 + nx) % 0x1_0000_0000)
      && (0 <= y < 480 && lines == 0 ==> ForwardTarget(t, i, depth) == InverseTarget(t, i, depth) == Some(y * 640 + nx))
  {
    var y, s := t.table[i].1, t.start_lines as int;
    ColumnIs(t, i, depth, nx);
    hide NewX;
    SameWord(U32(y) * W + nx - H * s, y * W + nx - H * s, y);
    SameWord(U32(y - s * H) * W + nx, (y - s * H) * W + nx, y - s * H);
  }

  lemma ColumnIs(t: Tables, i: nat, depth: nat, nx: nat)
    requires t.Valid() && i < PIXELS && 0 < depth < 10000 && nx < 640 && InColumn(Sum(t, i, depth), nx)
    ensures NewX(t, i, depth) == nx
  {
  }

  /** The two offsets are the same exactly when no padding line is configured. */
  lemma OffsetsAgree(t: Tables, i: nat, depth: nat)
    requires t.Valid() && i < PIXELS && depth < MAX_METRIC && ForwardTarget(t, i, depth).Some?
    ensures InverseTarget(t, i, depth) == ForwardTarget(t, i, depth) <==> t.start_lines == 0
  {
    var nx, y, s := NewX(t, i, depth), t.table[i].1, t.start_lines as int;
    SameWord(U32(y) * W + nx - H * s, y * W + nx - H * s, y);
    SameWord(U32(y - s * H) * W + nx, (y - s * H) * W + nx, y - s * H);
    Apart(y * W + nx, s);
  }

  lemma SameWord(a: int, b: int, y: int)
    requires a - b == (U32(y) - y) * W
    ensures U32(a) == U32(b)
  {
    var k := y / TWO32;
    assert y == k * TWO32 + U32(y);
    assert a == b - (k * W) * TWO32;
  }

  lemma Apart(v: int, s: int)
    requires 0 <= s < 0x1_0000
    ensures U32(v - H * s) == U32(v - H * W * s) <==> s == 0
  {
    if U32(v - H * s) == U32(v - H * W * s) {
      var k := (v - H * s) / TWO32 - (v - H * W * s) / TWO32;
      assert H * W * s - H * s == k * TWO32;
      assert 9585 * s == k * 0x800_0000;
      assert 0 <= k <= 4;
      assert k == 0 || k == 1 || k == 2 || k == 3 || k == 4;
    }
  }

  /** For rows of the image, the forward target stays in the image exactly when the padding is at most
      the place it is taken from. */
  lemma ForwardInside(t: Tables, i: nat, depth: nat)
    requires t.Valid() && i < PIXELS && ForwardTarget(t, i, depth).Some? && 0 <= t.table[i].1 < H
    ensures ForwardTarget(t, i, depth).value < PIXELS <==> H * t.start_lines <= t.table[i].1 * W + NewX(t, i, depth)
  {
    var place := t.table[i].1 * W + NewX(t, i, depth) - H * t.start_lines;
    assert U32(t.table[i].1) == t.table[i].1;
    assert U32(place) == if place >= 0 then place else place + TWO32;
  }

  const MAX_PADDED: nat := 13980

  /** For rows of the image, any padding up to this many lines takes every target of the mapper out of
      the image. */
  lemma PaddedTargetIsOutside(t: Tables, i: nat, depth: nat)
    requires t.Valid() && i < PIXELS && depth < MAX_METRIC && InverseTarget(t, i, depth).Some?
    requires 0 <= t.table[i].1 < H && 1 <= t.start_lines <= MAX_PADDED
    ensures InverseTarget(t, i, depth).value >= PIXELS
  {
    var nx, cy := NewX(t, i, depth), t.table[i].1 - t.start_lines * H;
    SameWord(U32(cy) * W + nx, cy * W + nx, cy);
    assert 0 - H * MAX_PADDED <= cy <= -1;
    assert U32(cy * W + nx) == cy * W + nx + TWO32;
  }

  // ---- the z-buffer ----

  /** A pixel on its way to a target. */
  datatype Source = Source(depth: uint16, target: Option<nat>)

  predicate InRange(ss: seq<Source>)
  {
    forall i :: 0 <= i < |ss| ==> ss[i].target.Some? ==> ss[i].target.value < PIXELS && ss[i].depth > 0
  }

  /** Kept when the place is free or farther away. */
  function Put(z: seq<uint16>, s: Source): (r: seq<uint16>)
    ensures |r| == |z|
  {
    if s.target.Some? && s.target.value < |z| && (z[s.target.value] == 0 || z[s.target.value] > s.depth)
    then z[s.target.value := s.depth] else z
  }

  function Empty(): (z: seq<uint16>)
    ensures |z| == PIXELS
  {
    seq(PIXELS, _ => 0)
  }

  /** The buffer after all sources, in their order. */
  function Scatter(ss: seq<Source>): (z: seq<uint16>)
    ensures |z| == PIXELS
  {
    if ss == [] then Empty() else Put(Scatter(ss[..|ss| - 1]), ss[|ss| - 1])
  }

  lemma NoSources()
    ensures Scatter([]) == Empty()
  {
  }

  /** v is the least depth of the sources with target p, or 0 when there is none. No order is mentioned. */
  ghost predicate IsNearest(ss: seq<Source>, p: nat, v: uint16)
  {
    if v == 0 then forall s :: s in ss ==> s.target != Some(p)
    else Source(v, Some(p)) in ss && forall s :: s in ss && s.target == Some(p) ==> v <= s.depth
  }

  lemma {:induction false} ScatterIsNearest(ss: seq<Source>, p: nat)
    requires InRange(ss) && p < PIXELS
    ensures IsNearest(ss, p, Scatter(ss)[p])
  {
    if ss != [] {
      var front, s := ss[..|ss| - 1], ss[|ss| - 1];
      assert InRange(front);
      ScatterIsNearest(front, p);
      assert ss == front + [s];
      assert forall x :: x in ss <==> x in front || x == s;
    }
  }

  lemma NearestIsUnique(ss: seq<Source>, p: nat, v: uint16, w: uint16)
    requires IsNearest(ss, p, v) && IsNearest(ss, p, w)
    ensures v == w
  {
  }

  /** The image does not depend on the order in which the pixels are processed. */
  lemma OrderDoesNotMatter(a: seq<Source>, b: seq<Source>)
    requires InRange(a) && multiset(a) == multiset(b)
    ensures InRange(b) && Scatter(a) == Scatter(b)
  {
    assert forall s :: s in a <==> s in multiset(a);
    assert forall s :: s in b <==> s in multiset(b);
    forall i | 0 <= i < |b| && b[i].target.Some? ensures b[i].target.value < PIXELS && b[i].depth > 0 {
      assert b[i] in a;
    }
    forall p | 0 <= p < PIXELS ensures Scatter(a)[p] == Scatter(b)[p] {
      ScatterIsNearest(a, p);
      ScatterIsNearest(b, p);
      assert IsNearest(a, p, Scatter(b)[p]);
      NearestIsUnique(a, p, Scatter(a)[p], Scatter(b)[p]);
    }
  }

  // ---- freenect_apply_registration ----

  datatype Input = Packed(bytes: seq<byte>) | Unpacked(pixels: seq<uint16>)
  {
    predicate Valid()
    {
      if Packed? then |bytes| == 11 * PIXELS / 8
      else |pixels| == PIXELS && forall i :: 0 <= i < PIXELS ==> pixels[i] < MAX_RAW
    }
  }

  lemma RawFits(bytes: seq<byte>, i: nat)
    requires |bytes| == 11 * PIXELS / 8 && i < PIXELS
    ensures Element(bytes, i, 11) < MAX_RAW
  {
    FieldBound(bytes, i * 11, 11);
    Powers();
    Pow2Sum(8, 3);
  }

  /** The raw value of pixel i, packed or not. */
  function RawAt(input: Input, i: nat): (v: nat)
    requires input.Valid() && i < PIXELS
    ensures v < MAX_RAW
  {
    match input
    case Packed(bytes) => RawFits(bytes, i); Element(bytes, i, 11)
    case Unpacked(pixels) => pixels[i]
  }

  function ForwardSource(t: Tables, input: Input, i: nat): Source
    requires t.Valid() && input.Valid() && i < PIXELS
  {
    var mm := t.raw_to_mm[RawAt(input, i)];
    Source(mm, ForwardTarget(t, i, mm))
  }

  /** The first n pixels. */
  function ForwardSources(t: Tables, input: Input, n: nat): (ss: seq<Source>)
    requires t.Valid() && input.Valid() && n <= PIXELS
    ensures |ss| == n && forall i :: 0 <= i < n ==> ss[i] == ForwardSource(t, input, i)
  {
    seq(n, i requires 0 <= i < n => ForwardSource(t, input, i))
  }

  /** The unpacking state in front of pixel i: eight pixels are unpacked when the last eight are used up. */
  ghost predicate Fetching(bytes: seq<byte>, i: nat, unpack: seq<uint16>, source_index: nat, off: nat)
  {
    if i % 8 == 0 then source_index == 8 && off == 11 * (i / 8)
    else source_index == i % 8 && off == 11 * (i / 8) + 11 <= |bytes| && unpack == Unpack8(bytes[off - 11..off])
  }

  lemma NextPlace(i: nat)
    ensures if (i + 1) % 8 == 0 then i % 8 == 7 && (i + 1) / 8 == i / 8 + 1
            else (i + 1) % 8 == i % 8 + 1 && (i + 1) / 8 == i / 8
  {
  }

  method NextPacked(bytes: seq<byte>, ghost i: nat, unpack0: seq<uint16>, index0: nat, off0: nat)
    returns (v: uint16, unpack: seq<uint16>, source_index: nat, off: nat)
    requires |bytes| == 11 * PIXELS / 8 && i < PIXELS && Fetching(bytes, i, unpack0, index0, off0)
    ensures v == Element(bytes, i, 11) && Fetching(bytes, i + 1, unpack, source_index, off)
  {
    hide Element, Pixel11;
    NextPlace(i);
    unpack, source_index, off := unpack0, index0, off0;
    if source_index == 8 {
      unpack := Unpack8(bytes[off..off + 11]);
      source_index := 0;
      off := off + 11;
    }
    BlockPixel(bytes, i / 8, i % 8);
    v := unpack[source_index];
    source_index := source_index + 1;
  }

  /** The loop body behind the lookup of the metric depth; not inside when the target is not in the image. */
  method PutPixel(t: Tables, out: array<uint16>, i: nat, metric_depth: uint16) returns (inside: bool)
    requires t.Valid() && i < PIXELS && out.Length == PIXELS
    modifies out
    ensures inside <==> InRange([Source(metric_depth, ForwardTarget(t, i, metric_depth))])
    ensures out[..] == Put(old(out[..]), Source(metric_depth, ForwardTarget(t, i, metric_depth)))
  {
    ghost var s := [Source(metric_depth, ForwardTarget(t, i, metric_depth))];
    if metric_depth == 0 || metric_depth >= MAX_METRIC {
      return true;
    }
    var nx := U32(Unscaled(t.table[i].0 + t.depth_to_rgb[metric_depth]));
    var ny := U32(t.table[i].1);
    if nx >= W {
      return true;
    }
    var target := U32(ny * W + nx - H * t.start_lines);
    assert s[0].target == Some(target);
    if target >= PIXELS {
      return false;
    }
    inside := true;
    if out[target] == 0 || out[target] > metric_depth {
      out[target] := metric_depth;
    }
  }

  datatype Fetch = Fetch(unpack: seq<uint16>, source_index: nat, off: nat)

  ghost predicate Ready(input: Input, i: nat, f: Fetch)
  {
    input.Packed? ==> Fetching(input.bytes, i, f.unpack, f.source_index, f.off)
  }

  /** The raw value of the current pixel. */
  method FetchRaw(input: Input, i: nat, f: Fetch) returns (raw: uint16, f': Fetch)
    requires input.Valid() && i < PIXELS && Ready(input, i, f)
    ensures raw == RawAt(input, i) && Ready(input, i + 1, f')
  {
    if input.Unpacked? {
      return input.pixels[i], f;
    }
    var unpack, source_index, off;
    raw, unpack, source_index, off := NextPacked(input.bytes, i, f.unpack, f.source_index, f.off);
    f' := Fetch(unpack, source_index, off);
  }

  lemma NextSource(t: Tables, input: Input, i: nat)
    requires t.Valid() && input.Valid() && i < PIXELS && InRange(ForwardSources(t, input, i))
    ensures Scatter(ForwardSources(t, input, i + 1)) ==
      Put(Scatter(ForwardSources(t, input, i)), ForwardSource(t, input, i))
    ensures InRange(ForwardSources(t, input, i + 1)) <==> InRange([ForwardSource(t, input, i)])
    ensures InRange(ForwardSources(t, input, PIXELS)) ==> InRange([ForwardSource(t, input, i)])
  {
    var ss := ForwardSources(t, input, i + 1);
    NextInRange(ForwardSources(t, input, i), ForwardSource(t, input, i));
    assert ss == ForwardSources(t, input, i) + [ForwardSource(t, input, i)];
    assert ss[..i] == ForwardSources(t, input, i);
    assert ForwardSources(t, input, PIXELS)[i] == ForwardSource(t, input, i) == [ForwardSource(t, input, i)][0];
  }

  lemma NextInRange(ss: seq<Source>, s: Source)
    requires InRange(ss)
    ensures InRange(ss + [s]) <==> InRange([s])
  {
    assert (ss + [s])[|ss|] == s == [s][0];
  }

  /** The first i pixels are done. */
  ghost predicate Applied(t: Tables, input: Input, z: seq<uint16>, f: Fetch, i: nat)
  {
    && t.Valid() && input.Valid() && i <= PIXELS && InRange(ForwardSources(t, input, i))
    && Ready(input, i, f) && z == Scatter(ForwardSources(t, input, i))
  }

  /** The body of the loop. */
  method ApplyPixel(t: Tables, input: Input, out: array<uint16>, i: nat, f: Fetch) returns (inside: bool, f': Fetch)
    requires out.Length == PIXELS && i < PIXELS && Applied(t, input, out[..], f, i)
    modifies out
    ensures inside ==> Applied(t, input, out[..], f', i + 1)
    ensures !inside ==> !InRange(ForwardSources(t, input, PIXELS))
  {
    hide Scatter, Put, RawAt, Ready;
    var raw;
    raw, f' := FetchRaw(input, i, f);
    NextSource(t, input, i);
    inside := PutPixel(t, out, i, t.raw_to_mm[raw]);
  }

  lemma NothingApplied(t: Tables, input: Input)
    requires t.Valid() && input.Valid()
    ensures Applied(t, input, Empty(), Fetch([], 8, 0), 0)
  {
    NoSources();
    StartsReady(input);
    assert ForwardSources(t, input, 0) == [];
  }

  lemma AllApplied(t: Tables, input: Input, z: seq<uint16>, f: Fetch)
    requires Applied(t, input, z, f, PIXELS)
    ensures z == Scatter(ForwardSources(t, input, PIXELS)) && InRange(ForwardSources(t, input, PIXELS))
  {
  }

  /** freenect_apply_registration, on packed or unpacked input. Every access is inside the image exactly
      when every target is; at the first one that is not, what C promises ends, and so does the model. */
  method ApplyRegistration(t: Tables, input: Input, out: array<uint16>) returns (inside: bool)
    requires t.Valid() && input.Valid() && out.Length == PIXELS
    modifies out
    ensures inside <==> InRange(ForwardSources(t, input, PIXELS))
    ensures inside ==> out[..] == Scatter(ForwardSources(t, input, PIXELS))
  {
    hide Applied, Scatter, InRange;
    Wipe(out);
    NothingApplied(t, input);
    var f := Fetch([], 8, 0);
    var y := 0;
    while y < H
      invariant 0 <= y <= H && Applied(t, input, out[..], f, y * W)
    {
      var x := 0;
      while x < W
        invariant 0 <= x <= W && Applied(t, input, out[..], f, y * W + x)
      {
        inside, f := ApplyPixel(t, input, out, y * W + x, f);
        if !inside {
          return;
        }
        x := x + 1;
      }
      y := y + 1;
    }
    AllApplied(t, input, out[..], f);
    inside := true;
  }

  method Wipe(out: array<uint16>)
    requires out.Length == PIXELS
    modifies out
    ensures out[..] == Empty()
  {
    var i := 0;
    while i < PIXELS
      invariant 0 <= i <= PIXELS && forall k :: 0 <= k < i ==> out[k] == 0
    {
      out[i] := 0;
      i := i + 1;
    }
  }

  /** The registered image, pixel by pixel, in terms of the raw input: the least depth of the pixels with that target,
      in millimetres, or 0 if there is none. */
  lemma RegisteredPixel(t: Tables, input: Input, out: seq<uint16>, p: nat)
    requires t.Valid() && input.Valid() && out == Scatter(ForwardSources(t, input, PIXELS)) && p < PIXELS
    requires InRange(ForwardSources(t, input, PIXELS))
    ensures out[p] == 0 <==>
      forall i :: 0 <= i < PIXELS ==> ForwardTarget(t, i, t.raw_to_mm[RawAt(input, i)]) != Some(p)
    ensures out[p] > 0 ==>
      && (exists i :: 0 <= i < PIXELS && ForwardTarget(t, i, t.raw_to_mm[RawAt(input, i)]) == Some(p) &&
                      t.raw_to_mm[RawAt(input, i)] == out[p])
      && forall i :: 0 <= i < PIXELS && ForwardTarget(t, i, t.raw_to_mm[RawAt(input, i)]) == Some(p) ==>
           out[p] <= t.raw_to_mm[RawAt(input, i)]
  {
    hide Scatter, ForwardTarget, RawAt;
    var ss := ForwardSources(t, input, PIXELS);
    ScatterIsNearest(ss, p);
    forall i | 0 <= i < PIXELS
      ensures ss[i] in ss
      ensures ss[i] == Source(t.raw_to_mm[RawAt(input, i)], ForwardTarget(t, i, t.raw_to_mm[RawAt(input, i)]))
    {
      assert ss[i] == ForwardSource(t, input, i);
    }
    if out[p] > 0 {
      var i :| 0 <= i < PIXELS && ss[i] == Source(out[p], Some(p));
      assert ForwardTarget(t, i, t.raw_to_mm[RawAt(input, i)]) == Some(p);
    }
  }

  /** The raw value of a packed pixel is its eleven bits of the stream. */
  lemma RawIsPacked(bytes: seq<byte>, pixels: seq<uint16>, i: nat)
    requires Packed(bytes).Valid() && Unpacked(pixels).Valid() && i < PIXELS
    ensures RawAt(Packed(bytes), i) == Element(bytes, i, 11) && RawAt(Unpacked(pixels), i) == pixels[i]
  {
  }

  /** Packed and unpacked input of the same raw values give the same image. */
  lemma PackedOrNot(t: Tables, bytes: seq<byte>, pixels: seq<uint16>)
    requires t.Valid() && Packed(bytes).Valid() && Unpacked(pixels).Valid()
    requires forall i :: 0 <= i < PIXELS ==> pixels[i] == Element(bytes, i, 11)
    ensures ForwardSources(t, Packed(bytes), PIXELS) == ForwardSources(t, Unpacked(pixels), PIXELS)
  {
    forall i | 0 <= i < PIXELS ensures ForwardSource(t, Packed(bytes), i) == ForwardSource(t, Unpacked(pixels), i) {
    }
  }

  // ---- freenect_apply_depth_to_mm ----

  /** The depth in millimetres, no more than the largest value. */
  function Clamped(mm: uint16): uint16 { if mm < MAX_METRIC then mm else MAX_METRIC }

  /** freenect_apply_depth_to_mm and freenect_apply_depth_unpacked_to_mm */
  method ApplyDepthToMm(t: Tables, input: Input, out: array<uint16>)
    requires t.Valid() && input.Valid() && out.Length == PIXELS
    modifies out
    ensures forall i :: 0 <= i < PIXELS ==> out[i] == Clamped(t.raw_to_mm[RawAt(input, i)])
    ensures forall i :: 0 <= i < PIXELS ==> out[i] <= t.raw_to_mm[RawAt(input, i)] && out[i] <= 10000
    ensures forall i :: 0 <= i < PIXELS ==> out[i] == t.raw_to_mm[RawAt(input, i)] || out[i] == 10000
  {
    hide RawAt, Ready;
    StartsReady(input);
    var f := Fetch([], 8, 0);
    var y := 0;
    while y < H
      invariant 0 <= y <= H && Ready(input, y * W, f)
      invariant forall i :: 0 <= i < y * W ==> out[i] == Clamped(t.raw_to_mm[RawAt(input, i)])
    {
      var x := 0;
      while x < W
        invariant 0 <= x <= W && Ready(input, y * W + x, f)
        invariant forall i :: 0 <= i < y * W + x ==> out[i] == Clamped(t.raw_to_mm[RawAt(input, i)])
      {
        var raw;
        raw, f := FetchRaw(input, y * W + x, f);
        out[y * W + x] := Clamped(t.raw_to_mm[raw]);
        x := x + 1;
      }
      y := y + 1;
    }
  }

  lemma StartsReady(input: Input)
    requires input.Valid()
    ensures Ready(input, 0, Fetch([], 8, 0))
  {
  }

  // ---- freenect_map_rgb_to_depth ----

  /** The first n depths are indices of the shift table. */
  predicate MetricUpTo(depth_mm: seq<uint16>, n: nat)
  {
    |depth_mm| == PIXELS && n <= PIXELS && forall i :: 0 <= i < n ==> depth_mm[i] < MAX_METRIC
  }

  predicate Metric(depth_mm: seq<uint16>) { MetricUpTo(depth_mm, PIXELS) }

  function InverseSource(t: Tables, depth_mm: seq<uint16>, i: nat): Source
    requires t.Valid() && i < |depth_mm| == PIXELS && depth_mm[i] < MAX_METRIC
  {
    Source(depth_mm[i], InverseTarget(t, i, depth_mm[i]))
  }

  function InverseSources(t: Tables, depth_mm: seq<uint16>, n: nat): (ss: seq<Source>)
    requires t.Valid() && MetricUpTo(depth_mm, n)
    ensures |ss| == n && forall i :: 0 <= i < n ==> ss[i] == InverseSource(t, depth_mm, i)
  {
    seq(n, i requires 0 <= i < n => InverseSource(t, depth_mm, i))
  }

  /** What the map holds of a source: its target, or -1. */
  function Mapped(s: Source): int { if s.target.Some? then s.target.value else -1 }

  /** The first n pixels can be mapped without an access outside the table or the image. */
  predicate MapsInside(t: Tables, depth_mm: seq<uint16>, n: nat)
    requires t.Valid()
  {
    MetricUpTo(depth_mm, n) && InRange(InverseSources(t, depth_mm, n))
  }

  lemma NextInverse(t: Tables, depth_mm: seq<uint16>, i: nat)
    requires t.Valid() && i < PIXELS && MapsInside(t, depth_mm, i) && depth_mm[i] < MAX_METRIC
    ensures MetricUpTo(depth_mm, i + 1)
    ensures Scatter(InverseSources(t, depth_mm, i + 1)) ==
      Put(Scatter(InverseSources(t, depth_mm, i)), InverseSource(t, depth_mm, i))
    ensures MapsInside(t, depth_mm, i + 1) <==> InRange([InverseSource(t, depth_mm, i)])
  {
    var ss := InverseSources(t, depth_mm, i + 1);
    NextInRange(InverseSources(t, depth_mm, i), InverseSource(t, depth_mm, i));
    assert ss == InverseSources(t, depth_mm, i) + [InverseSource(t, depth_mm, i)];
    assert ss[..i] == InverseSources(t, depth_mm, i);
  }

  lemma LessMapsInside(t: Tables, depth_mm: seq<uint16>, n: nat)
    requires t.Valid() && MapsInside(t, depth_mm, PIXELS) && n <= PIXELS
    ensures MapsInside(t, depth_mm, n)
  {
    var all := InverseSources(t, depth_mm, PIXELS);
    assert forall i :: 0 <= i < n ==> InverseSources(t, depth_mm, n)[i] == all[i];
  }

  /** The body of the first pass; not inside when the depth is no index of the table or the target is
      not in the image. */
  method MapPixel(t: Tables, depth_mm: seq<uint16>, i: nat, map_: array<int>, zBuffer: array<uint16>)
    returns (inside: bool)
    requires t.Valid() && |depth_mm| == PIXELS && i < PIXELS && map_.Length == zBuffer.Length == PIXELS
    modifies map_, zBuffer
    ensures inside <==> depth_mm[i] < MAX_METRIC && InRange([InverseSource(t, depth_mm, i)])
    ensures inside ==> map_[..] == old(map_[..])[i := Mapped(InverseSource(t, depth_mm, i))]
    ensures inside ==> zBuffer[..] == Put(old(zBuffer[..]), InverseSource(t, depth_mm, i))
  {
    map_[i] := -1;
    var wz := depth_mm[i];
    if wz == 0 {
      return true;
    }
    if wz >= MAX_METRIC {
      return false;
    }
    ghost var s := [InverseSource(t, depth_mm, i)];
    var cx := U32(Unscaled(t.table[i].0 + t.depth_to_rgb[wz]));
    var cy := U32(t.table[i].1 - t.start_lines * H);
    if cx >= W {
      return true;
    }
    var cindex := U32(cy * W + cx);
    assert s[0].target == Some(cindex);
    map_[i] := cindex;
    if cindex >= PIXELS {
      return false;
    }
    if zBuffer[cindex] == 0 || zBuffer[cindex] > wz {
      zBuffer[cindex] := wz;
    }
    inside := true;
  }

  /** The first n pixels are mapped. */
  ghost predicate MapsBuilt(t: Tables, depth_mm: seq<uint16>, n: nat, m: seq<int>, z: seq<uint16>)
  {
    && t.Valid() && MapsInside(t, depth_mm, n) && |m| == PIXELS
    && z == Scatter(InverseSources(t, depth_mm, n))
    && forall i :: 0 <= i < n ==> m[i] == Mapped(InverseSource(t, depth_mm, i))
  }

  method MapNext(t: Tables, depth_mm: seq<uint16>, i: nat, map_: array<int>, zBuffer: array<uint16>)
    returns (inside: bool)
    requires map_.Length == zBuffer.Length == PIXELS && i < PIXELS && MapsBuilt(t, depth_mm, i, map_[..], zBuffer[..])
    modifies map_, zBuffer
    ensures inside ==> MapsBuilt(t, depth_mm, i + 1, map_[..], zBuffer[..])
    ensures !inside ==> !MapsInside(t, depth_mm, PIXELS)
  {
    hide Scatter, Put, InRange, InverseSource;
    inside := MapPixel(t, depth_mm, i, map_, zBuffer);
    if depth_mm[i] < MAX_METRIC {
      NextInverse(t, depth_mm, i);
    }
    if MapsInside(t, depth_mm, PIXELS) {
      LessMapsInside(t, depth_mm, i + 1);
    }
  }

  lemma NothingMapped(t: Tables, depth_mm: seq<uint16>, m: seq<int>)
    requires t.Valid() && |depth_mm| == |m| == PIXELS
    ensures MapsBuilt(t, depth_mm, 0, m, Empty())
  {
    NoSources();
    assert InverseSources(t, depth_mm, 0) == [];
  }

  /** The first pass. */
  method BuildMap(t: Tables, depth_mm: seq<uint16>, map_: array<int>, zBuffer: array<uint16>) returns (inside: bool)
    requires t.Valid() && |depth_mm| == PIXELS && map_.Length == zBuffer.Length == PIXELS && zBuffer[..] == Empty()
    modifies map_, zBuffer
    ensures inside <==> MapsInside(t, depth_mm, PIXELS)
    ensures inside ==> zBuffer[..] == Scatter(InverseSources(t, depth_mm, PIXELS))
    ensures inside ==> forall i :: 0 <= i < PIXELS ==> map_[i] == Mapped(InverseSource(t, depth_mm, i))
  {
    hide MapsBuilt, MapsInside, Scatter, InRange;
    NothingMapped(t, depth_mm, map_[..]);
    var y := 0;
    while y < H
      invariant 0 <= y <= H && MapsBuilt(t, depth_mm, y * W, map_[..], zBuffer[..])
    {
      var x := 0;
      while x < W
        invariant 0 <= x <= W && MapsBuilt(t, depth_mm, y * W + x, map_[..], zBuffer[..])
      {
        inside := MapNext(t, depth_mm, y * W + x, map_, zBuffer);
        if !inside {
          return;
        }
        x := x + 1;
      }
      y := y + 1;
    }
    AllMapped(t, depth_mm, map_[..], zBuffer[..]);
    inside := true;
  }

  lemma AllMapped(t: Tables, depth_mm: seq<uint16>, m: seq<int>, z: seq<uint16>)
    requires MapsBuilt(t, depth_mm, PIXELS, m, z)
    ensures t.Valid() && MapsInside(t, depth_mm, PIXELS) && |m| == PIXELS
    ensures z == Scatter(InverseSources(t, depth_mm, PIXELS))
    ensures forall i :: 0 <= i < PIXELS ==> m[i] == Mapped(InverseSource(t, depth_mm, i))
  {
  }

  /** The three bytes of a pixel. */
  function Colour(image: seq<byte>, i: nat): seq<byte>
    requires 3 * i + 3 <= |image|
  {
    image[3 * i..3 * i + 3]
  }

  /** The colour of pixel i afterwards: black without depth or target, the colour at the target when
      the depth is the registered one there, and what it was when it is occluded. */
  function Coloured(s: Source, z: seq<uint16>, rgb: seq<byte>, was: seq<byte>): (c: seq<byte>)
    requires |z| == PIXELS && InRange([s]) && |rgb| == 3 * PIXELS && |was| == 3
    ensures |c| == 3
  {
    match s.target
    case None => [0, 0, 0]
    case Some(c) => assert [s][0] == s; if s.depth == z[c] then Colour(rgb, c) else was
  }

  /** A source's own depth is never below what the buffer holds at its target. */
  lemma NeverBelow(ss: seq<Source>, i: nat)
    requires InRange(ss) && i < |ss| && ss[i].target.Some?
    ensures 0 < Scatter(ss)[ss[i].target.value] <= ss[i].depth
  {
    ScatterIsNearest(ss, ss[i].target.value);
    assert ss[i] in ss;
  }

  method SetColour(out: array<byte>, i: nat, c: seq<byte>)
    requires 3 * i + 3 <= out.Length && |c| == 3
    modifies out
    ensures out[3 * i..3 * i + 3] == c
    ensures forall k :: 0 <= k < out.Length && !(3 * i <= k < 3 * i + 3) ==> out[k] == old(out[k])
  {
    out[3 * i], out[3 * i + 1], out[3 * i + 2] := c[0], c[1], c[2];
  }

  /** The body of the second pass. */
  method ColourPixel(depth_mm: seq<uint16>, i: nat, cindex: int, z: array<uint16>, rgb: seq<byte>, out: array<byte>,
                     ghost s: Source)
    requires |depth_mm| == PIXELS && i < PIXELS && z.Length == PIXELS && |rgb| == 3 * PIXELS && out.Length == 3 * PIXELS
    requires InRange([s]) && cindex == Mapped(s) && s.depth == depth_mm[i]
    requires s.target.Some? ==> s.target.value < PIXELS && z[s.target.value] <= s.depth
    modifies out
    ensures out[3 * i..3 * i + 3] == Coloured(s, z[..], rgb, old(out[3 * i..3 * i + 3]))
    ensures forall k :: 0 <= k < out.Length && !(3 * i <= k < 3 * i + 3) ==> out[k] == old(out[k])
  {
    if cindex == -1 {
      SetColour(out, i, [0, 0, 0]);
      return;
    }
    var currentDepth, minDepth := depth_mm[i], z[cindex];
    if currentDepth <= minDepth {
      SetColour(out, i, rgb[3 * cindex..3 * cindex + 3]);
    }
  }

  /** Every pixel below n is coloured, and the others are untouched. */
  ghost predicate ColouredUpTo(sources: seq<Source>, z: seq<uint16>, rgb: seq<byte>, was: seq<byte>, out: seq<byte>,
                               n: nat)
    requires |sources| == PIXELS && |z| == PIXELS && InRange(sources) && |rgb| == 3 * PIXELS
    requires |was| == |out| == 3 * PIXELS && n <= PIXELS
  {
    && (forall i :: 0 <= i < n ==> Colour(out, i) == Coloured(At(sources, i), z, rgb, Colour(was, i)))
    && (forall i :: n <= i < PIXELS ==> Colour(out, i) == Colour(was, i))
  }

  /** Every pixel is coloured, by the buffer of all sources. */
  ghost predicate ColouredBy(sources: seq<Source>, rgb: seq<byte>, was: seq<byte>, out: seq<byte>)
    requires |sources| == PIXELS && InRange(sources) && |rgb| == |was| == |out| == 3 * PIXELS
  {
    ColouredUpTo(sources, Scatter(sources), rgb, was, out, PIXELS)
  }

  function At(sources: seq<Source>, i: nat): (s: Source)
    requires |sources| == PIXELS && InRange(sources) && i < PIXELS
    ensures InRange([s]) && s == sources[i]
  {
    sources[i]
  }

  /** One more pixel: its three bytes change and no others do. */
  lemma OneMore(sources: seq<Source>, z: seq<uint16>, rgb: seq<byte>, was: seq<byte>, before: seq<byte>,
                after: seq<byte>, n: nat)
    requires |sources| == PIXELS && |z| == PIXELS && InRange(sources) && |rgb| == 3 * PIXELS
    requires |was| == |before| == |after| == 3 * PIXELS && n < PIXELS
    requires ColouredUpTo(sources, z, rgb, was, before, n)
    requires Colour(after, n) == Coloured(At(sources, n), z, rgb, Colour(before, n))
    requires forall k :: 0 <= k < 3 * PIXELS && !(3 * n <= k < 3 * n + 3) ==> after[k] == before[k]
    ensures ColouredUpTo(sources, z, rgb, was, after, n + 1)
  {
    hide Coloured, InRange;
    forall i | 0 <= i < PIXELS && i != n ensures Colour(after, i) == Colour(before, i) {
    }
  }

  /** The second pass. */
  method ColourAll(depth_mm: seq<uint16>, map_: array<int>, z: array<uint16>, rgb: seq<byte>, out: array<byte>,
                   ghost sources: seq<Source>)
    requires |depth_mm| == |sources| == PIXELS && map_.Length == z.Length == PIXELS
    requires |rgb| == 3 * PIXELS && out.Length == 3 * PIXELS && InRange(sources) && z[..] == Scatter(sources)
    requires forall i :: 0 <= i < PIXELS ==> map_[i] == Mapped(sources[i]) && depth_mm[i] == sources[i].depth
    modifies out
    ensures ColouredUpTo(sources, z[..], rgb, old(out[..]), out[..], PIXELS)
  {
    ghost var was := out[..];
    var y := 0;
    while y < H
      invariant 0 <= y <= H
      invariant ColouredUpTo(sources, z[..], rgb, was, out[..], y * W)
    {
      var x := 0;
      while x < W
        invariant 0 <= x <= W
        invariant ColouredUpTo(sources, z[..], rgb, was, out[..], y * W + x)
      {
        ColourNext(depth_mm, y * W + x, map_, z, rgb, out, sources, was);
        x := x + 1;
      }
      y := y + 1;
    }
  }

  method ColourNext(depth_mm: seq<uint16>, i: nat, map_: array<int>, z: array<uint16>, rgb: seq<byte>, out: array<byte>,
                    ghost sources: seq<Source>, ghost was: seq<byte>)
    requires |depth_mm| == |sources| == PIXELS && map_.Length == z.Length == PIXELS && i < PIXELS
    requires |rgb| == 3 * PIXELS && out.Length == |was| == 3 * PIXELS && InRange(sources) && z[..] == Scatter(sources)
    requires map_[i] == Mapped(sources[i]) && depth_mm[i] == sources[i].depth
    requires ColouredUpTo(sources, z[..], rgb, was, out[..], i)
    modifies out
    ensures ColouredUpTo(sources, z[..], rgb, was, out[..], i + 1)
  {
    ghost var before := out[..];
    ghost var s := At(sources, i);
    if s.target.Some? {
      NeverBelow(sources, i);
      assert z[s.target.value] == z[..][s.target.value];
    }
    ColourPixel(depth_mm, i, map_[i], z, rgb, out, s);
    OneMore(sources, z[..], rgb, was, before, out[..], i);
  }

  /** freenect_map_rgb_to_depth; as in ApplyRegistration, the model ends at the first access outside. */
  method MapRgbToDepth(t: Tables, depth_mm: seq<uint16>, rgb: seq<byte>, out: array<byte>) returns (inside: bool)
    requires t.Valid() && |depth_mm| == PIXELS && |rgb| == 3 * PIXELS && out.Length == 3 * PIXELS
    modifies out
    ensures inside <==> MapsInside(t, depth_mm, PIXELS)
    ensures inside ==> ColouredBy(InverseSources(t, depth_mm, PIXELS), rgb, old(out[..]), out[..])
  {
    var map_, zBuffer := new int[PIXELS], new uint16[PIXELS];
    Wipe(zBuffer);
    inside := BuildMap(t, depth_mm, map_, zBuffer);
    if inside {
      ColourAll(depth_mm, map_, zBuffer, rgb, out, InverseSources(t, depth_mm, PIXELS));
    }
  }

  /** With 1 to MAX_PADDED padding lines and rows of the image in the table, the mapper stays inside
      exactly when it maps nothing at all. */
  lemma PaddedMapper(t: Tables, depth_mm: seq<uint16>)
    requires t.Valid() && Metric(depth_mm) && 1 <= t.start_lines <= MAX_PADDED
    requires forall i :: 0 <= i < PIXELS ==> 0 <= t.table[i].1 < H
    ensures MapsInside(t, depth_mm, PIXELS)
       <==> forall i :: 0 <= i < PIXELS ==> InverseTarget(t, i, depth_mm[i]).None?
  {
    var ss := InverseSources(t, depth_mm, PIXELS);
    forall i | 0 <= i < PIXELS && ss[i].target.Some? ensures ss[i].target.value >= PIXELS {
      PaddedTargetIsOutside(t, i, depth_mm[i]);
    }
    assert forall i :: 0 <= i < PIXELS ==> ss[i].target == InverseTarget(t, i, depth_mm[i]);
  }

  /** What a pixel is afterwards: black without a depth or outside the columns, and else the colour at its place or
      what it was before, by whether a nearer pixel has the same place. */
  lemma ColourOf(t: Tables, depth_mm: seq<uint16>, rgb: seq<byte>, was: seq<byte>, out: seq<byte>, i: nat)
    requires t.Valid() && MapsInside(t, depth_mm, PIXELS) && |rgb| == |was| == |out| == 3 * PIXELS && i < PIXELS
    requires ColouredBy(InverseSources(t, depth_mm, PIXELS), rgb, was, out)
    requires -0x8000_0000 <= Sum(t, i, depth_mm[i]) < 0x8000_0000
    ensures depth_mm[i] == 0 || !(-256 < Sum(t, i, depth_mm[i]) < 256 * 640) ==> Colour(out, i) == [0, 0, 0]
    ensures depth_mm[i] > 0 && -256 < Sum(t, i, depth_mm[i]) < 256 * 640 ==>
      var place := InverseTarget(t, i, depth_mm[i]);
      && place.Some? && place.value < PIXELS
      && Colour(out, i) ==
        if exists k :: 0 <= k < PIXELS && InverseTarget(t, k, depth_mm[k]) == place && depth_mm[k] < depth_mm[i]
        then Colour(was, i) else Colour(rgb, place.value)
  {
    TargetExists(t, i, depth_mm[i]);
    var ss := InverseSources(t, depth_mm, PIXELS);
    assert ss[i] == InverseSource(t, depth_mm, i);
    assert Colour(out, i) == Coloured(At(ss, i), Scatter(ss), rgb, Colour(was, i));
    if ss[i].target.Some? {
      NearestOf(t, depth_mm, i, ss[i].target.value);
    }
  }

  /** A pixel's depth is the one held at its target exactly when no pixel of that target is nearer. */
  lemma NearestOf(t: Tables, depth_mm: seq<uint16>, i: nat, p: nat)
    requires t.Valid() && MapsInside(t, depth_mm, PIXELS) && i < PIXELS
    requires InverseTarget(t, i, depth_mm[i]) == Some(p) && p < PIXELS
    ensures Scatter(InverseSources(t, depth_mm, PIXELS))[p] == depth_mm[i] <==>
      !exists k :: 0 <= k < PIXELS && InverseTarget(t, k, depth_mm[k]) == Some(p) && depth_mm[k] < depth_mm[i]
  {
    hide Scatter, InverseTarget;
    var ss := InverseSources(t, depth_mm, PIXELS);
    ScatterIsNearest(ss, p);
    NeverBelow(ss, i);
    assert forall k :: 0 <= k < PIXELS ==> ss[k] == Source(depth_mm[k], InverseTarget(t, k, depth_mm[k]));
  }

  // ---- the two agree ----

  /** depth_mm is what the raw image says in millimetres. */
  predicate SameDepths(t: Tables, input: Input, depth_mm: seq<uint16>)
    requires t.Valid() && input.Valid()
  {
    Metric(depth_mm) && forall i :: 0 <= i < PIXELS ==> depth_mm[i] == t.raw_to_mm[RawAt(input, i)]
  }

  /** With no padding line the mapper rebuilds exactly the registered image. */
  lemma MapperRebuildsTheImage(t: Tables, input: Input, depth_mm: seq<uint16>)
    requires t.Valid() && input.Valid() && SameDepths(t, input, depth_mm) && t.start_lines == 0
    ensures InverseSources(t, depth_mm, PIXELS) == ForwardSources(t, input, PIXELS)
    ensures Scatter(InverseSources(t, depth_mm, PIXELS)) == Scatter(ForwardSources(t, input, PIXELS))
  {
    forall i | 0 <= i < PIXELS ensures InverseSource(t, depth_mm, i) == ForwardSource(t, input, i) {
      if ForwardTarget(t, i, depth_mm[i]).Some? {
        OffsetsAgree(t, i, depth_mm[i]);
      }
    }
  }

  /** A millimetre image can go to the mapper, whose table ends below the largest value, exactly when no
      pixel of it was clamped; and the registered image of the same input is then the mapper's buffer. */
  lemma MmImageForTheMapper(t: Tables, input: Input, mm: seq<uint16>)
    requires t.Valid() && input.Valid() && |mm| == PIXELS
    requires forall i :: 0 <= i < PIXELS ==> mm[i] == Clamped(t.raw_to_mm[RawAt(input, i)])
    ensures Metric(mm) <==> forall i :: 0 <= i < PIXELS ==> t.raw_to_mm[RawAt(input, i)] < MAX_METRIC
    ensures Metric(mm) ==> SameDepths(t, input, mm)
  {
    assert forall i :: 0 <= i < PIXELS ==> (mm[i] < MAX_METRIC <==> t.raw_to_mm[RawAt(input, i)] < MAX_METRIC);
  }

  /** A mapped pixel has its target's colour afterwards exactly when its depth is the registered depth
      there, or it had that colour before. */
  lemma ColouredWhenRegistered(t: Tables, input: Input, depth_mm: seq<uint16>, rgb: seq<byte>, was: seq<byte>,
                               out: seq<byte>, i: nat)
    requires t.Valid() && input.Valid() && SameDepths(t, input, depth_mm) && t.start_lines == 0 && i < PIXELS
    requires |rgb| == |was| == |out| == 3 * PIXELS && MapsInside(t, depth_mm, PIXELS)
    requires ColouredBy(InverseSources(t, depth_mm, PIXELS), rgb, was, out)
    requires ForwardTarget(t, i, depth_mm[i]).Some?
    ensures var target := ForwardTarget(t, i, depth_mm[i]).value;
      && target < PIXELS
      && (Colour(out, i) == Colour(rgb, target) <==>
          (depth_mm[i] == Scatter(ForwardSources(t, input, PIXELS))[target] || Colour(was, i) == Colour(rgb, target)))
  {
    MapperRebuildsTheImage(t, input, depth_mm);
    var ss := InverseSources(t, depth_mm, PIXELS);
    assert Colour(out, i) == Coloured(At(ss, i), Scatter(ss), rgb, Colour(was, i));
    assert ss[i] == ForwardSources(t, input, PIXELS)[i];
  }
}
