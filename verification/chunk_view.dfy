/** The chunk callback of chunkview.c: every second row and column of a packed 640x480 depth frame,
    taken straight out of its USB packets. */
module ChunkView {
  import opened Bytes
  import opened Words
  import opened Unpack

  const PACKETS: nat := 242
  const PAYLOAD: nat := 1748 // DEPTH_PKTDSIZE
  const ROW_BYTES: nat := 880 // 640 pixels of 11 bits
  const FRAME_BYTES: nat := 422400
  const OUT_WIDTH: nat := 320
  const OUT_HEIGHT: nat := 240

  function PacketLength(p: nat): nat { if p == PACKETS - 1 then 1132 else PAYLOAD }

  function PacketOf(frame: seq<byte>, p: nat): (pkt: seq<byte>)
    requires |frame| == FRAME_BYTES && p < PACKETS
    ensures |pkt| == PacketLength(p)
  {
    frame[PAYLOAD * p..PAYLOAD * p + PacketLength(p)]
  }

  /** The output row a packet fills, and where in the packet its source row starts. */
  datatype Place = Place(row: nat, off: nat)

  function PlaceOf(p: nat): Option<Place>
    requires p < PACKETS
  {
    if p == 73 || p == 146 then None
    else if p > 219 then Some(Place(p - 2, (p - 220) * 12))
    else if p > 146 then Some(Place(p - 2, (p - 147) * 12 + 4))
    else if p > 73 then Some(Place(p - 1, (p - 74) * 12 + 8))
    else Some(Place(p, p * 12))
  }

  /** The packet that fills a row. */
  function PacketFor(row: nat): nat
    requires row < OUT_HEIGHT
  {
    if row <= 72 then row else if row <= 144 then row + 1 else row + 2
  }

  /** The source row an output row is taken from. */
  function SourceRow(row: nat): nat
  {
    if row <= 72 then 2 * row else if row <= 144 then 2 * row + 1 else if row <= 217 then 2 * row + 2 else 2 * row + 1
  }

  /** Each output row is filled by exactly one packet, which holds the whole of a source row. */
  lemma PlacesTile(p: nat, row: nat)
    requires p < PACKETS && row < OUT_HEIGHT
    ensures PlaceOf(p).Some? && PlaceOf(p).value.row == row <==> p == PacketFor(row)
    ensures PacketFor(row) < PACKETS
    ensures var off := PlaceOf(PacketFor(row)).value.off;
      off + ROW_BYTES <= PacketLength(PacketFor(row)) && PAYLOAD * PacketFor(row) + off == ROW_BYTES * SourceRow(row)
  {
  }

  /** Even pixel j of the packed row at byte q. */
  function EvenPixel(s: seq<byte>, q: nat, j: nat): uint16
    requires q + 11 * (j / 4) + 11 <= |s|
  {
    Pixel11(s[q + 11 * (j / 4)..q + 11 * (j / 4) + 11], 2 * (j % 4))
  }

  lemma EvenPixelFormula(s: seq<byte>, q: nat, j: nat)
    requires q + 11 * (j / 4) + 11 <= |s|
    ensures var b := q + 11 * (j / 4);
      EvenPixel(s, q, j) ==
        if j % 4 == 0 then s[b] as int * 8 + s[b + 1] as int / 32
        else if j % 4 == 1 then (s[b + 2] as int * 512 + s[b + 3] as int * 2 + s[b + 4] as int / 128) % 2048
        else if j % 4 == 2 then (s[b + 5] as int * 128 + s[b + 6] as int / 2) % 2048
        else (s[b + 8] as int * 32 + s[b + 9] as int / 8) % 2048
  {
  }

  /** In terms of the whole frame: pixel 2j of source row `row`. */
  lemma EvenPixelOfFrame(frame: seq<byte>, row: nat, j: nat)
    requires |frame| == FRAME_BYTES && row < 480 && j < OUT_WIDTH
    ensures EvenPixel(frame, ROW_BYTES * row, j) == Element(frame, 640 * row + 2 * j, 11)
  {
    var b := 80 * row + j / 4;
    BlockPixel(frame, b, 2 * (j % 4));
    assert 8 * b + 2 * (j % 4) == 640 * row + 2 * j;
    assert 11 * b == ROW_BYTES * row + 11 * (j / 4);
  }

  lemma FourFormulas(pkt: seq<byte>, q: nat)
    requires q + 11 <= |pkt|
    ensures Pixel11(pkt[q..q + 11], 0) == pkt[q] as int * 8 + pkt[q + 1] as int / 32
    ensures Pixel11(pkt[q..q + 11], 2) ==
      (pkt[q + 2] as int * 512 + pkt[q + 3] as int * 2 + pkt[q + 4] as int / 128) % 2048
    ensures Pixel11(pkt[q..q + 11], 4) == (pkt[q + 5] as int * 128 + pkt[q + 6] as int / 2) % 2048
    ensures Pixel11(pkt[q..q + 11], 6) == (pkt[q + 8] as int * 32 + pkt[q + 9] as int / 8) % 2048
  {
    EvenPixelFormula(pkt, q, 0);
    EvenPixelFormula(pkt, q, 1);
    EvenPixelFormula(pkt, q, 2);
    EvenPixelFormula(pkt, q, 3);
  }

  /** Four pixels out of eleven bytes, as in each half of the loop body. */
  method FourPixels(buffer: array<uint16>, f: nat, pkt: seq<byte>, q: nat)
    requires f + 4 <= buffer.Length && q + 11 <= |pkt|
    modifies buffer
    ensures forall j :: 0 <= j < 4 ==> buffer[f + j] == Pixel11(pkt[q..q + 11], 2 * j)
    ensures forall i :: 0 <= i < buffer.Length && !(f <= i < f + 4) ==> buffer[i] == old(buffer[i])
  {
    FourFormulas(pkt, q);
    hide Pixel11;
    buffer[f] := pkt[q] as int * 8 + pkt[q + 1] as int / 32;
    buffer[f + 1] := (pkt[q + 2] as int * 512 + pkt[q + 3] as int * 2 + pkt[q + 4] as int / 128) % 2048;
    buffer[f + 2] := (pkt[q + 5] as int * 128 + pkt[q + 6] as int / 2) % 2048;
    buffer[f + 3] := (pkt[q + 8] as int * 32 + pkt[q + 9] as int / 8) % 2048;
    assert buffer[f] == Pixel11(pkt[q..q + 11], 2 * 0) && buffer[f + 1] == Pixel11(pkt[q..q + 11], 2 * 1);
    assert buffer[f + 2] == Pixel11(pkt[q..q + 11], 2 * 2) && buffer[f + 3] == Pixel11(pkt[q..q + 11], 2 * 3);
  }

  /** One turn of the loop: eight pixels out of 22 bytes. */
  method EightPixels(buffer: array<uint16>, start: nat, pkt: seq<byte>, off: nat, n: nat)
    requires start + 8 * n + 8 <= buffer.Length && off + 22 * n + 22 <= |pkt|
    modifies buffer
    ensures forall j :: 8 * n <= j < 8 * n + 8 ==> buffer[start + j] == EvenPixel(pkt, off, j)
    ensures forall i :: 0 <= i < buffer.Length && !(start + 8 * n <= i < start + 8 * n + 8) ==>
      buffer[i] == old(buffer[i])
  {
    var f, raw := start + 8 * n, off + 22 * n;
    FourPixels(buffer, f, pkt, raw);
    FourPixels(buffer, f + 4, pkt, raw + 11);
    forall j | 8 * n <= j < 8 * n + 8 ensures buffer[start + j] == EvenPixel(pkt, off, j) {
      var i := j - 8 * n;
      if i < 4 {
        assert j / 4 == 2 * n && j % 4 == i;
        assert buffer[f + i] == Pixel11(pkt[raw..raw + 11], 2 * i);
      } else {
        assert j / 4 == 2 * n + 1 && j % 4 == i - 4;
        assert buffer[f + 4 + (i - 4)] == Pixel11(pkt[raw + 11..raw + 22], 2 * (i - 4));
      }
    }
  }

  method FillRow(buffer: array<uint16>, frame: nat, pkt: seq<byte>, raw: nat)
    requires frame + OUT_WIDTH <= buffer.Length && raw + ROW_BYTES <= |pkt|
    modifies buffer
    ensures forall j :: 0 <= j < OUT_WIDTH ==> buffer[frame + j] == EvenPixel(pkt, raw, j)
    ensures forall i :: 0 <= i < buffer.Length && !(frame <= i < frame + OUT_WIDTH) ==> buffer[i] == old(buffer[i])
  {
    var n := 0;
    while n != 40
      invariant 0 <= n <= 40
      invariant forall j :: 0 <= j < 8 * n ==> buffer[frame + j] == EvenPixel(pkt, raw, j)
      invariant forall i :: 0 <= i < buffer.Length && !(frame <= i < frame + 8 * n) ==> buffer[i] == old(buffer[i])
    {
      EightPixels(buffer, frame, pkt, raw, n);
      n := n + 1;
    }
  }

  /** chunk_cb: what one packet leaves in the output. */
  method ChunkCallback(buffer: array<uint16>, pkt: seq<byte>, p: nat)
    requires buffer.Length >= OUT_WIDTH * OUT_HEIGHT && p < PACKETS && |pkt| == PacketLength(p)
    modifies buffer
    ensures PlaceOf(p) == None ==> buffer[..] == old(buffer[..])
    ensures PlaceOf(p).Some? ==> PlaceOf(p).value.off + ROW_BYTES <= |pkt| && PlaceOf(p).value.row < OUT_HEIGHT
    ensures PlaceOf(p).Some? ==>
      var row, off := PlaceOf(p).value.row, PlaceOf(p).value.off;
      (forall j :: 0 <= j < OUT_WIDTH ==> buffer[OUT_WIDTH * row + j] == EvenPixel(pkt, off, j)) &&
      forall i :: 0 <= i < buffer.Length && !(OUT_WIDTH * row <= i < OUT_WIDTH * row + OUT_WIDTH) ==>
        buffer[i] == old(buffer[i])
  {
    if p == 73 || p == 146 {
      return;
    }
    var raw, frame := 0, 0;
    if p > 219 {
      raw, frame := (p - 220) * 12, OUT_WIDTH * (p - 2);
    } else if p > 146 {
      raw, frame := (p - 147) * 12 + 4, OUT_WIDTH * (p - 2);
    } else if p > 73 {
      raw, frame := (p - 74) * 12 + 8, OUT_WIDTH * (p - 1);
    } else {
      raw, frame := p * 12, OUT_WIDTH * p;
    }
    FillRow(buffer, frame, pkt, raw);
  }

  /** What output row r must hold. */
  predicate RowDone(frame: seq<byte>, out: seq<uint16>, row: nat)
    requires |frame| == FRAME_BYTES && |out| >= OUT_WIDTH * OUT_HEIGHT && row < OUT_HEIGHT
  {
    forall j :: 0 <= j < OUT_WIDTH ==> out[OUT_WIDTH * row + j] == Element(frame, 640 * SourceRow(row) + 2 * j, 11)
  }

  lemma SliceOfSlice(s: seq<byte>, a: nat, n: nat, b: nat, m: nat)
    requires a + n <= |s| && b + m <= n
    ensures s[a..a + n][b..b + m] == s[a + b..a + b + m]
  {
    var x, y := s[a..a + n][b..b + m], s[a + b..a + b + m];
    assert |x| == |y| && forall i :: 0 <= i < m ==> x[i] == y[i];
  }

  lemma SamePixel(frame: seq<byte>, p: nat, off: nat, j: nat)
    requires |frame| == FRAME_BYTES && p < PACKETS && off + ROW_BYTES <= PacketLength(p) && j < OUT_WIDTH
    ensures EvenPixel(PacketOf(frame, p), off, j) == EvenPixel(frame, PAYLOAD * p + off, j)
  {
    SliceOfSlice(frame, PAYLOAD * p, PacketLength(p), off + 11 * (j / 4), 11);
  }

  lemma PacketPixel(frame: seq<byte>, row: nat, j: nat)
    requires |frame| == FRAME_BYTES && row < OUT_HEIGHT && j < OUT_WIDTH
    ensures var p := PacketFor(row);
      p < PACKETS && PlaceOf(p).Some? && PlaceOf(p).value.off + ROW_BYTES <= PacketLength(p)
      && EvenPixel(PacketOf(frame, p), PlaceOf(p).value.off, j) == Element(frame, 640 * SourceRow(row) + 2 * j, 11)
  {
    var p := PacketFor(row);
    PlacesTile(p, row);
    EvenPixelOfFrame(frame, SourceRow(row), j);
    SamePixel(frame, p, PlaceOf(p).value.off, j);
  }

  /** A packet touches its own row only. */
  predicate OthersKept(was: seq<uint16>, now: seq<uint16>, row: nat)
  {
    |now| == |was| && forall i :: 0 <= i < |was| && !(OUT_WIDTH * row <= i < OUT_WIDTH * row + OUT_WIDTH) ==>
      now[i] == was[i]
  }

  lemma RowKept(frame: seq<byte>, was: seq<uint16>, now: seq<uint16>, row: nat, written: nat)
    requires |frame| == FRAME_BYTES && |was| >= OUT_WIDTH * OUT_HEIGHT && row < OUT_HEIGHT && row != written
    requires RowDone(frame, was, row) && OthersKept(was, now, written)
    ensures RowDone(frame, now, row)
  {
    forall j | 0 <= j < OUT_WIDTH ensures now[OUT_WIDTH * row + j] == Element(frame, 640 * SourceRow(row) + 2 * j, 11) {
      assert now[OUT_WIDTH * row + j] == was[OUT_WIDTH * row + j];
    }
  }

  lemma RowFilled(frame: seq<byte>, now: seq<uint16>, row: nat, p: nat, off: nat)
    requires |frame| == FRAME_BYTES && |now| >= OUT_WIDTH * OUT_HEIGHT && row < OUT_HEIGHT &&
      p == PacketFor(row) < PACKETS
    requires PlaceOf(p) == Some(Place(row, off)) && off + ROW_BYTES <= PacketLength(p)
    requires forall j :: 0 <= j < OUT_WIDTH ==> now[OUT_WIDTH * row + j] == EvenPixel(PacketOf(frame, p), off, j)
    ensures RowDone(frame, now, row)
  {
    forall j | 0 <= j < OUT_WIDTH ensures now[OUT_WIDTH * row + j] == Element(frame, 640 * SourceRow(row) + 2 * j, 11) {
      PacketPixel(frame, row, j);
    }
  }

  /** The next packet's turn; for a packet of the frame its row is done, if it has one. */
  method DecodePacket(buffer: array<uint16>, ghost frame: seq<byte>, pkt: seq<byte>, p: nat)
    requires buffer.Length >= OUT_WIDTH * OUT_HEIGHT && |frame| == FRAME_BYTES
    requires p < PACKETS && |pkt| == PacketLength(p)
    modifies buffer
    ensures PlaceOf(p) == None ==> buffer[..] == old(buffer[..])
    ensures PlaceOf(p).Some? ==>
      var row := PlaceOf(p).value.row;
      row < OUT_HEIGHT && OthersKept(old(buffer[..]), buffer[..], row) &&
      (pkt == PacketOf(frame, p) ==> RowDone(frame, buffer[..], row))
  {
    ChunkCallback(buffer, pkt, p);
    if PlaceOf(p).Some? && pkt == PacketOf(frame, p) {
      var row, off := PlaceOf(p).value.row, PlaceOf(p).value.off;
      PlacesTile(p, row);
      forall j | 0 <= j < OUT_WIDTH ensures buffer[..][OUT_WIDTH * row + j] == EvenPixel(PacketOf(frame, p), off, j) {
        assert buffer[..][OUT_WIDTH * row + j] == buffer[OUT_WIDTH * row + j];
      }
      RowFilled(frame, buffer[..], row, p, off);
    }
  }

  /** The rows of the packets in front of p. */
  ghost predicate RowsDone(frame: seq<byte>, out: seq<uint16>, p: nat)
    requires |frame| == FRAME_BYTES && |out| >= OUT_WIDTH * OUT_HEIGHT
  {
    forall row :: 0 <= row < OUT_HEIGHT && PacketFor(row) < p ==> RowDone(frame, out, row)
  }

  lemma NextRows(frame: seq<byte>, was: seq<uint16>, now: seq<uint16>, p: nat)
    requires |frame| == FRAME_BYTES && |was| == |now| >= OUT_WIDTH * OUT_HEIGHT && p < PACKETS
    requires RowsDone(frame, was, p)
    requires PlaceOf(p) == None ==> now == was
    requires PlaceOf(p).Some? ==>
      var row := PlaceOf(p).value.row; row < OUT_HEIGHT && OthersKept(was, now, row) && RowDone(frame, now, row)
    ensures RowsDone(frame, now, p + 1)
  {
    hide RowDone, OthersKept;
    forall row | 0 <= row < OUT_HEIGHT && PacketFor(row) < p + 1 ensures RowDone(frame, now, row) {
      PlacesTile(p, row);
      if PacketFor(row) != p && PlaceOf(p).Some? {
        RowKept(frame, was, now, row, PlaceOf(p).value.row);
      }
    }
  }

  /** One full run of packets: every output row holds the even pixels of its source row. */
  method DecodeFrame(buffer: array<uint16>, frame: seq<byte>)
    requires buffer.Length >= OUT_WIDTH * OUT_HEIGHT && |frame| == FRAME_BYTES
    modifies buffer
    ensures forall row :: 0 <= row < OUT_HEIGHT ==> RowDone(frame, buffer[..], row)
  {
    hide RowDone, OthersKept;
    var p := 0;
    while p < PACKETS
      invariant 0 <= p <= PACKETS && RowsDone(frame, buffer[..], p)
    {
      ghost var was := buffer[..];
      DecodePacket(buffer, frame, PacketOf(frame, p), p);
      NextRows(frame, was, buffer[..], p);
      p := p + 1;
    }
    AllRows(frame, buffer[..]);
  }

  lemma AllRows(frame: seq<byte>, out: seq<uint16>)
    requires |frame| == FRAME_BYTES && |out| >= OUT_WIDTH * OUT_HEIGHT && RowsDone(frame, out, PACKETS)
    ensures forall row :: 0 <= row < OUT_HEIGHT ==> RowDone(frame, out, row)
  {
    forall row | 0 <= row < OUT_HEIGHT ensures RowDone(frame, out, row) {
      PlacesTile(0, row);
    }
  }
}
