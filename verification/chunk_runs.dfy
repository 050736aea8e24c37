/** The receiver with a chunk callback and the callback of chunkview.c, together: from the packets on the wire to
    the decoded picture. */
module ChunkRuns {
  import opened Bytes
  import opened Words
  import opened PacketStreams
  import opened PacketRuns
  import opened ChunkView

  /** The depth stream in a packed format of 11 bits: freenect_start_depth with DEPTH_PKTDSIZE. */
  function Wire(): Config { Init(0x70, false, PAYLOAD, FRAME_BYTES) }

  /** The sizes that the callback counts on are those of the receiver. */
  lemma PacketsOfTheWire(p: nat)
    requires p < PACKETS
    ensures Wire().Valid() && Wire().pkts_per_frame == PACKETS && Wire().frame_size == FRAME_BYTES
    ensures PacketLength(p) == if p == PACKETS - 1 then Wire().last_pkt_size else Wire().pkt_size
  {
  }

  /** Whatever the state, a packet of an intact frame that is passed on is passed on as a packet of its own
      length, so the callback stays inside it. */
  lemma ChunkFits(s: State, pkt: seq<byte>, p: Packet, i: nat, n: byte)
    requires Sound(Wire(), s) && i < PACKETS && Wire().pkts_per_frame == PACKETS
    requires Header(pkt) == Some(p) && IntactAt(Wire(), p, i, n) && ChunkOf(Wire(), s, pkt).Some?
    ensures var k := ChunkOf(Wire(), s, pkt).value; k.pkt_num < PACKETS && |k.data| == PacketLength(k.pkt_num)
  {
    PacketsOfTheWire(i);
    var u := SkipLost(Wire(), Sync(s, p), p).state;
    TakenFits(Wire(), u, p);
  }

  function With(s: State, raw: seq<byte>): State { s.(raw := raw) }

  lemma SkippingWithout(c: Config, s: State, raw: seq<byte>, p: Packet)
    ensures Sync(With(s, raw), p) == With(Sync(s, p), raw) && Lost(With(s, raw), p) == Lost(s, p)
    ensures GivesUp(c, With(s, raw), p) == GivesUp(c, s, p)
    ensures SkipLost(c, With(s, raw), p) == Uncopied(SkipLost(c, s, p), raw)
    ensures c.flag % 8 == 0 ==> Check(c, With(s, raw), p) == Check(c, s, p)
  {
  }

  /** The buffer plays no part in where a packet goes and what is returned. */
  lemma RawIsNotLookedAt(c: Config, s: State, raw: seq<byte>, pkt: seq<byte>)
    requires Sound(c, s) && |raw| == |s.raw|
    ensures Sound(c, With(s, raw)) && ChunkOf(c, With(s, raw), pkt) == ChunkOf(c, s, pkt)
    ensures Uncopied(StepBytes(c, With(s, raw), pkt), raw) == Uncopied(StepBytes(c, s, pkt), raw)
  {
    hide Splice, SkipLost, GivesUp, Check, Lost, Header;
    if Header(pkt).Some? {
      var p := Header(pkt).value;
      var t := Sync(s, p);
      SkippingWithout(c, s, raw, p);
      SkippingWithout(c, t, raw, p);
      SkippingWithout(c, SkipLost(c, t, p).state, raw, p);
    }
  }

  /** A ready receiver is in the i-th packet of an intact frame after the first i packets of it. */
  lemma {:induction false} RunFilling(c: Config, s: State, f: seq<Packet>, n: byte, i: nat)
    requires Sound(c, s) && !c.variable_length && c.pkts_per_frame >= 2 && Intact(c, f, n) && Ready(s, n)
    requires 0 < i < |f|
    ensures Filling(c, Run(c, s, f[..i]), f, n, i, 0)
  {
    hide Step;
    if i == 1 {
      FirstPacket(c, s, f, n);
      assert f[..1] == [f[0]] && f[..1][1..] == [];
    } else {
      RunFilling(c, s, f, n, i - 1);
      Advance(c, Run(c, s, f[..i - 1]), f, n, i - 1, 0);
      RunSnoc(c, s, f[..i]);
      assert f[..i][..i - 1] == f[..i - 1];
    }
  }

  /** Then the next packet is passed on, with its number. */
  lemma ReadyChunk(s: State, f: seq<Packet>, n: byte, i: nat, pkt: seq<byte>)
    requires Sound(Wire(), s) && Wire().pkts_per_frame == PACKETS && Intact(Wire(), f, n) && Ready(s, n)
    requires i < |f| && Header(pkt) == Some(f[i])
    ensures ChunkOf(Wire(), Run(Wire(), s, f[..i]), pkt) == Some(Chunk(i, f[i].data))
  {
    PacketsOfTheWire(i);
    assert IntactAt(Wire(), f[i], i, n);
    if i > 0 {
      RunFilling(Wire(), s, f, n, i);
    }
  }

  lemma {:induction false} PayloadIsPrefix(f: seq<Packet>, i: nat)
    requires i <= |f|
    ensures Payload(f[..i]) <= Payload(f)
    decreases |f|
  {
    if i < |f| {
      PayloadIsPrefix(f[..|f| - 1], i);
      assert f[..|f| - 1][..i] == f[..i];
    } else {
      assert f[..i] == f;
    }
  }

  /** The payloads of an intact frame are the packets of what they make together. */
  lemma PayloadPiece(f: seq<Packet>, n: byte, i: nat)
    requires Wire().pkts_per_frame == PACKETS && Wire().Valid() && Intact(Wire(), f, n) && i < PACKETS
    ensures |Payload(f)| == FRAME_BYTES && f[i].data == PacketOf(Payload(f), i)
  {
    WholePayload(f, n);
    PieceAt(f, n, i);
    PayloadIsPrefix(f, i + 1);
    assert f[..i + 1][..i] == f[..i] && f[..i + 1][i] == f[i];
  }

  lemma PieceAt(f: seq<Packet>, n: byte, i: nat)
    requires Wire().pkts_per_frame == PACKETS && Wire().Valid() && Intact(Wire(), f, n) && i < PACKETS
    ensures |Payload(f[..i])| == PAYLOAD * i && |f[i].data| == PacketLength(i)
  {
    PacketsOfTheWire(i);
    forall j | 0 <= j <= i ensures |f[j].data| == PacketLength(j) {
      PacketsOfTheWire(j);
      assert IntactAt(Wire(), f[j], j, n);
    }
    PayloadLength(f, PAYLOAD, i);
  }

  lemma WholePayload(f: seq<Packet>, n: byte)
    requires Wire().pkts_per_frame == PACKETS && Wire().Valid() && Intact(Wire(), f, n)
    ensures |Payload(f)| == FRAME_BYTES
  {
    PieceAt(f, n, PACKETS - 1);
    assert f[..PACKETS - 1] == f[..|f| - 1];
  }

  /** The bytes of the packets on the wire. */
  predicate OnTheWire(pkts: seq<seq<byte>>, f: seq<Packet>)
  {
    |pkts| == |f| && forall i :: 0 <= i < |f| ==> Header(pkts[i]) == Some(f[i])
  }

  lemma {:induction false} RunKeepsLength(c: Config, s: State, ps: seq<Packet>)
    requires Sound(c, s)
    ensures |Run(c, s, ps).raw| == |s.raw|
    decreases |ps|
  {
    hide Step;
    if ps != [] {
      WritesInsideTheFrame(c, s, ps[0]);
      RunKeepsLength(c, Step(c, s, ps[0]).state, ps[1..]);
    }
  }

  /** The state behind i packets that were passed on and not copied. */
  function Behind(s: State, f: seq<Packet>, i: nat): State
    requires Sound(Wire(), s) && i <= |f|
  {
    With(Run(Wire(), s, f[..i]), s.raw)
  }

  lemma BehindNext(s: State, f: seq<Packet>, i: nat, pkt: seq<byte>)
    requires Sound(Wire(), s) && i < |f| && Header(pkt) == Some(f[i])
    ensures var t := Behind(s, f, i);
      && t.raw == s.raw && Sound(Wire(), t) && ChunkOf(Wire(), t, pkt) == ChunkOf(Wire(), Run(Wire(), s, f[..i]), pkt)
      && Uncopied(StepBytes(Wire(), t, pkt), s.raw).state == Behind(s, f, i + 1)
  {
    hide Step, ChunkOf, Header, Run, Config.Valid;
    var u := Run(Wire(), s, f[..i]);
    RunKeepsLength(Wire(), s, f[..i]);
    RawIsNotLookedAt(Wire(), u, s.raw, pkt);
    RunSnoc(Wire(), s, f[..i + 1]);
    assert f[..i + 1][..i] == f[..i] && f[..i + 1][i] == f[i];
  }

  /** The callback, for the packet that was passed on. */
  method Decode(buffer: array<uint16>, chunk: Option<Chunk>, ghost frame: seq<byte>, ghost p: nat)
    requires buffer.Length >= OUT_WIDTH * OUT_HEIGHT && |frame| == FRAME_BYTES && p < PACKETS
    requires chunk.Some? ==> chunk.value.pkt_num < PACKETS && |chunk.value.data| == PacketLength(chunk.value.pkt_num)
    modifies buffer
    ensures chunk == Some(Chunk(p, PacketOf(frame, p))) && old(RowsDone(frame, buffer[..], p)) ==>
      RowsDone(frame, buffer[..], p + 1)
  {
    hide RowDone, OthersKept, RowsDone;
    if chunk.Some? {
      ghost var was := buffer[..];
      DecodePacket(buffer, frame, chunk.value.data, chunk.value.pkt_num);
      if chunk == Some(Chunk(p, PacketOf(frame, p))) && RowsDone(frame, was, p) {
        NextRows(frame, was, buffer[..], p);
      }
    }
  }

  method ReceivePacket(strm: PacketStream, buffer: array<uint16>, pkt: seq<byte>, ghost s: State, ghost f: seq<Packet>,
                       ghost n: byte, ghost p: nat)
    requires strm.c == Wire() && Sound(Wire(), s) && Intact(Wire(), f, n) && Wire().pkts_per_frame == PACKETS
    requires p < PACKETS && Header(pkt) == Some(f[p]) && strm.Now() == Behind(s, f, p)
    requires buffer.Length >= OUT_WIDTH * OUT_HEIGHT && |Payload(f)| == FRAME_BYTES
    modifies strm, strm.raw_buf, buffer
    ensures strm.raw_buf == old(strm.raw_buf) && strm.Now() == Behind(s, f, p + 1)
    ensures Ready(s, n) && old(RowsDone(Payload(f), buffer[..], p)) ==> RowsDone(Payload(f), buffer[..], p + 1)
  {
    hide Step, StepBytes, ChunkOf, Header, RowsDone, Run, Behind, Ready;
    BehindNext(s, f, p, pkt);
    assert IntactAt(Wire(), f[p], p, n);
    var got, chunk := strm.StreamProcess(pkt, true);
    if chunk.Some? {
      ChunkFits(Behind(s, f, p), pkt, f[p], p, n);
    }
    if Ready(s, n) {
      ReadyChunk(s, f, n, p, pkt);
      PayloadPiece(f, n, p);
      assert chunk == Some(Chunk(p, PacketOf(Payload(f), p)));
    }
    Decode(buffer, chunk, Payload(f), p);
  }

  /** One intact frame: the receiver is ready for the next one whatever its state was, and if it was ready for this
      one every row of the output is decoded out of it. */
  method ReceiveFrame(strm: PacketStream, buffer: array<uint16>, pkts: seq<seq<byte>>, ghost f: seq<Packet>,
                      ghost n: byte)
    requires strm.c == Wire() && Sound(Wire(), strm.Now()) && Wire().Valid() && Intact(Wire(), f, n)
    requires OnTheWire(pkts, f) && buffer.Length >= OUT_WIDTH * OUT_HEIGHT
    modifies strm, strm.raw_buf, buffer
    ensures strm.raw_buf == old(strm.raw_buf) && Sound(Wire(), strm.Now())
    ensures Ready(strm.Now(), Following(Wire(), n)) && |Payload(f)| == FRAME_BYTES
    ensures old(Ready(strm.Now(), n)) ==>
      forall row :: 0 <= row < OUT_HEIGHT ==> RowDone(Payload(f), buffer[..], row)
  {
    hide Step, RowDone, RowsDone, Header, Run, Payload;
    PacketsOfTheWire(0);
    WholePayload(f, n);
    ghost var s := strm.Now();
    assert f[..0] == [] && f[..|f|] == f;
    NothingReceived(s, f, buffer[..]);
    var p := 0;
    while p < |pkts|
      invariant 0 <= p <= |pkts| == PACKETS && strm.raw_buf == old(strm.raw_buf)
      invariant strm.Now() == Behind(s, f, p)
      invariant Ready(s, n) ==> RowsDone(Payload(f), buffer[..], p)
    {
      ReceivePacket(strm, buffer, pkts[p], s, f, n, p);
      p := p + 1;
    }
    OneFrameMakesReady(Wire(), s, f, n);
    RunKeepsLength(Wire(), s, f);
    if Ready(s, n) {
      AllRows(Payload(f), buffer[..]);
    }
  }

  lemma NothingReceived(s: State, f: seq<Packet>, out: seq<uint16>)
    requires Sound(Wire(), s) && |Payload(f)| == FRAME_BYTES && |out| >= OUT_WIDTH * OUT_HEIGHT
    ensures Behind(s, f, 0) == s && RowsDone(Payload(f), out, 0)
  {
  }

  /** From any state whatever, behind two intact frames in a row the output is the second one, decoded: every row
      holds the even pixels of its source row. */
  method ReceiveTwo(strm: PacketStream, buffer: array<uint16>, first: seq<seq<byte>>, second: seq<seq<byte>>,
                    ghost f: seq<Packet>, ghost g: seq<Packet>, ghost n: byte)
    requires strm.c == Wire() && Sound(Wire(), strm.Now()) && Wire().Valid()
    requires Intact(Wire(), f, n) && Intact(Wire(), g, Following(Wire(), n))
    requires OnTheWire(first, f) && OnTheWire(second, g) && buffer.Length >= OUT_WIDTH * OUT_HEIGHT
    modifies strm, strm.raw_buf, buffer
    ensures |Payload(g)| == FRAME_BYTES
    ensures forall row :: 0 <= row < OUT_HEIGHT ==> RowDone(Payload(g), buffer[..], row)
  {
    ReceiveFrame(strm, buffer, first, f, n);
    ReceiveFrame(strm, buffer, second, g, Following(Wire(), n));
  }
}
