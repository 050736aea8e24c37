/** The isochronous packet reassembler of cameras.c. */
module PacketStreams {
  import opened Bytes
  import opened Words

  const HEADER: nat := 12
  const MAGIC0: byte := 82 // 'R'
  const MAGIC1: byte := 66 // 'B'

  /** What stream_init fixes for a run. Flags of a stream keep their low three bits free. */
  datatype Config = Config(flag: byte, variable_length: bool, pkt_size: nat, frame_size: nat, pkts_per_frame: nat,
                           last_pkt_size: nat)
  {
    function Sof(): byte requires flag % 8 == 0 { flag + 1 }
    function Mof(): byte requires flag % 8 == 0 { flag + 2 }
    function Eof(): byte requires flag % 8 == 0 { flag + 5 }

    predicate Valid()
    {
      flag % 8 == 0 && pkt_size > 0 && frame_size > 0 && this == Init(flag, variable_length, pkt_size, frame_size)
    }
  }

  /** The sizes stream_init derives from the frame and packet sizes. */
  function Init(flag: byte, variable_length: bool, pkt_size: nat, frame_size: nat): Config
    requires pkt_size > 0
  {
    Config(flag, variable_length, pkt_size, frame_size, (frame_size + pkt_size - 1) / pkt_size,
      if frame_size % pkt_size == 0 then pkt_size else frame_size % pkt_size)
  }

  /** All packets of a frame but the last are full; together they make the frame. */
  lemma FrameIsItsPackets(flag: byte, variable_length: bool, pkt_size: nat, frame_size: nat)
    requires pkt_size > 0
    ensures var c := Init(flag, variable_length, pkt_size, frame_size);
      (c.pkts_per_frame - 1) * c.pkt_size + c.last_pkt_size == frame_size && 0 < c.last_pkt_size <= pkt_size
  {
    var q, r := frame_size / pkt_size, frame_size % pkt_size;
    assert frame_size == q * pkt_size + r;
    if r == 0 {
      DivPart(q, pkt_size - 1, pkt_size);
      assert (frame_size + pkt_size - 1) / pkt_size == q;
      assert (q - 1) * pkt_size == q * pkt_size - pkt_size;
    } else {
      assert (q + 1) * pkt_size == q * pkt_size + pkt_size;
      DivPart(q + 1, r - 1, pkt_size);
    }
  }

  lemma AtLeastOne(c: Config)
    requires c.Valid()
    ensures c.pkts_per_frame > 0
  {
    FrameIsItsPackets(c.flag, c.variable_length, c.pkt_size, c.frame_size);
    assert (c.pkts_per_frame - 1) * c.pkt_size == c.pkts_per_frame * c.pkt_size - c.pkt_size;
  }

  /** The i-th packet of a frame has its place in the buffer, and payload i ends inside the frame. */
  lemma PayloadInFrame(c: Config, i: nat)
    requires c.Valid() && i < c.pkts_per_frame
    ensures var size := if i == c.pkts_per_frame - 1 then c.last_pkt_size else c.pkt_size;
      i * c.pkt_size + size <= c.frame_size
  {
    FrameIsItsPackets(c.flag, c.variable_length, c.pkt_size, c.frame_size);
    if i < c.pkts_per_frame - 1 {
      assert (i + 1) * c.pkt_size <= (c.pkts_per_frame - 1) * c.pkt_size;
      assert (i + 1) * c.pkt_size == i * c.pkt_size + c.pkt_size;
    }
  }

  /** The fields that change. */
  datatype State = State(
    synced: bool, seqno: byte, got_pkts: int, pkt_num: int, valid_pkts: int, lost_pkts: nat, valid_frames: int,
    last_timestamp: nat, timestamp: nat, raw: seq<byte>)

  /** A packet with a well-formed header. */
  datatype Packet = Packet(flag: byte, seqno: byte, timestamp: nat, data: seq<byte>)

  /** None for what is ignored at once: too short, or without the magic bytes. */
  function Header(pkt: seq<byte>): Option<Packet>
  {
    if |pkt| < HEADER || pkt[0] != MAGIC0 || pkt[1] != MAGIC1 then None
    else Some(Packet(pkt[3], pkt[5], Little32(pkt, 8), pkt[HEADER..]))
  }

  /** The header on the wire: RB, a byte of padding, the flag, one that is ignored, the sequence number, two that are
      ignored, and the time. */
  lemma HeaderIsRead(front: seq<byte>, stamp: nat, data: seq<byte>)
    requires |front| == 8 && front[0] == 82 && front[1] == 66 && stamp < 0x1_0000_0000
    ensures Header(front + LittleBytes(stamp) + data) == Some(Packet(front[3], front[5], stamp, data))
  {
    hide Little32, LittleBytes;
    var pkt := front + LittleBytes(stamp) + data;
    LittleIsRead(front, stamp, data);
    assert pkt[..8] == front && pkt[12..] == data;
    assert forall i :: 0 <= i < 8 ==> pkt[i] == front[i];
  }

  /** Anything else is ignored. */
  lemma NoHeader(pkt: seq<byte>)
    ensures Header(pkt) == None <==> |pkt| < 12 || pkt[0] != 82 || pkt[1] != 66
  {
  }

  /** The state after a step, and the frame size it returns (0: no frame yet). */
  datatype Result = Result(state: State, got: int)

  function Splice(raw: seq<byte>, at: int, data: seq<byte>): (r: seq<byte>)
    requires 0 <= at && at + |data| <= |raw|
    ensures |r| == |raw|
  {
    raw[..at] + data + raw[at + |data|..]
  }

  lemma SpliceNothing(raw: seq<byte>, at: nat, data: seq<byte>)
    requires at <= |raw|
    ensures Splice(raw, at, data[..0]) == raw
  {
  }

  lemma SpliceGrows(raw: seq<byte>, at: nat, data: seq<byte>, i: nat)
    requires i < |data| && at + |data| <= |raw|
    ensures Splice(raw, at, data[..i + 1]) == Splice(raw, at, data[..i])[at + i := data[i]]
  {
  }

  function Sync(s: State, p: Packet): State
  {
    if s.synced then s else s.(synced := true, seqno := p.seqno, pkt_num := 0, valid_pkts := 0, got_pkts := 0)
  }

  /** The number of packets missing in front of p, in 8-bit sequence arithmetic. */
  function Lost(s: State, p: Packet): nat { (p.seqno - s.seqno) % 256 }

  predicate GivesUp(c: Config, s: State, p: Packet) { s.seqno != p.seqno && (Lost(s, p) > 5 || c.variable_length) }

  /** Lost packets are skipped; when they reach past the end of the frame, it is delivered as it is. */
  function SkipLost(c: Config, s: State, p: Packet): Result
  {
    if s.seqno == p.seqno then Result(s, 0)
    else
      var lost := Lost(s, p);
      var t := s.(lost_pkts := (s.lost_pkts + lost) % TWO32, seqno := p.seqno);
      var left := c.pkts_per_frame - s.pkt_num;
      if left <= lost then
        Result(t.(pkt_num := lost - left, valid_pkts := s.got_pkts, got_pkts := 0, timestamp := s.last_timestamp,
          valid_frames := s.valid_frames + 1), c.frame_size)
      else Result(t.(pkt_num := s.pkt_num + lost), 0)
  }

  function ExpectedSize(c: Config, s: State): nat
  {
    if s.pkt_num == c.pkts_per_frame - 1 then c.last_pkt_size else c.pkt_size
  }

  /** The flag fits the place of the packet in the frame. */
  predicate FlagFits(c: Config, s: State, flag: byte)
    requires c.flag % 8 == 0
  {
    (s.pkt_num == 0 && flag == c.Sof()) ||
    if c.variable_length then s.pkt_num < c.pkts_per_frame && (flag == c.Eof() || flag == c.Mof())
    else
      (s.pkt_num == c.pkts_per_frame - 1 && flag == c.Eof()) ||
      (0 < s.pkt_num < c.pkts_per_frame - 1 && flag == c.Mof())
  }

  datatype Verdict = Take | Drop | Resync

  function Check(c: Config, s: State, p: Packet): Verdict
    requires c.flag % 8 == 0
  {
    if !FlagFits(c, s, p.flag) then Resync
    else if |p.data| > ExpectedSize(c, s) then if c.variable_length then Resync else Drop
    else if c.variable_length && |p.data| < ExpectedSize(c, s) && p.flag != c.Eof() then Resync
    else Take
  }

  /** The packet's bytes go to their place, and the end of a frame delivers it. */
  function Store(c: Config, s: State, p: Packet, got: int): Result
    requires c.flag % 8 == 0 && 0 <= s.pkt_num && s.pkt_num * c.pkt_size + |p.data| <= |s.raw|
  {
    var at := s.pkt_num * c.pkt_size;
    var t := s.(raw := Splice(s.raw, at, p.data), pkt_num := s.pkt_num + 1, seqno := (s.seqno + 1) % 256,
      got_pkts := s.got_pkts + 1, last_timestamp := p.timestamp);
    if p.flag != c.Eof() then Result(t, got)
    else
      Result(t.(pkt_num := 0, valid_pkts := t.got_pkts, got_pkts := 0, timestamp := p.timestamp,
        valid_frames := s.valid_frames + 1),
        at + if c.variable_length then |p.data| else c.last_pkt_size)
  }

  /** The buffer holds a frame; in variable-length mode the packet number is a place in it. */
  predicate Sound(c: Config, s: State)
  {
    c.Valid() && |s.raw| >= c.frame_size && (c.variable_length && s.synced ==> s.pkt_num >= 0)
  }

  lemma TakenFits(c: Config, s: State, p: Packet)
    requires Sound(c, s) && (c.variable_length ==> s.pkt_num >= 0) && Check(c, s, p) == Take
    ensures 0 <= s.pkt_num < c.pkts_per_frame && s.pkt_num * c.pkt_size + |p.data| <= c.frame_size
  {
    AtLeastOne(c);
    PayloadInFrame(c, s.pkt_num);
  }

  /** stream_process, on a packet with a header. */
  function Step(c: Config, s: State, p: Packet): (r: Result)
    requires Sound(c, s)
    ensures Sound(c, r.state)
  {
    if !s.synced && p.flag != c.Sof() then Result(s, 0)
    else
      var t := Sync(s, p);
      if GivesUp(c, t, p) then
        Result(t.(lost_pkts := (t.lost_pkts + Lost(t, p)) % TWO32, synced := false), 0)
      else
        var r := SkipLost(c, t, p);
        match Check(c, r.state, p)
        case Resync => Result(r.state.(synced := false), r.got)
        case Drop => r
        case Take => TakenFits(c, r.state, p); Store(c, r.state, p, r.got)
  }

  function StepBytes(c: Config, s: State, pkt: seq<byte>): (r: Result)
    requires Sound(c, s)
    ensures Sound(c, r.state)
  {
    match Header(pkt) case None => Result(s, 0) case Some(p) => Step(c, s, p)
  }

  /** What a chunk callback gets instead of the copy: the place of the packet, and its bytes. */
  datatype Chunk = Chunk(pkt_num: nat, data: seq<byte>)

  function ChunkOf(c: Config, s: State, pkt: seq<byte>): Option<Chunk>
    requires Sound(c, s)
  {
    match Header(pkt)
    case None => None
    case Some(p) =>
      var t := Sync(s, p);
      if (!s.synced && p.flag != c.Sof()) || GivesUp(c, t, p) then None
      else
        var u := SkipLost(c, t, p).state;
        if Check(c, u, p) == Take then TakenFits(c, u, p); Some(Chunk(u.pkt_num, p.data)) else None
  }

  /** The result of a call that has not copied anything. */
  function Uncopied(r: Result, raw: seq<byte>): Result { r.(state := r.state.(raw := raw)) }

  /** The callback gets exactly the packets that would be copied, each with its place in the frame. */
  lemma ChunkIsTheCopy(c: Config, s: State, pkt: seq<byte>)
    requires Sound(c, s)
    ensures match ChunkOf(c, s, pkt)
      case None => StepBytes(c, s, pkt).state.raw == s.raw
      case Some(k) =>
        && k.pkt_num < c.pkts_per_frame && k.pkt_num * c.pkt_size + |k.data| <= c.frame_size
        && StepBytes(c, s, pkt).state.raw == Splice(s.raw, k.pkt_num * c.pkt_size, k.data)
  {
    hide Splice;
    if Header(pkt).Some? {
      var p := Header(pkt).value;
      var u := SkipLost(c, Sync(s, p), p).state;
      if ChunkOf(c, s, pkt).Some? {
        TakenFits(c, u, p);
      }
    }
  }

  class PacketStream {
    const c: Config
    var synced: bool
    var seqno: byte
    var got_pkts: int
    var pkt_num: int
    var valid_pkts: int
    var lost_pkts: nat
    var valid_frames: int
    var last_timestamp: nat
    var timestamp: nat
    var raw_buf: array<byte>

    ghost function Now(): State
      reads this, raw_buf
    {
      State(synced, seqno, got_pkts, pkt_num, valid_pkts, lost_pkts, valid_frames, last_timestamp, timestamp,
            raw_buf[..])
    }

    /** stream_init: out of sync, with a buffer for a whole frame. */
    constructor (flag: byte, variable_length: bool, pkt_size: nat, raw: array<byte>)
      requires flag % 8 == 0 && pkt_size > 0 && raw.Length > 0
      ensures c == Init(flag, variable_length, pkt_size, raw.Length) && raw_buf == raw
      ensures Sound(c, Now()) && !synced && valid_frames == 0
    {
      c := Init(flag, variable_length, pkt_size, raw.Length);
      synced, seqno, got_pkts, pkt_num, valid_pkts, lost_pkts, valid_frames := false, 0, 0, 0, 0, 0, 0;
      last_timestamp, timestamp := 0, 0;
      raw_buf := raw;
    }

    method Copy(at: nat, data: seq<byte>)
      requires at + |data| <= raw_buf.Length
      modifies raw_buf
      ensures raw_buf[..] == Splice(old(raw_buf[..]), at, data)
    {
      SpliceNothing(raw_buf[..], at, data);
      hide Splice;
      var i := 0;
      while i < |data|
        invariant 0 <= i <= |data|
        invariant raw_buf[..] == Splice(old(raw_buf[..]), at, data[..i])
      {
        SpliceGrows(old(raw_buf[..]), at, data, i);
        raw_buf[at + i] := data[i];
        i := i + 1;
      }
      assert data[..i] == data;
    }

    /** The loss handling of stream_process. */
    method HandleLost(p: Packet) returns (gave_up: bool, got: int)
      requires Sound(c, Now()) && synced
      modifies this`synced, this`seqno, this`got_pkts, this`pkt_num, this`valid_pkts, this`lost_pkts,
        this`valid_frames, this`timestamp
      ensures gave_up <==> GivesUp(c, old(Now()), p)
      ensures gave_up ==>
        got == 0 && Now() == old(Now()).(lost_pkts := (old(lost_pkts) + Lost(old(Now()), p)) % TWO32, synced := false)
      ensures !gave_up ==> Result(Now(), got) == SkipLost(c, old(Now()), p)
    {
      gave_up, got := false, 0;
      if seqno != p.seqno {
        var lost := (p.seqno as int - seqno as int) % 256;
        lost_pkts := (lost_pkts + lost) % TWO32;
        if lost > 5 || c.variable_length {
          synced := false;
          return true, 0;
        }
        seqno := p.seqno;
        var left := c.pkts_per_frame - pkt_num;
        if left <= lost {
          pkt_num := lost - left;
          valid_pkts := got_pkts;
          got_pkts := 0;
          got := c.frame_size;
          timestamp := last_timestamp;
          valid_frames := valid_frames + 1;
        } else {
          pkt_num := pkt_num + lost;
        }
      }
    }

    /** Copying the payload, or leaving it to the chunk callback, and delivering at the end of a frame. */
    method TakePacket(p: Packet, got: int, cb: bool) returns (size: int, chunk: Option<Chunk>)
      requires Sound(c, Now()) && 0 <= pkt_num && pkt_num * c.pkt_size + |p.data| <= c.frame_size
      modifies this`seqno, this`got_pkts, this`pkt_num, this`valid_pkts, this`valid_frames, this`timestamp,
        this`last_timestamp, raw_buf
      ensures raw_buf == old(raw_buf) && chunk == if cb then Some(Chunk(old(pkt_num), p.data)) else None
      ensures var r := Store(c, old(Now()), p, got);
        Result(Now(), size) == if cb then Uncopied(r, old(raw_buf[..])) else r
    {
      hide Splice;
      var at := pkt_num * c.pkt_size;
      chunk := None;
      if cb {
        chunk := Some(Chunk(pkt_num, p.data));
      } else {
        Copy(at, p.data);
      }
      pkt_num := pkt_num + 1;
      seqno := (seqno as int + 1) % 256;
      got_pkts := got_pkts + 1;
      last_timestamp := p.timestamp;
      size := got;
      if p.flag == c.Eof() {
        size := at + if c.variable_length then |p.data| else c.last_pkt_size;
        pkt_num := 0;
        valid_pkts := got_pkts;
        got_pkts := 0;
        timestamp := last_timestamp;
        valid_frames := valid_frames + 1;
      }
    }

    /** stream_process, with or without a chunk callback. */
    method StreamProcess(pkt: seq<byte>, cb: bool) returns (got: int, chunk: Option<Chunk>)
      requires Sound(c, Now())
      modifies this, raw_buf
      ensures raw_buf == old(raw_buf) && Sound(c, Now())
      ensures chunk == if cb then ChunkOf(c, old(Now()), pkt) else None
      ensures var r := StepBytes(c, old(Now()), pkt);
        Result(Now(), got) == if cb then Uncopied(r, old(raw_buf[..])) else r
    {
      hide Splice;
      got, chunk := 0, None;
      var header := Header(pkt);
      if header == None {
        return;
      }
      var p := header.value;
      if !synced {
        if p.flag != c.Sof() {
          return;
        }
        synced, seqno, pkt_num, valid_pkts, got_pkts := true, p.seqno, 0, 0, 0;
      }
      var gave_up;
      gave_up, got := HandleLost(p);
      if gave_up {
        return;
      }
      var verdict := Verdict(p);
      if verdict == Resync {
        synced := false;
      } else if verdict == Take {
        TakenFits(c, Now(), p);
        got, chunk := TakePacket(p, got, cb);
      }
    }

    /** The header and length checks. */
    method Verdict(p: Packet) returns (v: Verdict)
      requires Sound(c, Now())
      ensures v == Check(c, Now(), p)
    {
      var expected := if pkt_num == c.pkts_per_frame - 1 then c.last_pkt_size else c.pkt_size;
      if !c.variable_length {
        if !(pkt_num == 0 && p.flag == c.Sof()) &&
           !(pkt_num == c.pkts_per_frame - 1 && p.flag == c.Eof()) &&
           !(pkt_num > 0 && pkt_num < c.pkts_per_frame - 1 && p.flag == c.Mof()) {
          return Resync;
        }
        if |p.data| > expected {
          return Drop;
        }
      } else {
        if !(pkt_num == 0 && p.flag == c.Sof()) &&
           !(pkt_num < c.pkts_per_frame && (p.flag == c.Eof() || p.flag == c.Mof())) {
          return Resync;
        }
        if |p.data| > expected || (|p.data| < expected && p.flag != c.Eof()) {
          return Resync;
        }
      }
      return Take;
    }
  }
}
