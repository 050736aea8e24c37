/** What the reassembler keeps over whole runs, and how it finds its way back into step. */
module PacketRuns {
  import opened Bytes
  import opened PacketStreams

  // ---- safety, for every packet sequence ----

  /** Fixed-length mode: every call returns no frame or a whole one. */
  lemma ReturnsNothingOrAFrame(c: Config, s: State, p: Packet)
    requires Sound(c, s) && !c.variable_length
    ensures var r := Step(c, s, p); r.got == 0 || r.got == c.frame_size
  {
    var t := Sync(s, p);
    if s.synced || p.flag == c.Sof() {
      if !GivesUp(c, t, p) {
        var r := SkipLost(c, t, p);
        if Check(c, r.state, p) == Take && p.flag == c.Eof() {
          EndsTheFrame(c, r.state, p);
        }
      }
    }
  }

  lemma EndsTheFrame(c: Config, s: State, p: Packet)
    requires Sound(c, s) && !c.variable_length && Check(c, s, p) == Take && p.flag == c.Eof()
    ensures s.pkt_num == c.pkts_per_frame - 1 && s.pkt_num * c.pkt_size + c.last_pkt_size == c.frame_size
  {
    FrameIsItsPackets(c.flag, c.variable_length, c.pkt_size, c.frame_size);
  }

  lemma SpliceInside(raw: seq<byte>, at: nat, data: seq<byte>, n: nat)
    requires at + |data| <= n <= |raw|
    ensures Splice(raw, at, data)[n..] == raw[n..]
  {
  }

  /** No byte behind the frame is ever written. */
  lemma WritesInsideTheFrame(c: Config, s: State, p: Packet)
    requires Sound(c, s)
    ensures var r := Step(c, s, p).state; |r.raw| == |s.raw| && r.raw[c.frame_size..] == s.raw[c.frame_size..]
  {
    hide Splice;
    var t := Sync(s, p);
    if (s.synced || p.flag == c.Sof()) && !GivesUp(c, t, p) {
      var r := SkipLost(c, t, p);
      if Check(c, r.state, p) == Take {
        TakenFits(c, r.state, p);
        SpliceInside(s.raw, r.state.pkt_num * c.pkt_size, p.data, c.frame_size);
      }
    }
  }

  /** While synced, the counters lie inside the frame. */
  predicate InStep(c: Config, s: State)
  {
    s.synced ==> 0 <= s.got_pkts <= s.pkt_num < c.pkts_per_frame
  }

  lemma StepKeepsInStep(c: Config, s: State, p: Packet)
    requires Sound(c, s) && !c.variable_length && c.pkts_per_frame >= 2 && InStep(c, s)
    ensures InStep(c, Step(c, s, p).state)
  {
  }

  function Run(c: Config, s: State, ps: seq<Packet>): (r: State)
    requires Sound(c, s)
    ensures Sound(c, r)
    decreases |ps|
  {
    if ps == [] then s else Run(c, Step(c, s, ps[0]).state, ps[1..])
  }

  /** From stream_init on, after any packets: the counters, and what lies behind the frame. */
  lemma {:induction false} SafeRuns(c: Config, s: State, ps: seq<Packet>)
    requires Sound(c, s) && !c.variable_length && c.pkts_per_frame >= 2 && InStep(c, s)
    ensures InStep(c, Run(c, s, ps)) && |Run(c, s, ps).raw| == |s.raw|
    ensures Run(c, s, ps).raw[c.frame_size..] == s.raw[c.frame_size..]
    decreases |ps|
  {
    if ps != [] {
      StepKeepsInStep(c, s, ps[0]);
      WritesInsideTheFrame(c, s, ps[0]);
      SafeRuns(c, Step(c, s, ps[0]).state, ps[1..]);
    }
  }

  /** A stream of one-packet frames is different: its start packet leaves the counter at the end. */
  lemma OnePacketFramesLeaveStep(c: Config, s: State, p: Packet)
    requires Sound(c, s) && !c.variable_length && c.pkts_per_frame == 1 && !s.synced
    requires p.flag == c.Sof() && |p.data| <= c.last_pkt_size
    ensures InStep(c, s) && !InStep(c, Step(c, s, p).state)
  {
  }

  // ---- self-stabilisation ----

  function PlaceFlag(c: Config, i: nat): byte
    requires c.Valid() && i < c.pkts_per_frame
  {
    if i == 0 then c.Sof() else if i == c.pkts_per_frame - 1 then c.Eof() else c.Mof()
  }

  /** A frame as the device sends it, its packets numbered from n. */
  predicate Intact(c: Config, f: seq<Packet>, n: byte)
    requires c.Valid()
  {
    |f| == c.pkts_per_frame && forall i :: 0 <= i < |f| ==> IntactAt(c, f[i], i, n)
  }

  predicate IntactAt(c: Config, p: Packet, i: nat, n: byte)
    requires c.Valid() && i < c.pkts_per_frame
  {
    p.flag == PlaceFlag(c, i) && p.seqno == (n + i) % 256 &&
    |p.data| == if i == c.pkts_per_frame - 1 then c.last_pkt_size else c.pkt_size
  }

  function Payload(f: seq<Packet>): seq<byte>
  {
    if f == [] then [] else Payload(f[..|f| - 1]) + f[|f| - 1].data
  }

  /** The payloads in front of the i-th packet fill the buffer up to its place. */
  lemma {:induction false} PayloadLength(f: seq<Packet>, size: nat, i: nat)
    requires i <= |f| && forall j :: 0 <= j < i ==> |f[j].data| == size
    ensures |Payload(f[..i])| == i * size
  {
    if i > 0 {
      PayloadLength(f, size, i - 1);
      assert f[..i][..i - 1] == f[..i - 1] && f[..i][i - 1] == f[i - 1];
      assert i * size == (i - 1) * size + size;
    }
  }

  /** Mid-frame, in step: the first i packets are in the buffer. A state that was never in step may
      have counted some packets too many. */
  predicate Filling(c: Config, s: State, f: seq<Packet>, n: byte, i: nat, extra: int)
    requires c.Valid()
  {
    s.synced && s.seqno == (n + i) % 256 && s.pkt_num == i && s.got_pkts == i + extra && i <= |f| &&
      Payload(f[..i]) <= s.raw
  }

  /** The number of the first packet behind a frame numbered from n. */
  function Following(c: Config, n: byte): byte { (n + c.pkts_per_frame) % 256 }

  /** Out of step or exactly in front of a frame numbered from n. */
  predicate Ready(s: State, n: byte)
  {
    !s.synced || (s.seqno == n && s.pkt_num == 0 && s.got_pkts == 0)
  }

  lemma SpliceExtends(raw: seq<byte>, done: seq<byte>, data: seq<byte>)
    requires done <= raw && |done| + |data| <= |raw|
    ensures done + data <= Splice(raw, |done|, data)
  {
    assert raw[..|done|] == done;
  }

  /** An expected packet is stored at its place. */
  lemma Advance(c: Config, s: State, f: seq<Packet>, n: byte, i: nat, extra: int)
    requires Sound(c, s) && !c.variable_length && c.pkts_per_frame >= 2 && Intact(c, f, n) && i < |f| &&
      Filling(c, s, f, n, i, extra)
    ensures var r := Step(c, s, f[i]);
      if i + 1 < |f| then r.got == 0 && Filling(c, r.state, f, n, i + 1, extra)
      else r.got == c.frame_size && Delivered(c, r.state, f, extra) && Ready(r.state, Following(c, n))
  {
    var p := f[i];
    assert IntactAt(c, p, i, n);
    forall j | 0 <= j < i ensures |f[j].data| == c.pkt_size {
      assert IntactAt(c, f[j], j, n);
    }
    PayloadLength(f, c.pkt_size, i);
    PayloadInFrame(c, i);
    FrameIsItsPackets(c.flag, c.variable_length, c.pkt_size, c.frame_size);
    SpliceExtends(s.raw, Payload(f[..i]), p.data);
    assert f[..i + 1][..i] == f[..i];
    assert Check(c, s, p) == Take;
    NextNumber(n, i);
  }

  lemma NextNumber(n: nat, i: nat)
    ensures ((n + i) % 256 + 1) % 256 == (n + (i + 1)) % 256
  {
  }

  /** The whole frame, its timestamp and its packet count, as the callback sees them. */
  predicate Delivered(c: Config, s: State, f: seq<Packet>, extra: int)
    requires c.Valid() && |f| == c.pkts_per_frame
  {
    Payload(f) <= s.raw && |Payload(f)| == c.frame_size && s.valid_pkts == c.pkts_per_frame + extra &&
    (|f| > 0 ==> s.timestamp == f[|f| - 1].timestamp)
  }

  /** Whatever the state, the first packet of a frame is stored at the start, or the stream falls
      out of sync. */
  lemma FirstPacket(c: Config, s: State, f: seq<Packet>, n: byte)
    requires Sound(c, s) && !c.variable_length && c.pkts_per_frame >= 2 && Intact(c, f, n)
    ensures var r := Step(c, s, f[0]).state; !r.synced || Filling(c, r, f, n, 1, r.got_pkts - 1)
    ensures Ready(s, n) ==> Step(c, s, f[0]).got == 0 && Filling(c, Step(c, s, f[0]).state, f, n, 1, 0)
  {
    var p := f[0];
    assert IntactAt(c, p, 0, n);
    var t := Sync(s, p);
    if !GivesUp(c, t, p) {
      var r := SkipLost(c, t, p).state;
      if r.pkt_num == 0 {
        assert Check(c, r, p) == Take;
        TakenFits(c, r, p);
        FirstPayload(f);
        SpliceExtends(r.raw, [], p.data);
        assert [] + p.data == p.data;
        NextNumber(n, 0);
      } else {
        assert Check(c, r, p) == Resync;
      }
    }
  }

  lemma FirstPayload(f: seq<Packet>)
    requires f != []
    ensures Payload(f[..1]) == f[0].data
  {
    assert f[..1][..0] == [] && Payload([]) == [] && [] + f[0].data == f[0].data;
  }

  /** Out of sync, everything but the start of a frame is ignored. */
  lemma StaysOut(c: Config, s: State, p: Packet, i: nat, n: byte)
    requires Sound(c, s) && c.pkts_per_frame >= 2 && !s.synced && 0 < i < c.pkts_per_frame && IntactAt(c, p, i, n)
    ensures Step(c, s, p) == Result(s, 0)
  {
  }

  lemma {:induction false} RestOut(c: Config, s: State, f: seq<Packet>, n: byte, i: nat)
    requires Sound(c, s) && c.pkts_per_frame >= 2 && !s.synced && Intact(c, f, n) && 0 < i <= |f|
    ensures Run(c, s, f[i..]) == s
    decreases |f| - i
  {
    if i < |f| {
      assert IntactAt(c, f[i], i, n);
      StaysOut(c, s, f[i], i, n);
      assert f[i..][0] == f[i] && f[i..][1..] == f[i + 1..];
      RestOut(c, s, f, n, i + 1);
    }
  }

  /** The last step of a run. */
  function LastStep(c: Config, s: State, ps: seq<Packet>): Result
    requires Sound(c, s) && ps != []
  {
    Step(c, Run(c, s, ps[..|ps| - 1]), ps[|ps| - 1])
  }

  lemma {:induction false} RunSnoc(c: Config, s: State, ps: seq<Packet>)
    requires Sound(c, s) && ps != []
    ensures Run(c, s, ps) == LastStep(c, s, ps).state
    decreases |ps|
  {
    if |ps| > 1 {
      var t := Step(c, s, ps[0]).state;
      RunSnoc(c, t, ps[1..]);
      assert ps[1..][..|ps| - 2] == ps[..|ps| - 1][1..];
    }
  }

  lemma {:induction false} RunConcat(c: Config, s: State, a: seq<Packet>, b: seq<Packet>)
    requires Sound(c, s)
    ensures Run(c, s, a + b) == Run(c, Run(c, s, a), b)
    decreases |a|
  {
    if a == [] {
      assert a + b == b;
    } else {
      assert (a + b)[1..] == a[1..] + b;
      RunConcat(c, Step(c, s, a[0]).state, a[1..], b);
    }
  }

  lemma SplitFirst(c: Config, s: State, f: seq<Packet>)
    requires Sound(c, s) && |f| >= 2
    ensures LastStep(c, s, f) == LastStep(c, Step(c, s, f[0]).state, f[1..])
    ensures Run(c, s, f) == Run(c, Step(c, s, f[0]).state, f[1..])
  {
    assert f[..|f| - 1][1..] == f[1..][..|f| - 2];
  }

  /** In step from the i-th packet on, the frame is delivered with its last packet. */
  lemma {:induction false} RestIn(c: Config, s: State, f: seq<Packet>, n: byte, i: nat, extra: int)
    requires Sound(c, s) && !c.variable_length && c.pkts_per_frame >= 2 && Intact(c, f, n) && i < |f| &&
      Filling(c, s, f, n, i, extra)
    ensures var r := LastStep(c, s, f[i..]);
      r.got == c.frame_size && Delivered(c, r.state, f, extra) && Ready(r.state, Following(c, n))
    decreases |f| - i
  {
    hide Step;
    Advance(c, s, f, n, i, extra);
    if i + 1 == |f| {
      assert f[i..] == [f[i]] && f[i..][..0] == [];
    } else {
      RestIn(c, Step(c, s, f[i]).state, f, n, i + 1, extra);
      SplitFirst(c, s, f[i..]);
      assert f[i..][1..] == f[i + 1..];
    }
  }

  /** After one intact frame the stream is ready for the next, whatever its state was. */
  lemma OneFrameMakesReady(c: Config, s: State, f: seq<Packet>, n: byte)
    requires Sound(c, s) && !c.variable_length && c.pkts_per_frame >= 2 && Intact(c, f, n)
    ensures Ready(Run(c, s, f), Following(c, n))
  {
    var t := Step(c, s, f[0]).state;
    FirstPacket(c, s, f, n);
    SplitFirst(c, s, f);
    if t.synced {
      RestIn(c, t, f, n, 1, t.got_pkts - 1);
      RunSnoc(c, t, f[1..]);
    } else {
      RestOut(c, t, f, n, 1);
    }
  }

  /** From a ready state, an intact frame is delivered by its last packet, and leaves a ready state. */
  lemma ReadyDelivers(c: Config, s: State, f: seq<Packet>, n: byte)
    requires Sound(c, s) && !c.variable_length && c.pkts_per_frame >= 2 && Intact(c, f, n) && Ready(s, n)
    ensures var r := LastStep(c, s, f);
      r.got == c.frame_size && Delivered(c, r.state, f, 0) && Run(c, s, f) == r.state
      && Ready(r.state, Following(c, n))
  {
    FirstPacket(c, s, f, n);
    SplitFirst(c, s, f);
    RestIn(c, Step(c, s, f[0]).state, f, n, 1, 0);
    RunSnoc(c, s, f);
  }

  lemma LastOfTwo(c: Config, s: State, f: seq<Packet>, g: seq<Packet>)
    requires Sound(c, s) && g != []
    ensures LastStep(c, s, f + g) == LastStep(c, Run(c, s, f), g)
  {
    assert (f + g)[..|f + g| - 1] == f + g[..|g| - 1];
    RunConcat(c, s, f, g[..|g| - 1]);
  }

  /** Self-stabilisation: from any state whatever, the second of two intact frames in a row is
      returned by its last packet, the buffer holding exactly its payloads. */
  lemma SelfStabilising(c: Config, s: State, f: seq<Packet>, g: seq<Packet>, n: byte)
    requires Sound(c, s) && !c.variable_length && c.pkts_per_frame >= 2
    requires Intact(c, f, n) && Intact(c, g, Following(c, n))
    ensures var r := LastStep(c, s, f + g);
      r.got == c.frame_size && r.state.raw[..c.frame_size] == Payload(g)
      && r.state.timestamp == g[|g| - 1].timestamp && r.state.valid_pkts == c.pkts_per_frame
  {
    OneFrameMakesReady(c, s, f, n);
    ReadyDelivers(c, Run(c, s, f), g, Following(c, n));
    LastOfTwo(c, s, f, g);
  }

  /** An uninterrupted sequence of intact frames, numbered from n. */
  predicate Consecutive(c: Config, fs: seq<seq<Packet>>, n: byte)
    requires c.Valid()
    decreases |fs|
  {
    fs == [] || (Intact(c, fs[0], n) && Consecutive(c, fs[1..], Following(c, n)))
  }

  /** Each frame is delivered whole by its last packet. */
  predicate AllDelivered(c: Config, s: State, fs: seq<seq<Packet>>)
    requires Sound(c, s) && forall i :: 0 <= i < |fs| ==> |fs[i]| == c.pkts_per_frame > 0
    decreases |fs|
  {
    fs == [] ||
    (LastStep(c, s, fs[0]).got == c.frame_size && Delivered(c, LastStep(c, s, fs[0]).state, fs[0], 0) &&
     AllDelivered(c, Run(c, s, fs[0]), fs[1..]))
  }

  lemma {:induction false} FrameSizes(c: Config, fs: seq<seq<Packet>>, n: byte)
    requires c.Valid() && Consecutive(c, fs, n)
    ensures forall i :: 0 <= i < |fs| ==> |fs[i]| == c.pkts_per_frame > 0
    decreases |fs|
  {
    AtLeastOne(c);
    if fs != [] {
      FrameSizes(c, fs[1..], Following(c, n));
      assert forall i :: 0 < i < |fs| ==> fs[i] == fs[1..][i - 1];
    }
  }

  lemma {:induction false} ReadyDeliversAll(c: Config, s: State, fs: seq<seq<Packet>>, n: byte)
    requires Sound(c, s) && !c.variable_length && c.pkts_per_frame >= 2 && Consecutive(c, fs, n) && Ready(s, n)
    requires forall i :: 0 <= i < |fs| ==> |fs[i]| == c.pkts_per_frame > 0
    ensures AllDelivered(c, s, fs)
    decreases |fs|
  {
    if fs != [] {
      ReadyDelivers(c, s, fs[0], n);
      ReadyDeliversAll(c, Run(c, s, fs[0]), fs[1..], Following(c, n));
    }
  }

  /** From any state, all but the first frame of an uninterrupted sequence are delivered. */
  lemma AllButTheFirst(c: Config, s: State, f: seq<Packet>, fs: seq<seq<Packet>>, n: byte)
    requires Sound(c, s) && !c.variable_length && c.pkts_per_frame >= 2
    requires Intact(c, f, n) && Consecutive(c, fs, Following(c, n))
    ensures (forall i :: 0 <= i < |fs| ==> |fs[i]| == c.pkts_per_frame > 0) && AllDelivered(c, Run(c, s, f), fs)
  {
    var m := Following(c, n);
    FrameSizes(c, fs, m);
    OneFrameMakesReady(c, s, f, n);
    ReadyDeliversAll(c, Run(c, s, f), fs, m);
  }

  /** One frame is not enough: two-packet frames, out of step by one packet. */
  lemma OneFrameIsNotEnough()
    ensures var c := Init(0x70, false, 1, 2);
      var s := State(true, 0, 1, 1, 0, 0, 0, 0, 0, [0, 0]);
      var f := [Packet(0x71, 0, 0, [7]), Packet(0x75, 1, 0, [8])];
      Sound(c, s) && InStep(c, s) && Intact(c, f, 0) && LastStep(c, s, f).got == 0
  {
    var c := Init(0x70, false, 1, 2);
    var s := State(true, 0, 1, 1, 0, 0, 0, 0, 0, [0, 0]);
    var f := [Packet(0x71, 0, 0, [7]), Packet(0x75, 1, 0, [8])];
    assert c == Config(0x70, false, 1, 2, 2, 1);
    forall i | 0 <= i < |f| ensures IntactAt(c, f[i], i, 0) {
      assert i == 0 || i == 1;
    }
    var t := Step(c, s, f[0]).state;
    assert t == s.(synced := false);
    assert f[..1] == [f[0]] && f[..1][1..] == [];
    assert Run(c, s, f[..1]) == t;
    StaysOut(c, t, f[1], 1, 0);
  }
}
