/** What the receiver makes of a frame with packets missing, in numbers: places, counters and sequence numbers. */
module PacketLosses {
  import opened Bytes
  import opened Words
  import opened PacketStreams
  import opened PacketRuns

  // ---- the places of the packets in the buffer ----

  function Length(c: Config, i: nat): nat { if i == c.pkts_per_frame - 1 then c.last_pkt_size else c.pkt_size }

  lemma PlaceFits(c: Config, i: nat)
    requires c.Valid() && i < c.pkts_per_frame
    ensures i * c.pkt_size + Length(c, i) <= c.frame_size && Length(c, i) <= c.pkt_size
  {
    PayloadInFrame(c, i);
    FrameIsItsPackets(c.flag, c.variable_length, c.pkt_size, c.frame_size);
  }

  /** What is at the i-th place. */
  function Piece(c: Config, raw: seq<byte>, i: nat): seq<byte>
    requires c.Valid() && i < c.pkts_per_frame && |raw| >= c.frame_size
  {
    PlaceFits(c, i);
    raw[i * c.pkt_size..i * c.pkt_size + Length(c, i)]
  }

  lemma PlacesApart(c: Config, i: nat, k: nat)
    requires c.Valid() && i < k < c.pkts_per_frame
    ensures i * c.pkt_size + Length(c, i) <= k * c.pkt_size
  {
    PlaceFits(c, i);
    assert (i + 1) * c.pkt_size <= k * c.pkt_size;
    assert (i + 1) * c.pkt_size == i * c.pkt_size + c.pkt_size;
  }

  lemma SpliceAway(raw: seq<byte>, at: nat, data: seq<byte>, a: nat, b: nat)
    requires at + |data| <= |raw| && a <= b <= |raw| && (b <= at || at + |data| <= a)
    ensures Splice(raw, at, data)[a..b] == raw[a..b]
  {
    var r := Splice(raw, at, data);
    assert forall x :: a <= x < b ==> r[x] == raw[x];
  }

  lemma SpliceHere(raw: seq<byte>, at: nat, data: seq<byte>)
    requires at + |data| <= |raw|
    ensures Splice(raw, at, data)[at..at + |data|] == data
  {
  }

  /** A packet that is stored changes its own place and no other. */
  lemma StoredPiece(c: Config, raw: seq<byte>, k: nat, data: seq<byte>, i: nat)
    requires c.Valid() && k < c.pkts_per_frame && i < c.pkts_per_frame && |raw| >= c.frame_size
    requires |data| == Length(c, k)
    ensures k * c.pkt_size + |data| <= |raw|
    ensures Piece(c, Splice(raw, k * c.pkt_size, data), i) == if i == k then data else Piece(c, raw, i)
  {
    hide Splice;
    PlaceFits(c, k);
    PlaceFits(c, i);
    if i == k {
      SpliceHere(raw, k * c.pkt_size, data);
    } else {
      if i < k {
        PlacesApart(c, i, k);
      } else {
        PlacesApart(c, k, i);
      }
      SpliceAway(raw, k * c.pkt_size, data, i * c.pkt_size, i * c.pkt_size + Length(c, i));
    }
  }

  // ---- losses inside a frame ----

  /** The numbers of the packets of a frame that arrive: the first, the last, and never more than five missing
      in between. */
  predicate Arriving(kept: seq<nat>, count: nat)
  {
    && |kept| >= 2 && kept[0] == 0 && kept[|kept| - 1] == count - 1
    && forall j :: 0 <= j < |kept| - 1 ==> kept[j] < kept[j + 1] <= kept[j] + 6
  }

  lemma {:induction false} Increasing(kept: seq<nat>, count: nat, i: nat, j: nat)
    requires Arriving(kept, count) && i < j < |kept|
    ensures kept[i] < kept[j] && j <= kept[j] && kept[j] + (|kept| - 1 - j) <= count - 1
    decreases j - i
  {
    if i + 1 < j {
      Increasing(kept, count, i, j - 1);
    }
    AtLeast(kept, count, j);
    AtMost(kept, count, j);
  }

  lemma {:induction false} AtLeast(kept: seq<nat>, count: nat, j: nat)
    requires Arriving(kept, count) && j < |kept|
    ensures j <= kept[j]
  {
    if j > 0 {
      AtLeast(kept, count, j - 1);
    }
  }

  lemma {:induction false} AtMost(kept: seq<nat>, count: nat, j: nat)
    requires Arriving(kept, count) && j < |kept|
    ensures kept[j] + (|kept| - 1 - j) <= count - 1
    decreases |kept| - j
  {
    if j < |kept| - 1 {
      AtMost(kept, count, j + 1);
    }
  }

  function Picked(f: seq<Packet>, kept: seq<nat>): (ps: seq<Packet>)
    requires forall j :: 0 <= j < |kept| ==> kept[j] < |f|
    ensures |ps| == |kept|
  {
    seq(|kept|, j requires 0 <= j < |kept| => f[kept[j]])
  }

  /** The places of the first j that arrived hold them, and the others what they held before. */
  predicate Holding(c: Config, f: seq<Packet>, kept: seq<nat>, j: nat, raw: seq<byte>, before: seq<byte>)
    requires c.Valid() && |f| == c.pkts_per_frame && j <= |kept|
  {
    && |raw| == |before| >= c.frame_size
    && forall i :: 0 <= i < c.pkts_per_frame ==>
         Piece(c, raw, i) == if i in kept[..j] then f[i].data else Piece(c, before, i)
  }

  lemma HoldsOneMore(c: Config, f: seq<Packet>, kept: seq<nat>, j: nat, raw: seq<byte>, before: seq<byte>)
    requires c.Valid() && |f| == c.pkts_per_frame && j < |kept| && kept[j] < |f|
    requires |f[kept[j]].data| == Length(c, kept[j])
    requires Holding(c, f, kept, j, raw, before)
    ensures kept[j] * c.pkt_size + |f[kept[j]].data| <= |raw|
    ensures Holding(c, f, kept, j + 1, Splice(raw, kept[j] * c.pkt_size, f[kept[j]].data), before)
  {
    hide Piece, Splice, Config.Valid;
    var k := kept[j];
    var data := f[k].data;
    PlaceFits(c, k);
    var next := Splice(raw, k * c.pkt_size, data);
    forall i | 0 <= i < c.pkts_per_frame
      ensures Piece(c, next, i) == if i in kept[..j + 1] then f[i].data else Piece(c, before, i)
    {
      StoredPiece(c, raw, k, data, i);
      OneMoreKept(kept, j, i);
    }
  }

  lemma OneMoreKept(kept: seq<nat>, j: nat, i: nat)
    requires j < |kept|
    ensures i in kept[..j + 1] <==> i in kept[..j] || i == kept[j]
  {
    assert kept[..j + 1] == kept[..j] + [kept[j]];
  }

  /** The receiver behind packet k of a frame numbered from n, j packets of which have arrived, from state s on. */
  predicate Behind(c: Config, s: State, f: seq<Packet>, n: byte, k: nat, j: nat, t: State)
    requires k < |f|
  {
    && t.synced && t.seqno == (n + k + 1) % 256 && t.pkt_num == k + 1 && t.got_pkts == j
    && t.lost_pkts % 0x1_0000_0000 == (s.lost_pkts + k + 1 - j) % 0x1_0000_0000
    && t.valid_frames == s.valid_frames && t.last_timestamp == f[k].timestamp
  }

  lemma Distance(n: nat, k: nat, g: nat)
    requires g < 256
    ensures ((n + k + g) % 256 - (n + k) % 256) % 256 == g
  {
  }

  lemma MoreLost(a: nat, b: nat, x: nat)
    requires a % 0x1_0000_0000 == b % 0x1_0000_0000
    ensures (a + x) % 0x1_0000_0000 % 0x1_0000_0000 == (b + x) % 0x1_0000_0000
  {
  }

  /** The receiver has skipped what was missing in front of packet k. */
  predicate InFront(c: Config, s: State, n: byte, k: nat, j: nat, t: State)
  {
    && t.synced && t.seqno == (n + k) % 256 && t.pkt_num == k && t.got_pkts == j
    && t.lost_pkts % 0x1_0000_0000 == (s.lost_pkts + k - j) % 0x1_0000_0000 && t.valid_frames == s.valid_frames
  }

  /** A gap of at most five is skipped. */
  lemma Skips(c: Config, s: State, f: seq<Packet>, n: byte, k: nat, j: nat, t: State, k': nat)
    requires Sound(c, t) && !c.variable_length && Intact(c, f, n) && k < k' < |f| && k' <= k + 6 && j <= k + 1
    requires Behind(c, s, f, n, k, j, t)
    ensures !GivesUp(c, t, f[k']) && SkipLost(c, t, f[k']).got == 0
    ensures InFront(c, s, n, k', j, SkipLost(c, t, f[k']).state) && SkipLost(c, t, f[k']).state.raw == t.raw
  {
    hide Config.Valid;
    assert IntactAt(c, f[k'], k', n);
    var g := k' - (k + 1);
    Distance(n, k + 1, g);
    MoreLost(t.lost_pkts, s.lost_pkts + k + 1 - j, g);
    assert Lost(t, f[k']) == g;
    SkipsGap(c, t, f[k'], g);
  }

  lemma SkipsGap(c: Config, t: State, p: Packet, g: nat)
    requires !c.variable_length && g <= 5 && Lost(t, p) == g && t.pkt_num + g < c.pkts_per_frame
    ensures !GivesUp(c, t, p)
    ensures SkipLost(c, t, p) == Result(
      if g == 0 then t
      else t.(lost_pkts := (t.lost_pkts + g) % 0x1_0000_0000, seqno := p.seqno, pkt_num := t.pkt_num + g), 0)
  {
  }

  /** Then the packet is stored at its place, and the last one ends the frame. */
  lemma Stores(c: Config, s: State, f: seq<Packet>, n: byte, k: nat, j: nat, u: State)
    requires Sound(c, u) && !c.variable_length && c.pkts_per_frame >= 2 && Intact(c, f, n) && k < |f|
    requires InFront(c, s, n, k, j, u) && j <= k
    ensures Check(c, u, f[k]) == Take && k * c.pkt_size + |f[k].data| <= |u.raw|
    ensures var r := Store(c, u, f[k], 0);
      && r.state.raw == Splice(u.raw, k * c.pkt_size, f[k].data)
      && (k < |f| - 1 ==> r.got == 0 && Behind(c, s, f, n, k, j + 1, r.state))
      && (k == |f| - 1 ==> r.got == c.frame_size && Ended(c, s, f, n, j + 1, r.state))
  {
    hide Splice;
    assert IntactAt(c, f[k], k, n);
    PlaceFits(c, k);
    FrameIsItsPackets(c.flag, c.variable_length, c.pkt_size, c.frame_size);
    NextNumber(n, k);
  }

  /** The frame is delivered: m of its packets arrived. */
  predicate Ended(c: Config, s: State, f: seq<Packet>, n: byte, m: nat, t: State)
    requires f != []
  {
    && t.synced && t.seqno == (n + |f|) % 256 && t.pkt_num == 0 && t.got_pkts == 0 && t.valid_pkts == m
    && t.lost_pkts % 0x1_0000_0000 == (s.lost_pkts + |f| - m) % 0x1_0000_0000
    && t.valid_frames == s.valid_frames + 1 && t.timestamp == f[|f| - 1].timestamp
  }

  lemma StartOfFrame(c: Config, s: State, f: seq<Packet>, n: byte)
    requires Sound(c, s) && !c.variable_length && c.pkts_per_frame >= 2 && Intact(c, f, n) && Ready(s, n)
    ensures var t := Sync(s, f[0]);
      && (s.synced || f[0].flag == c.Sof()) && !GivesUp(c, t, f[0]) && SkipLost(c, t, f[0]) == Result(t, 0)
      && InFront(c, s, n, 0, 0, t) && t.raw == s.raw
  {
    assert IntactAt(c, f[0], 0, n);
  }

  lemma AllArrive(c: Config, f: seq<Packet>, kept: seq<nat>)
    requires |f| == c.pkts_per_frame && Arriving(kept, |f|)
    ensures forall j :: 0 <= j < |kept| ==> kept[j] < |f|
  {
    forall j | 0 <= j < |kept| ensures kept[j] < |f| {
      AtMost(kept, |f|, j);
    }
  }

  /** One packet of the frame, from the state in front of it. */
  lemma OneStep(c: Config, s: State, f: seq<Packet>, n: byte, kept: seq<nat>, j: nat, t: State)
    requires Sound(c, t) && !c.variable_length && c.pkts_per_frame >= 2 && Intact(c, f, n) && Arriving(kept, |f|)
    requires j < |kept| && kept[j] < |f|
    requires if j == 0 then t == s && Ready(s, n)
             else kept[j - 1] < |f| && Behind(c, s, f, n, kept[j - 1], j, t)
    requires Holding(c, f, kept, j, t.raw, s.raw)
    ensures var r := Step(c, t, f[kept[j]]);
      && Holding(c, f, kept, j + 1, r.state.raw, s.raw)
      && (j < |kept| - 1 ==> r.got == 0 && kept[j] < |f| - 1 && Behind(c, s, f, n, kept[j], j + 1, r.state))
      && (j == |kept| - 1 ==> r.got == c.frame_size && Ended(c, s, f, n, |kept|, r.state))
  {
    hide Behind, InFront, Ended, Holding, GivesUp, SkipLost, Check, Store;
    var k := kept[j];
    assert IntactAt(c, f[k], k, n);
    AtLeast(kept, |f|, j);
    AtMost(kept, |f|, j);
    var u;
    if j == 0 {
      StartOfFrame(c, s, f, n);
      u := Sync(s, f[0]);
    } else {
      AtLeast(kept, |f|, j - 1);
      Skips(c, s, f, n, kept[j - 1], j, t, k);
      BehindIsSynced(c, s, f, n, kept[j - 1], j, t);
      u := SkipLost(c, t, f[k]).state;
    }
    Stores(c, s, f, n, k, j, u);
    HoldsOneMore(c, f, kept, j, u.raw, s.raw);
  }

  lemma BehindIsSynced(c: Config, s: State, f: seq<Packet>, n: byte, k: nat, j: nat, t: State)
    requires k < |f| && Behind(c, s, f, n, k, j, t)
    ensures t.synced
  {
  }

  lemma NothingHeld(c: Config, s: State, f: seq<Packet>, kept: seq<nat>)
    requires Sound(c, s) && |f| == c.pkts_per_frame
    ensures Holding(c, f, kept, 0, s.raw, s.raw)
  {
  }

  lemma {:induction false} AfterSome(c: Config, s: State, f: seq<Packet>, n: byte, kept: seq<nat>, j: nat)
    requires Sound(c, s) && !c.variable_length && c.pkts_per_frame >= 2 && Intact(c, f, n) && Ready(s, n)
    requires Arriving(kept, |f|) && 0 < j < |kept|
    ensures forall i :: 0 <= i < |kept| ==> kept[i] < |f|
    ensures var ps := Picked(f, kept)[..j];
      && LastStep(c, s, ps).got == 0 && Run(c, s, ps) == LastStep(c, s, ps).state
      && Behind(c, s, f, n, kept[j - 1], j, Run(c, s, ps)) && Holding(c, f, kept, j, Run(c, s, ps).raw, s.raw)
  {
    hide Behind, Holding, Step, Run, Arriving, IntactAt, Ready;
    AllArrive(c, f, kept);
    var all := Picked(f, kept);
    var ps := all[..j];
    assert ps[..j - 1] == all[..j - 1] && ps[j - 1] == f[kept[j - 1]];
    RunSnoc(c, s, ps);
    if j == 1 {
      NothingHeld(c, s, f, kept);
      RunOfNothing(c, s, ps[..0]);
      OneStep(c, s, f, n, kept, 0, s);
    } else {
      AfterSome(c, s, f, n, kept, j - 1);
      OneStep(c, s, f, n, kept, j - 1, Run(c, s, all[..j - 1]));
    }
  }

  lemma RunOfNothing(c: Config, s: State, ps: seq<Packet>)
    requires Sound(c, s) && ps == []
    ensures Run(c, s, ps) == s
  {
  }

  /** From a ready receiver, a frame with gaps of at most five packets that spare its first and last one is delivered by
      its last packet, and by none before: every packet that arrived is at its place, the missing places keep what
      they held, and the counters say how many arrived and how many are missing. The receiver is ready for the next. */
  lemma FrameWithGaps(c: Config, s: State, f: seq<Packet>, n: byte, kept: seq<nat>)
    requires Sound(c, s) && !c.variable_length && c.pkts_per_frame >= 2 && Intact(c, f, n) && Ready(s, n)
    requires Arriving(kept, |f|)
    ensures forall i :: 0 <= i < |kept| ==> kept[i] < |f|
    ensures var ps := Picked(f, kept);
      && (forall j :: 0 < j < |kept| ==> LastStep(c, s, ps[..j]).got == 0)
      && var r := LastStep(c, s, ps);
      && r.got == c.frame_size && Run(c, s, ps) == r.state && Ready(r.state, Following(c, n))
      && Holding(c, f, kept, |kept|, r.state.raw, s.raw)
      && r.state.valid_pkts == |kept| && r.state.timestamp == f[|f| - 1].timestamp
      && r.state.valid_frames == s.valid_frames + 1
      && r.state.lost_pkts % 0x1_0000_0000 == (s.lost_pkts + |f| - |kept|) % 0x1_0000_0000
  {
    hide Behind, Holding, Step, Run, IntactAt, Arriving;
    AllArrive(c, f, kept);
    var ps, m := Picked(f, kept), |kept|;
    assert m >= 2 by { ArrivingIsTwo(kept, |f|); }
    forall j | 0 < j < m ensures LastStep(c, s, ps[..j]).got == 0 {
      AfterSome(c, s, f, n, kept, j);
    }
    AfterSome(c, s, f, n, kept, m - 1);
    OneStep(c, s, f, n, kept, m - 1, Run(c, s, ps[..m - 1]));
    RunSnoc(c, s, ps);
  }

  lemma ArrivingIsTwo(kept: seq<nat>, count: nat)
    requires Arriving(kept, count)
    ensures |kept| >= 2
  {
  }

  /** The flags of a frame: the stream's own bits and 1 for the first, 5 for the last and 2 for the other packets. */
  lemma FlagsInNumbers(c: Config, i: nat)
    requires c.Valid() && i < c.pkts_per_frame
    ensures PlaceFlag(c, i) == c.flag + if i == 0 then 1 else if i == c.pkts_per_frame - 1 then 5 else 2
  {
  }

  /** A packet in its turn, when nothing is missing: taken if its flag is that of its place and it is not too long;
      dropped if it is too long; and a flag of another place ends the synchronisation. */
  lemma InTurn(c: Config, s: State, p: Packet)
    requires Sound(c, s) && s.synced && !c.variable_length && p.seqno == s.seqno && 0 <= s.pkt_num < c.pkts_per_frame
    requires c.pkts_per_frame >= 2
    ensures var r, k := Step(c, s, p), s.pkt_num;
      if p.flag != PlaceFlag(c, k) then r == Result(s.(synced := false), 0)
      else if |p.data| > Length(c, k) then r == Result(s, 0)
      else
        && r.state.seqno == (s.seqno + 1) % 256 && r.state.last_timestamp == p.timestamp && r.state.synced
        && k * c.pkt_size + |p.data| <= |s.raw| && r.state.raw == Splice(s.raw, k * c.pkt_size, p.data)
        && if k < c.pkts_per_frame - 1 then r.got == 0 && r.state.pkt_num == k + 1 && r.state.got_pkts == s.got_pkts + 1
           else r.got == c.frame_size && r.state.pkt_num == 0 && r.state.got_pkts == 0 &&
                r.state.valid_pkts == s.got_pkts + 1 && r.state.timestamp == p.timestamp
  {
    hide Splice;
    PlaceFits(c, s.pkt_num);
    FrameIsItsPackets(c.flag, c.variable_length, c.pkt_size, c.frame_size);
  }

  /** In the variable-length mode a packet may end the frame anywhere and be short then, and the frame is as long
      as what has arrived. */
  lemma InTurnVariable(c: Config, s: State, p: Packet)
    requires Sound(c, s) && s.synced && c.variable_length && p.seqno == s.seqno && s.pkt_num < c.pkts_per_frame
    ensures var r, k := Step(c, s, p), s.pkt_num;
      if !((k == 0 && p.flag == c.flag + 1) || p.flag == c.flag + 2 || p.flag == c.flag + 5) ||
         |p.data| > Length(c, k) || (|p.data| < Length(c, k) && p.flag != c.flag + 5)
      then r == Result(s.(synced := false), 0)
      else
        && k * c.pkt_size + |p.data| <= |s.raw| && r.state.raw == Splice(s.raw, k * c.pkt_size, p.data)
        && r.state.seqno == (s.seqno + 1) % 256 && r.state.last_timestamp == p.timestamp && r.state.synced
        && if p.flag != c.flag + 5 then
             r.got == 0 && r.state.pkt_num == k + 1 && r.state.got_pkts == s.got_pkts + 1
           else
             r.got == k * c.pkt_size + |p.data| && r.state.pkt_num == 0 && r.state.got_pkts == 0 &&
             r.state.valid_pkts == s.got_pkts + 1 && r.state.timestamp == p.timestamp
  {
    hide Splice;
    PlaceFits(c, s.pkt_num);
  }

  // ---- larger losses, and losses at the end ----

  /** More than five packets missing: the receiver is out of sync, and the packet is not looked at. */
  lemma GapLosesSync(c: Config, s: State, p: Packet)
    requires Sound(c, s) && s.synced && !c.variable_length && 6 <= (p.seqno - s.seqno) % 256
    ensures var lost := (p.seqno - s.seqno) % 256;
      Step(c, s, p) == Result(s.(synced := false, lost_pkts := (s.lost_pkts + lost) % 0x1_0000_0000), 0)
  {
  }

  /** In the variable-length mode any packet missing does that. */
  lemma AnyGapLosesSync(c: Config, s: State, p: Packet)
    requires Sound(c, s) && s.synced && c.variable_length && 1 <= (p.seqno - s.seqno) % 256
    ensures var lost := (p.seqno - s.seqno) % 256;
      Step(c, s, p) == Result(s.(synced := false, lost_pkts := (s.lost_pkts + lost) % 0x1_0000_0000), 0)
  {
  }

  /** At most five missing, and the end of the frame among them: the frame is returned at once with the time of its
      last packet, whatever the packet is. */
  lemma GapPastTheEnd(c: Config, s: State, p: Packet)
    requires Sound(c, s) && s.synced && !c.variable_length && 0 <= s.pkt_num < c.pkts_per_frame
    requires 1 <= (p.seqno - s.seqno) % 256 <= 5 && s.pkt_num + (p.seqno - s.seqno) % 256 >= c.pkts_per_frame
    ensures var r, lost := Step(c, s, p), (p.seqno - s.seqno) % 256;
      && r.got == c.frame_size && r.state.lost_pkts == (s.lost_pkts + lost) % 0x1_0000_0000
      && (p.flag != c.flag + 5 ==> r.state.valid_pkts == s.got_pkts && r.state.timestamp == s.last_timestamp &&
                                   r.state.valid_frames == s.valid_frames + 1)
  {
    hide Splice;
    var u := SkipLost(c, s, p).state;
    if Check(c, u, p) == Take && p.flag == c.Eof() {
      EndsTheFrame(c, u, p);
    }
  }

  /** If the packet is the one of that number in the next frame, and not its last, it is stored there. */
  lemma GapIntoTheNext(c: Config, s: State, p: Packet, m: nat, n: byte)
    requires Sound(c, s) && s.synced && !c.variable_length && 0 <= s.pkt_num < c.pkts_per_frame
    requires 1 <= (p.seqno - s.seqno) % 256 <= 5
    requires s.pkt_num + (p.seqno - s.seqno) % 256 == c.pkts_per_frame + m && m < c.pkts_per_frame - 1
    requires IntactAt(c, p, m, n)
    ensures var t := Step(c, s, p).state;
      && t.synced && t.pkt_num == m + 1 && t.got_pkts == 1 && t.seqno == (p.seqno + 1) % 256 && |t.raw| == |s.raw|
      && t.last_timestamp == p.timestamp
      && forall i :: 0 <= i < c.pkts_per_frame ==> Piece(c, t.raw, i) == if i == m then p.data else Piece(c, s.raw, i)
  {
    hide Splice, Piece;
    forall i | 0 <= i < c.pkts_per_frame
      ensures m * c.pkt_size + |p.data| <= |s.raw|
      ensures Piece(c, Splice(s.raw, m * c.pkt_size, p.data), i) == if i == m then p.data else Piece(c, s.raw, i)
    {
      StoredPiece(c, s.raw, m, p.data, i);
    }
    StoredPiece(c, s.raw, m, p.data, m);
    assert Check(c, SkipLost(c, s, p).state, p) == Take;
  }
}
