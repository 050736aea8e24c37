/** The sequencer of the audio OUT packets. */
module AudioOut {
  import opened Bytes
  import opened Words

  datatype State = State(window: uint16, seq_: byte, counter: byte, timestamp: uint16, parity: byte)

  function Initial(): State { State(0, 0, 0, 0, 0) }

  /** The fourth byte of a packet. */
  function Tag(s: State): byte
  {
    var c, t := s.counter as int, s.timestamp as int;
    if c < 4 then t / Shift(c) % 16 * 16 + 5
    else if s.parity == 0 && c < 8 then (t + 23) / Shift(c - 4) % 16 * 16 + 5
    else 1
  }

  function Shift(nibble: int): (p: nat)
    requires 0 <= nibble < 4
    ensures p > 0
  {
    if nibble == 0 then 1 else if nibble == 1 then 16 else if nibble == 2 then 256 else 4096
  }

  /** The window in two bytes, the sequence number and the tag. */
  function Header(s: State): (h: seq<byte>)
    ensures |h| == 4
  {
    [s.window % 256, s.window / 256, s.seq_, Tag(s)]
  }

  const SAMPLES: nat := 72

  function Silence(): (z: seq<byte>)
    ensures |z| == SAMPLES
  {
    seq(SAMPLES, _ => 0)
  }

  function Low16(x: nat): uint16 { x % 0x1_0000 }

  /** What the next packet starts from. */
  function Next(s: State): State
  {
    var timestamp := Low16(s.timestamp + if s.parity == 1 then 6 else 5);
    var n: byte := (s.seq_ + 1) % 256;
    if n == 0x80 || n == 0x2b || n == 0x56 then
      var parity: byte := (s.parity + 1) % 256;
      State(Low16(s.window + 1), if n == 0x80 then 0 else n, 0, timestamp, if parity == 3 then 0 else parity)
    else
      State(s.window, n, (s.counter + 1) % 256, timestamp, if s.parity == 3 then 0 else s.parity)
  }

  function After(n: nat): State
  {
    if n == 0 then Initial() else Next(After(n - 1))
  }

  /** The third of a round of 128 packets: 43, 43 and 42 of them. */
  function Third(k: nat): nat { if k < 43 then 0 else if k < 86 then 1 else 2 }

  /** How many of the first k packets of a round are in its middle third. */
  function Middle(k: nat): nat { if k < 43 then 0 else if k < 86 then k - 43 else 43 }

  /** The state in front of packet k of a round. */
  function InRound(round: nat, k: nat): State
    requires k < 128
  {
    State(Low16(3 * round + Third(k)), k, k - 43 * Third(k), Low16(5 * (128 * round + k) + 43 * round + Middle(k)),
          Third(k))
  }

  /** The state in front of the n-th packet, without the packets before it. */
  function Closed(n: nat): State { InRound(n / 128, n % 128) }

  lemma Wraps(x: nat, c: nat)
    ensures Low16(Low16(x) + c) == Low16(x + c)
  {
  }

  lemma InRoundStep(round: nat, k: nat)
    requires k < 128
    ensures Next(InRound(round, k)) == if k < 127 then InRound(round, k + 1) else InRound(round + 1, 0)
  {
    hide Low16;
    var t := Third(k);
    Wraps(3 * round + t, 1);
    Wraps(5 * (128 * round + k) + 43 * round + Middle(k), if t == 1 then 6 else 5);
    var k', round' := if k < 127 then k + 1 else 0, if k < 127 then round else round + 1;
    assert Middle(k') + 43 * round' == Middle(k) + 43 * round + if t == 1 then 1 else 0;
    assert 3 * round' + Third(k') == 3 * round + t + if k == 42 || k == 85 || k == 127 then 1 else 0;
  }

  lemma ClosedStart()
    ensures Closed(0) == Initial()
  {
    hide InRound;
    assert Closed(0) == InRound(0, 0);
    FirstOfAll();
  }

  lemma FirstOfAll()
    ensures InRound(0, 0) == Initial()
  {
    hide Middle, Third;
    assert Third(0) == 0 && Middle(0) == 0 by { Zero(); }
  }

  lemma Zero()
    ensures Third(0) == 0 && Middle(0) == 0
  {
  }

  lemma ClosedStep(n: nat)
    ensures Next(Closed(n)) == Closed(n + 1)
  {
    hide Next, InRound;
    InRoundStep(n / 128, n % 128);
    NextPlace(n);
  }

  lemma NextPlace(n: nat)
    ensures if n % 128 < 127 then (n + 1) / 128 == n / 128 && (n + 1) % 128 == n % 128 + 1
            else (n + 1) / 128 == n / 128 + 1 && (n + 1) % 128 == 0
  {
  }

  /** Three windows in every round of 128 packets, parity the third, the counter the place in the third,
      and the timestamp six per packet of the middle third and five per other packet, all for every n. */
  lemma {:induction false} ClosedForm(n: nat)
    ensures After(n) == Closed(n)
  {
    hide Next, Closed;
    if n == 0 {
      ClosedStart();
    } else {
      ClosedForm(n - 1);
      ClosedStep(n - 1);
    }
  }

  /** A digit of a number to the base 16, the lowest first. */
  function Nibble(v: nat, j: nat): nat
    requires j < 4
  {
    if j == 0 then v % 16 else if j == 1 then v / 16 % 16 else if j == 2 then v / 256 % 16 else v / 4096 % 16
  }

  /** The header of packet n in numbers: the window, low byte first; the sequence number; and the next digit of the
      time in the first four packets of a third, of the time and 23 in four more of the first third, and 1 in the
      others. */
  lemma HeaderOf(n: nat)
    ensures var round, k := n / 128, n % 128;
      var third := if k < 43 then 0 else if k < 86 then 1 else 2;
      var place, window := k - 43 * third, (3 * round + third) % 0x1_0000;
      var time := (5 * n + 43 * round + if third == 0 then 0 else if third == 1 then k - 43 else 43) % 0x1_0000;
      Header(After(n)) == [window % 256, window / 256, k,
        if place < 4 then Nibble(time, place) * 16 + 5
        else if third == 0 && place < 8 then Nibble(time + 23, place - 4) * 16 + 5
        else 1]
  {
    hide After, Header, Nibble;
    ClosedForm(n);
    assert 128 * (n / 128) + n % 128 == n;
    HeaderIs(Closed(n));
  }

  lemma HeaderIs(s: State)
    requires s.parity < 3
    ensures Header(s) == [s.window % 256, s.window / 256, s.seq_,
      if s.counter < 4 then Nibble(s.timestamp, s.counter) * 16 + 5
      else if s.parity == 0 && s.counter < 8 then Nibble(s.timestamp + 23, s.counter - 4) * 16 + 5
      else 1]
  {
  }

  class AudioStream {
    var out_window: uint16
    var out_seq: byte
    var out_counter_within_window: byte
    var out_weird_timestamp: uint16
    var out_window_parity: byte

    constructor ()
      ensures Now() == Initial()
    {
      out_window, out_seq, out_counter_within_window, out_weird_timestamp, out_window_parity := 0, 0, 0, 0, 0;
    }

    function Now(): State
      reads this
    {
      State(out_window, out_seq, out_counter_within_window, out_weird_timestamp, out_window_parity)
    }

    /** The fourth byte. */
    method TagByte() returns (tag: byte)
      ensures tag == Tag(Now())
    {
      var c, t := out_counter_within_window, out_weird_timestamp;
      if out_window_parity == 0 {
        if c < 4 {
          tag := t / Shift(c) % 16 * 16 + 5;
        } else if c < 8 {
          tag := (t + 23) / Shift(c - 4) % 16 * 16 + 5;
        } else {
          tag := 1;
        }
      } else {
        if c < 4 {
          tag := t / Shift(c) % 16 * 16 + 5;
        } else {
          tag := 1;
        }
      }
    }

    /** The update behind the packet. */
    method Advance()
      modifies this
      ensures Now() == Next(old(Now()))
    {
      out_seq := (out_seq + 1) % 256;
      out_counter_within_window := (out_counter_within_window + 1) % 256;
      out_weird_timestamp := (out_weird_timestamp + if out_window_parity == 1 then 6 else 5) % 0x1_0000;
      if out_seq == 0x80 || out_seq == 0x2b || out_seq == 0x56 {
        if out_seq == 0x80 {
          out_seq := 0;
        }
        out_counter_within_window := 0;
        out_window := (out_window + 1) % 0x1_0000;
        out_window_parity := (out_window_parity + 1) % 256;
      }
      if out_window_parity == 3 {
        out_window_parity := 0;
      }
    }

    /** prepare_iso_out_data: the packet's 76 bytes, whose samples stay as they were when a callback is set. */
    method PrepareIsoOutData(callback: bool, buffer: array<byte>)
      requires buffer.Length == 4 + SAMPLES
      modifies this, buffer
      ensures Now() == Next(old(Now()))
      ensures buffer[..] == Header(old(Now())) + if callback then old(buffer[4..]) else Silence()
    {
      hide Next, Tag;
      var i := 0;
      while !callback && i < buffer.Length
        invariant 0 <= i <= buffer.Length && forall k :: 0 <= k < i ==> buffer[k] == 0
        invariant Now() == old(Now()) && (callback ==> buffer[..] == old(buffer[..]))
      {
        buffer[i] := 0;
        i := i + 1;
      }
      assert buffer[4..] == if callback then old(buffer[4..]) else Silence();
      buffer[0], buffer[1] := out_window % 256, out_window / 256;
      buffer[2] := out_seq;
      var tag := TagByte();
      buffer[3] := tag;
      Advance();
    }
  }
}
