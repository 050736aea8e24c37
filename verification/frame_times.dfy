/** buildFrame of the OpenNI2 video stream: the 32-bit ticks of a 60 MHz clock become 64-bit time. */
module FrameTimes {
  import opened Words

  /** The next value of prev_timestamp. */
  function Unwrap(prev: uint64, timestamp: uint32): uint64
  {
    if timestamp < prev then (prev + (timestamp - prev % TWO32) % TWO32) % TWO64 else timestamp
  }

  /** From an exact value, the next one is exact exactly when less than 2^32 ticks have passed. */
  lemma UnwrapExact(prev: uint64, now: uint64)
    requires prev <= now
    ensures Unwrap(prev, now % TWO32) == now <==> now - prev < TWO32
  {
    var gap, low := now - prev, now % TWO32;
    GapModulo(prev, gap);
    if low < prev {
      assert (low - prev % TWO32) % TWO32 == gap % TWO32;
      assert prev + gap % TWO32 <= now < TWO64;
    }
  }

  lemma GapModulo(prev: nat, gap: nat)
    ensures ((prev + gap) % TWO32 - prev % TWO32) % TWO32 == gap % TWO32
  {
    var q, r := prev / TWO32, (prev + gap) / TWO32;
    assert prev == q * TWO32 + prev % TWO32 && prev + gap == r * TWO32 + (prev + gap) % TWO32;
    SameResidue((prev + gap) % TWO32 - prev % TWO32, gap, r - q);
  }

  lemma SameResidue(a: int, b: int, k: int)
    requires b == a + k * TWO32
    ensures a % TWO32 == b % TWO32
  {
    var q := a / TWO32;
    assert b == (q + k) * TWO32 + a % TWO32;
  }

  /** The values of prev_timestamp at frames that arrive at the given true tick counts. */
  function Values(prev: uint64, ticks: seq<uint64>): (vs: seq<uint64>)
    ensures |vs| == |ticks|
    decreases |ticks|
  {
    if ticks == [] then []
    else
      var v := Unwrap(prev, ticks[0] % TWO32);
      [v] + Values(v, ticks[1..])
  }

  /** How many ticks passed before the i-th frame, since the one before it or since the start. */
  function Gap(prev: uint64, ticks: seq<uint64>, i: nat): int
    requires i < |ticks|
  {
    ticks[i] as int - (if i == 0 then prev else ticks[i - 1]) as int
  }

  /** Every frame gets its true time exactly when no gap, the one in front of the first frame included,
      reaches 2^32 ticks. */
  lemma {:induction false} TimesAreTrue(prev: uint64, ticks: seq<uint64>)
    requires forall i :: 0 <= i < |ticks| ==> Gap(prev, ticks, i) >= 0
    ensures Values(prev, ticks) == ticks <==> forall i :: 0 <= i < |ticks| ==> Gap(prev, ticks, i) < TWO32
    decreases |ticks|
  {
    if ticks != [] {
      var t, rest := ticks[0], ticks[1..];
      assert Gap(prev, ticks, 0) == t - prev;
      UnwrapExact(prev, t);
      assert ticks == [t] + rest;
      if t - prev < TWO32 {
        assert forall i :: 0 <= i < |rest| ==> Gap(t, rest, i) == Gap(prev, ticks, i + 1);
        assert (forall i :: 0 <= i < |rest| ==> Gap(t, rest, i) < TWO32) <==>
          forall i :: 0 < i < |ticks| ==> Gap(prev, ticks, i) < TWO32 by {
          assert forall i :: 0 < i < |ticks| ==> Gap(prev, ticks, i) == Gap(t, rest, i - 1);
        }
        TimesAreTrue(t, rest);
        assert Values(prev, ticks) == [t] + Values(t, rest);
        assert Values(prev, ticks) == ticks <==> Values(t, rest) == rest by {
          assert Values(prev, ticks)[1..] == Values(t, rest) && ticks[1..] == rest;
        }
      } else {
        assert Values(prev, ticks)[0] != t;
      }
    }
  }

  /** What a frame is stamped with. */
  datatype Stamp = Stamp(frameIndex: uint32, microseconds: nat)

  class VideoStream {
    var frame_id: uint32
    var prev_timestamp: uint64
    var running: bool

    constructor ()
      ensures frame_id == 1 && prev_timestamp == 0 && !running
    {
      frame_id, prev_timestamp, running := 1, 0, false;
    }

    /** buildFrame up to the two numbers it gives the frame. */
    method BuildFrame(timestamp: uint32) returns (stamped: bool, stamp: Stamp)
      modifies this`frame_id, this`prev_timestamp
      ensures stamped == running
      ensures !stamped ==> frame_id == old(frame_id) && prev_timestamp == old(prev_timestamp)
      ensures stamped ==> prev_timestamp == Unwrap(old(prev_timestamp), timestamp)
      ensures stamped ==> frame_id == (old(frame_id) + 1) % TWO32
      ensures stamped ==> stamp == Stamp(old(frame_id), prev_timestamp / 60)
    {
      stamp := Stamp(0, 0);
      if !running {
        return false, stamp;
      }
      var index := frame_id;
      frame_id := (frame_id + 1) % TWO32;
      if timestamp < prev_timestamp {
        var prev_int := prev_timestamp % TWO32;
        var temp_delta := (timestamp - prev_int) % TWO32;
        prev_timestamp := (prev_timestamp + temp_delta) % TWO64;
      } else {
        prev_timestamp := timestamp;
      }
      return true, Stamp(index, prev_timestamp / 60);
    }
  }
}
