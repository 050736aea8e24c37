/** The life of isochronous transfers: start, callback, stop. libusb is what it answers: the results of
    its calls and the completions it reports are parameters. */
module IsoTransfers {
  /** xfer->status */
  datatype Status = Completed | NoDevice | Cancelled | Failed

  /** What libusb_submit_transfer answers: 0, LIBUSB_ERROR_NO_DEVICE or another error. */
  datatype Submitted = Accepted | LostDevice | Refused

  /** in_flight are the transfers that libusb holds. */
  datatype Stream = Stream(num_xfers: nat, dead: bool, dead_xfers: nat, device_dead: bool, in_flight: set<nat>)
  {
    /** Every transfer is with libusb or counted as dead. */
    predicate Balanced() { |in_flight| + dead_xfers == num_xfers }
  }

  /** iso_callback for transfer x, which libusb has given back; submit answers a resubmission. */
  function OnCallback(s: Stream, x: nat, status: Status, submit: Submitted): Stream
  {
    var back := s.(in_flight := s.in_flight - {x});
    if s.dead then back.(dead_xfers := s.dead_xfers + 1)
    else
      match status
      case NoDevice | Cancelled => back.(dead_xfers := s.dead_xfers + 1, device_dead := true)
      case Completed | Failed =>
        match submit
        case Accepted => s.(in_flight := s.in_flight + {x})
        case LostDevice => back.(dead_xfers := s.dead_xfers + 1, device_dead := true)
        case Refused => back.(dead_xfers := s.dead_xfers + 1)
  }

  datatype Event = Callback(x: nat, status: Status, submit: Submitted) | MarkDead

  predicate Possible(s: Stream, run: seq<Event>)
    decreases |run|
  {
    run == [] || ((run[0].Callback? ==> run[0].x in s.in_flight) && Possible(Next(s, run[0]), run[1..]))
  }

  function Next(s: Stream, e: Event): Stream
  {
    match e
    case MarkDead => s.(dead := true)
    case Callback(x, status, submit) => OnCallback(s, x, status, submit)
  }

  function After(s: Stream, run: seq<Event>): Stream
    decreases |run|
  {
    if run == [] then s else After(Next(s, run[0]), run[1..])
  }

  lemma TakeOut(xs: set<nat>, x: nat)
    requires x in xs
    ensures |xs - {x}| == |xs| - 1 && xs + {x} == xs
  {
  }

  /** On a live stream a transfer that completes, or fails without the device being gone, goes back, and is in flight
      exactly as long as libusb takes it back; only a device that is gone is remembered. */
  lemma LiveCallback(s: Stream, x: nat, status: Status, submit: Submitted)
    requires x in s.in_flight && !s.dead
    ensures var t := OnCallback(s, x, status, submit);
      && (x in t.in_flight <==> (status == Completed || status == Failed) && submit == Accepted)
      && t.in_flight - {x} == s.in_flight - {x}
      && t.dead_xfers == s.dead_xfers + (if x in t.in_flight then 0 else 1)
      && (t.device_dead <==> s.device_dead || status == NoDevice || status == Cancelled || submit == LostDevice)
      && !t.dead && t.num_xfers == s.num_xfers
  {
  }

  /** A dead stream takes every transfer out of flight, and looks at nothing else. */
  lemma DeadCallback(s: Stream, x: nat, status: Status, submit: Submitted)
    requires x in s.in_flight && s.dead
    ensures OnCallback(s, x, status, submit) == s.(in_flight := s.in_flight - {x}, dead_xfers := s.dead_xfers + 1)
  {
  }

  /** Between callbacks no transfer is lost or counted twice. */
  lemma {:induction false} Conservation(s: Stream, run: seq<Event>)
    requires s.Balanced() && Possible(s, run)
    ensures After(s, run).Balanced() && After(s, run).num_xfers == s.num_xfers && After(s, run).in_flight <= s.in_flight
    decreases |run|
  {
    if run != [] {
      if run[0].Callback? {
        TakeOut(s.in_flight, run[0].x);
      }
      Conservation(Next(s, run[0]), run[1..]);
    }
  }

  /** Once the stream is dead every callback retires exactly one transfer and none goes back, so the wait
      of the stop is over after exactly as many callbacks as transfers were in flight. */
  lemma {:induction false} EachCallbackRetiresOne(s: Stream, run: seq<Event>)
    requires s.Balanced() && s.dead && Possible(s, run) && forall i :: 0 <= i < |run| ==> run[i].Callback?
    ensures |run| <= |s.in_flight| && |After(s, run).in_flight| == |s.in_flight| - |run|
    ensures After(s, run).dead && After(s, run).dead_xfers == s.dead_xfers + |run|
    ensures After(s, run).dead_xfers >= After(s, run).num_xfers <==> |run| == |s.in_flight|
    decreases |run|
  {
    if run != [] {
      TakeOut(s.in_flight, run[0].x);
      EachCallbackRetiresOne(Next(s, run[0]), run[1..]);
    }
  }

  /** The stop frees behind a wait for dead_xfers == num_xfers: nothing is in flight then, whatever
      happened since the start. */
  lemma FreesOnlyWhenIdle(s: Stream, run: seq<Event>)
    requires s.Balanced() && Possible(s, run) && After(s, run).dead_xfers >= After(s, run).num_xfers
    ensures After(s, run).in_flight == {}
  {
    Conservation(s, run);
  }

  /** All transfers completed by a sequence of event batches. */
  function Total(batches: seq<seq<Status>>): nat
  {
    if batches == [] then 0 else |batches[0]| + Total(batches[1..])
  }

  /** A packet as the stream's callback gets it: where it starts and how long it is. */
  datatype Packet = Packet(offset: nat, length: nat)

  /** xfers says which transfers could be allocated. */
  class IsoStream {
    var num_xfers: nat
    var pkts: nat
    var len: nat
    var dead: bool
    var dead_xfers: nat
    var device_dead: bool
    ghost var in_flight: set<nat>
    const xfers: seq<bool>

    ghost function Now(): Stream
      reads this
    {
      Stream(num_xfers, dead, dead_xfers, device_dead, in_flight)
    }

    /** fnusb_start_iso: obtained[i] and results[i] are libusb's answers for transfer i. */
    constructor (count: nat, pkts: nat, len: nat, obtained: seq<bool>, results: seq<int>, device_dead: bool)
      requires |obtained| == |results| == count
      ensures Now().Balanced() && !dead && num_xfers == count && this.pkts == pkts && this.len == len
      ensures this.device_dead == device_dead && xfers == obtained
      ensures in_flight == set i | 0 <= i < count && obtained[i] && results[i] >= 0
    {
      num_xfers, this.pkts, this.len, xfers := count, pkts, len, obtained;
      dead, dead_xfers, this.device_dead := false, 0, device_dead;
      in_flight := {};
      new;
      var i := 0;
      while i < count
        invariant 0 <= i <= count && num_xfers == count && this.pkts == pkts && this.len == len
        invariant !dead && this.device_dead == device_dead
        invariant in_flight == set k | 0 <= k < i && obtained[k] && results[k] >= 0
        invariant |in_flight| + dead_xfers == i
      {
        if !obtained[i] {
          dead_xfers := dead_xfers + 1;
        } else if results[i] < 0 {
          dead_xfers := dead_xfers + 1;
        } else {
          in_flight := in_flight + {i};
        }
        i := i + 1;
      }
    }

    /** The packets of a completed transfer, one after the other. */
    method Packets(lengths: seq<nat>) returns (calls: seq<Packet>)
      requires |lengths| == pkts
      ensures |calls| == pkts && forall i :: 0 <= i < pkts ==> calls[i] == Packet(i * len, lengths[i])
    {
      calls := [];
      var buf, i := 0, 0;
      while i < pkts
        invariant 0 <= i <= pkts && buf == i * len
        invariant |calls| == i && forall k :: 0 <= k < i ==> calls[k] == Packet(k * len, lengths[k])
      {
        calls := calls + [Packet(buf, lengths[i])];
        buf := buf + len;
        i := i + 1;
      }
    }

    /** The resubmission at the end of two branches of iso_callback. */
    method Resubmit(ghost x: nat, submit: Submitted)
      modifies this
      ensures Now() == (match submit
                        case Accepted => old(Now()).(in_flight := old(in_flight) + {x})
                        case LostDevice => old(Now()).(dead_xfers := old(dead_xfers) + 1, device_dead := true)
                        case Refused => old(Now()).(dead_xfers := old(dead_xfers) + 1))
      ensures pkts == old(pkts) && len == old(len)
    {
      if submit.Accepted? {
        in_flight := in_flight + {x};
      } else {
        dead_xfers := dead_xfers + 1;
        if submit.LostDevice? {
          device_dead := true;
        }
      }
    }

    /** iso_callback; calls are the stream callback's. */
    method IsoCallback(ghost x: nat, status: Status, submit: Submitted, lengths: seq<nat>) returns (calls: seq<Packet>)
      requires x in in_flight && |lengths| == pkts
      modifies this
      ensures Now() == OnCallback(old(Now()), x, status, submit)
      ensures pkts == old(pkts) && len == old(len)
      ensures |calls| == (if !old(dead) && status.Completed? then pkts else 0)
      ensures forall i :: 0 <= i < |calls| ==> calls[i] == Packet(i * len, lengths[i])
    {
      calls := [];
      in_flight := in_flight - {x};
      if dead {
        dead_xfers := dead_xfers + 1;
        return;
      }
      match status
      case Completed =>
        calls := Packets(lengths);
        Resubmit(x, submit);
        assert old(in_flight) - {x} + {x} == old(in_flight) + {x};
      case NoDevice =>
        dead_xfers := dead_xfers + 1;
        device_dead := true;
      case Cancelled =>
        if !dead {
          device_dead := true;
        }
        dead_xfers := dead_xfers + 1;
      case Failed =>
        Resubmit(x, submit);
        assert old(in_flight) - {x} + {x} == old(in_flight) + {x};
    }

    /** libusb_handle_events on a dead stream: it reports one batch of completions. */
    method HandleEvents(batch: seq<Status>, lengths: seq<nat>)
      requires Now().Balanced() && dead && |batch| <= |in_flight| && |lengths| == pkts
      modifies this
      ensures Now().Balanced() && dead && num_xfers == old(num_xfers) && pkts == old(pkts)
      ensures dead_xfers == old(dead_xfers) + |batch| && in_flight <= old(in_flight)
    {
      var i := 0;
      while i < |batch|
        invariant 0 <= i <= |batch| && Now().Balanced() && dead && num_xfers == old(num_xfers) && pkts == old(pkts)
        invariant dead_xfers == old(dead_xfers) + i && in_flight <= old(in_flight)
      {
        ghost var x :| x in in_flight;
        TakeOut(in_flight, x);
        var _ := IsoCallback(x, batch[i], Refused, lengths);
        i := i + 1;
      }
    }

    /** The cancellations of fnusb_stop_iso; not sound at a transfer that was never allocated, for which
        libusb promises nothing. */
    method CancelAll() returns (sound: bool)
      requires num_xfers == |xfers|
      ensures sound <==> forall i :: 0 <= i < |xfers| ==> xfers[i]
    {
      var i := 0;
      while i < num_xfers
        invariant 0 <= i <= num_xfers && forall k :: 0 <= k < i ==> xfers[k]
      {
        if !xfers[i] {
          return false;
        }
        i := i + 1;
      }
      sound := true;
    }

    /** fnusb_stop_iso, when libusb reports every cancelled transfer sooner or later: unless a transfer was
        never allocated the wait ends, and what is freed behind it is no longer in flight. */
    method StopIso(batches: seq<seq<Status>>, lengths: seq<nat>) returns (sound: bool)
      requires Now().Balanced() && Total(batches) == |in_flight| && |lengths| == pkts && num_xfers == |xfers|
      modifies this
      ensures sound <==> forall i :: 0 <= i < |xfers| ==> xfers[i]
      ensures Now().Balanced() && dead && num_xfers == old(num_xfers)
      ensures sound ==> dead_xfers == num_xfers && in_flight == {}
    {
      dead := true;
      sound := CancelAll();
      if !sound {
        return;
      }
      var i := 0;
      while dead_xfers < num_xfers
        invariant 0 <= i <= |batches| && Now().Balanced() && dead && num_xfers == old(num_xfers) && pkts == old(pkts)
        invariant Total(batches[i..]) == |in_flight|
        decreases |batches| - i
      {
        assert batches[i..][1..] == batches[i + 1..];
        HandleEvents(batches[i], lengths);
        i := i + 1;
      }
    }
  }
}
