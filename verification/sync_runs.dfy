/** The hand-over of frames between the USB side and any number of callers, as interleaved atomic steps:
    every action below is what one thread does without another being able to look in between. */
module SyncRuns {
  import opened Bytes
  import opened BufferRings
  import opened Modes

  /** What a buffer holds: nothing in particular, or a frame with its serial number, time and format. */
  datatype Content = Junk | Whole(serial: nat, stamp: nat, fmt: Format)

  /** Who holds runloop_lock. */
  datatype Holder = Nobody | Events | Task(n: nat)

  /** Between two packets, or a completed frame waits for the ring's lock. */
  datatype Phase = Idle | Delivering(data: Pointer, serial: nat, stamp: nat)

  /** Where a caller is between its increment and its decrement of pending_runloop_tasks. The middle
      ones hold the ring's lock too. */
  datatype Pc =
    | Waiting | Holding | Locked(fmt: Format) | Stopped(fmt: Format) | Emptied(fmt: Format) | Filled(fmt: Format)
    | Armed(fmt: Format) | Changed(fmt: Format, ok: bool) | Released
  {
    predicate HasRing() { !Waiting? && !Holding? && !Released? }
    predicate HasRunloop() { !Waiting? && !Released? }
  }

  /** What a get returned: the buffer and its content, the time, the serial number of the newest frame of
      that moment, who asked and for what format, and the format of the ring. */
  datatype Handed = Handed(data: Pointer, content: Content, stamp: nat, newest: nat, caller: nat, wanted: Format,
                           actual: Option<Format>)

  /** kind says which of the two streams it is, and mode is what its camera was set to; size is that of the
      ring's buffers. delivered and completed are serial numbers: of the
      last frame given to the ring, and of the last one completed. wants are the callers on their way to
      sync_get; handed is what it returned so far; next is the next unused allocation. */
  datatype State = State(kind: Kind, ring: Ring, stream: Stream, mode: Format, size: nat, phase: Phase,
                         contents: map<nat, Content>, next: nat, runloop: Holder, ring_lock: Option<nat>,
                         pcs: map<nat, Pc>, pending: int, ready: bool, completed: nat, delivered: nat,
                         wants: map<nat, Format>, handed: seq<Handed>, aborted: bool)

  datatype Action =
    | Check(n: nat, fmt: Format) | Inc(n: nat) | LockRunloop(n: nat) | LockRing(n: nat, fmt: Format) | Stop(n: nat)
    | FreeRing(n: nat) | AllocRing(n: nat, unset: Unset) | Refuse(n: nat) | SetBuffer(n: nat, unset: Unset)
    | Start(n: nat, split: bool) | StartFails(n: nat) | UnlockRing(n: nat) | UnlockRunloop(n: nat) | Dec(n: nat)
    | Get(n: nat) | Leave(n: nat)
    | WaitZero | LockEvents | UnlockEvents
    | Write | Complete(stamp: nat) | Callback

  function Initial(k: Kind): State
  {
    State(k, Freed(), Stream(false, false, Null, Null, Null, Null), Default(k), 0, Idle, map[], 0, Nobody, None, map[],
      0, false, 0, 0, map[], [], false)
  }

  function ContentOf(s: State, p: Pointer): Content
  {
    if p.Block? && p.id in s.contents then s.contents[p.id] else Junk
  }

  predicate At(s: State, n: nat, pc: Pc) { n in s.pcs && s.pcs[n] == pc }

  /** USB events are handled by whoever holds runloop_lock, inside libusb; a caller that is changing this
      stream's format has stopped it before it enters libusb. */
  predicate Processing(s: State)
  {
    s.runloop.Events? || (s.runloop.Task? && At(s, s.runloop.n, Holding))
  }

  /** A frame of the camera's mode goes into a buffer of the ring. C promises nothing for one that does not,
      and the model ends in front of it. */
  predicate Fits(s: State) { FrameSize(s.kind, s.mode) <= s.size }

  /** A caller looks at the format without a lock, and sets it up or goes on to sync_get; a setup lets it go
      on too, refused or not. Leave is a caller that wanted no frame. */
  predicate Enabled(s: State, a: Action)
  {
    match a
    case Check(n, fmt) => n !in s.pcs && n !in s.wants && s.ring.fmt == Some(fmt)
    case Inc(n) => n !in s.pcs && n !in s.wants
    case LockRunloop(n) => At(s, n, Waiting) && s.runloop.Nobody?
    case LockRing(n, _) => At(s, n, Holding) && s.ring_lock.None? && s.phase.Idle?
    case Stop(n) => n in s.pcs && s.pcs[n].Locked? && s.ring.fmt != Some(s.pcs[n].fmt)
    case FreeRing(n) => n in s.pcs && s.pcs[n].Stopped?
    case AllocRing(n, _) => n in s.pcs && s.pcs[n].Emptied? && Known(s.kind, s.pcs[n].fmt)
    case Refuse(n) => n in s.pcs && s.pcs[n].Emptied? && !Known(s.kind, s.pcs[n].fmt)
    case SetBuffer(n, _) => n in s.pcs && s.pcs[n].Filled?
    case Start(n, _) => n in s.pcs && s.pcs[n].Armed?
    case StartFails(n) => n in s.pcs && s.pcs[n].Armed?
    case UnlockRing(n) => n in s.pcs && (s.pcs[n].Changed? || (s.pcs[n].Locked? && s.ring.fmt == Some(s.pcs[n].fmt)))
    case UnlockRunloop(n) => At(s, n, Holding) && s.phase.Idle?
    case Dec(n) => At(s, n, Released)
    case WaitZero => s.pending == 0 && !s.ready && !s.runloop.Events?
    case LockEvents => s.ready && s.runloop.Nobody?
    case UnlockEvents => s.runloop.Events? && s.phase.Idle?
    case Write => Processing(s) && s.phase.Idle? && s.stream.running && (s.stream.split_bufs || Fits(s))
    case Complete(_) => Processing(s) && s.phase.Idle? && s.stream.running && Fits(s)
    case Callback => s.phase.Delivering? && s.ring_lock.None?
    case Get(n) => n in s.wants && n !in s.pcs && s.ring.valid && s.ring_lock.None?
    case Leave(n) => n in s.wants && n !in s.pcs
  }

  function Goto(s: State, n: nat, pc: Pc): State { s.(pcs := s.pcs[n := pc]) }

  function Put(s: State, p: Pointer, c: Content): State
  {
    if p.Block? then s.(contents := s.contents[p.id := c]) else s
  }

  /** producer_cb_inner */
  function Deliver(s: State): State
    requires s.phase.Delivering? && s.ring.Three()
  {
    var ring := Delivered(s.ring, s.phase.stamp);
    var stream := SetBuf(s.stream, ring.bufs[2]);
    s.(ring := ring, stream := if stream.Some? then stream.value else s.stream, phase := Idle,
       delivered := s.phase.serial, aborted := s.aborted || s.phase.data != s.ring.bufs[2])
  }

  /** sync_get */
  function Take(s: State, n: nat): State
    requires s.ring.Three() && n in s.wants
  {
    var data := s.ring.bufs[1];
    var h := Handed(data, ContentOf(s, data), s.ring.timestamp, s.delivered, n, s.wants[n], s.ring.fmt);
    s.(ring := Taken(s.ring), handed := s.handed + [h], wants := s.wants - {n})
  }

  function Enter(s: State, n: nat): State
  {
    Goto(s, n, Waiting).(pending := OneMore(s.pending), aborted := s.aborted || s.pending < 0)
  }

  function Exit(s: State, n: nat): State
  {
    s.(pcs := s.pcs - {n}, pending := OneFewer(s.pending), aborted := s.aborted || OneFewer(s.pending) < 0)
  }

  function TakeRunloop(s: State, n: nat): State { Goto(s, n, Holding).(runloop := Task(n)) }

  function LeaveRunloop(s: State, n: nat): State { Goto(s, n, Released).(runloop := Nobody) }

  function TakeRing(s: State, n: nat, fmt: Format): State { Goto(s, n, Locked(fmt)).(ring_lock := Some(n)) }

  function LeaveRing(s: State, n: nat, fmt: Format): State
  {
    Goto(s, n, Holding).(ring_lock := None, wants := s.wants[n := fmt])
  }

  function StopStream(s: State, n: nat, fmt: Format): State { Goto(s, n, Stopped(fmt)).(stream := StopBufs(s.stream)) }

  function FreeBuffers(s: State, n: nat, fmt: Format): State { Goto(s, n, Emptied(fmt)).(ring := Freed()) }

  /** Three fresh blocks. */
  function Alloc(s: State, n: nat, fmt: Format, unset: Unset): State
  {
    Goto(s, n, Filled(fmt)).(
      ring := Allocated([Block(s.next), Block(s.next + 1), Block(s.next + 2)], fmt), next := s.next + 3,
      size := BufferSize(s.kind, fmt, unset.bytes))
  }

  /** set_mode and stream_setbuf of a stopped stream. */
  function SetUp(s: State, n: nat, fmt: Format, unset: Unset): State
    requires s.ring.Three()
  {
    var stream := SetBuf(s.stream, s.ring.bufs[2]);
    Goto(s, n, Armed(fmt)).(stream := if stream.Some? then stream.value else s.stream,
                            mode := ModeAfter(s.kind, s.mode, fmt, unset.key))
  }

  function StartStream(s: State, n: nat, fmt: Format, split: bool): State
  {
    Goto(s, n, Changed(fmt, true)).(
      stream := InitBufs(s.stream, split, Block(s.next), Block(s.next + 1)).(running := true), next := s.next + 2)
  }

  function CompleteFrame(s: State, stamp: nat): State
  {
    Put(s, s.stream.proc_buf, Whole(s.completed + 1, stamp, s.mode)).(
      completed := s.completed + 1, phase := Delivering(s.stream.proc_buf, s.completed + 1, stamp))
  }

  function TakeEvents(s: State): State { s.(runloop := Events, ready := false) }

  function LeaveEvents(s: State): State { s.(runloop := Nobody) }

  function GetReady(s: State): State { s.(ready := true) }

  function Want(s: State, n: nat, fmt: Format): State { s.(wants := s.wants[n := fmt]) }

  function WantNothing(s: State, n: nat): State { s.(wants := s.wants - {n}) }

  function Apply(s: State, a: Action): (t: State)
    requires s.ring.Three() && Enabled(s, a)
    ensures t.kind == s.kind
  {
    match a
    case Check(n, fmt) => Want(s, n, fmt)
    case Inc(n) => Enter(s, n)
    case LockRunloop(n) => TakeRunloop(s, n)
    case LockRing(n, fmt) => TakeRing(s, n, fmt)
    case Stop(n) => StopStream(s, n, s.pcs[n].fmt)
    case FreeRing(n) => FreeBuffers(s, n, s.pcs[n].fmt)
    case AllocRing(n, unset) => Alloc(s, n, s.pcs[n].fmt, unset)
    case Refuse(n) => Goto(s, n, Changed(s.pcs[n].fmt, false))
    case SetBuffer(n, unset) => SetUp(s, n, s.pcs[n].fmt, unset)
    case Start(n, split) => StartStream(s, n, s.pcs[n].fmt, split)
    case StartFails(n) => Goto(s, n, Changed(s.pcs[n].fmt, true))
    case UnlockRing(n) => LeaveRing(s, n, s.pcs[n].fmt)
    case UnlockRunloop(n) => LeaveRunloop(s, n)
    case Dec(n) => Exit(s, n)
    case WaitZero => GetReady(s)
    case LockEvents => TakeEvents(s)
    case UnlockEvents => LeaveEvents(s)
    case Write => Put(s, s.stream.raw_buf, Junk)
    case Complete(stamp) => CompleteFrame(s, stamp)
    case Callback => Deliver(s)
    case Get(n) => Take(s, n)
    case Leave(n) => WantNothing(s, n)
  }

  // ---- what every step keeps ----

  predicate Distinct(b: seq<Pointer>)
    requires |b| == 3
  {
    b[0] != b[1] && b[0] != b[2] && b[1] != b[2]
  }

  /** The three buffers are three, or none at all and then there is no frame either. */
  predicate RingOk(s: State)
  {
    && s.ring.Three()
    && (s.ring == Freed() || (s.ring.fmt.Some? && Distinct(s.ring.bufs)
                              && forall p :: p in s.ring.bufs ==> p.Block? && p.id < s.next))
  }

  /** A running stream writes into the third buffer, directly or from a raw buffer of its own. */
  predicate StreamOk(s: State)
    requires s.ring.Three()
  {
    s.stream.running ==>
      && s.ring != Freed()
      && s.stream.proc_buf == s.ring.bufs[2]
      && (if s.stream.split_bufs then
            s.stream.raw_buf.Block? && s.stream.raw_buf.id < s.next && s.stream.raw_buf !in s.ring.bufs
          else s.stream.raw_buf == s.stream.proc_buf)
  }

  /** The camera has the ring's format exactly if there is such a mode. */
  predicate Agrees(s: State)
  {
    s.ring.fmt.Some? && (s.mode == s.ring.fmt.value <==> Supported(s.kind, s.ring.fmt.value))
  }

  /** The camera is always in a mode of its table, and the buffers of a format of the table have its size. */
  predicate ModeOk(s: State)
  {
    && Supported(s.kind, s.mode)
    && (s.stream.running || s.ring.valid ==> Agrees(s))
    && (s.ring.fmt.Some? && Supported(s.kind, s.ring.fmt.value) ==> s.size == FrameSize(s.kind, s.ring.fmt.value))
  }

  /** A frame of the camera's mode. */
  predicate Holds(s: State, p: Pointer, serial: nat, stamp: nat)
  {
    ContentOf(s, p) == Whole(serial, stamp, s.mode)
  }

  predicate FramesOk(s: State)
    requires s.ring.Three()
  {
    && s.delivered <= s.completed
    && (s.ring.valid ==> s.ring != Freed() && Holds(s, s.ring.bufs[1], s.delivered, s.ring.timestamp))
    && (s.phase.Delivering? ==>
         && s.stream.running && Processing(s) && s.phase.data == s.stream.proc_buf
         && s.delivered < s.phase.serial <= s.completed && Holds(s, s.phase.data, s.phase.serial, s.phase.stamp))
  }

  /** A whole frame, the newest of its moment, with its own time; it has the ring's format if and only if there
      is such a mode. */
  predicate WholeAndOwn(k: Kind, h: Handed)
  {
    && h.actual.Some? && h.content.Whole? && h.content == Whole(h.newest, h.stamp, h.content.fmt)
    && Supported(k, h.content.fmt)
    && (h.content.fmt == h.actual.value <==> Supported(k, h.actual.value))
  }

  /** What was handed out so far, each frame newer than the one before. */
  predicate HandedOk(s: State)
  {
    && (forall i :: 0 <= i < |s.handed| ==> WholeAndOwn(s.kind, s.handed[i]))
    && (forall i, j :: 0 <= i < j < |s.handed| ==> s.handed[i].newest < s.handed[j].newest)
    && (forall i :: 0 <= i < |s.handed| ==> s.handed[i].newest <= s.delivered)
    && (s.ring.valid ==> forall i :: 0 <= i < |s.handed| ==> s.handed[i].newest < s.delivered)
  }

  predicate LocksOk(s: State)
  {
    && (forall n :: n in s.pcs ==> (s.pcs[n].HasRunloop() <==> s.runloop == Task(n)))
    && (forall n :: n in s.pcs ==> (s.pcs[n].HasRing() <==> s.ring_lock == Some(n)))
    && (s.runloop.Task? ==> s.runloop.n in s.pcs)
    && (s.ring_lock.Some? ==> s.ring_lock.value in s.pcs)
    && s.pending == |s.pcs|
  }

  /** A format change, stage by stage. */
  predicate ChangeOk(s: State, pc: Pc)
    requires s.ring.Three()
  {
    match pc
    case Stopped(_) => !s.stream.running
    case Emptied(_) => !s.stream.running && s.ring == Freed()
    case Filled(fmt) => !s.stream.running && s.ring.fmt == Some(fmt) && !s.ring.valid
    case Armed(fmt) =>
      !s.stream.running && s.ring.fmt == Some(fmt) && !s.ring.valid && s.stream.usr_buf == s.ring.bufs[2] && Agrees(s)
    case Changed(fmt, ok) => if ok then s.ring.fmt == Some(fmt) else s.ring == Freed()
    case _ => true
  }

  predicate ChangesOk(s: State)
    requires s.ring.Three()
  {
    forall n :: n in s.pcs ==> ChangeOk(s, s.pcs[n])
  }

  /** Everything about the frames and where they are. */
  predicate FlowOk(s: State)
  {
    RingOk(s) && StreamOk(s) && ModeOk(s) && FramesOk(s) && HandedOk(s)
  }

  predicate Safe(s: State)
  {
    !s.aborted && s.ring.Three() && FlowOk(s) && LocksOk(s) && ChangesOk(s)
  }

  lemma InitialIsSafe(k: Kind)
    ensures Safe(Initial(k))
  {
    hide Supported;
    DefaultIsSupported(k);
  }

  lemma InsideCount<T>(m: map<nat, T>, n: nat, v: T)
    ensures |m[n := v]| == |m| + (if n in m then 0 else 1)
    ensures n in m ==> |m - {n}| == |m| - 1
  {
    assert m[n := v].Keys == m.Keys + {n};
    assert (m - {n}).Keys == m.Keys - {n};
  }

  /** The locks and the counter, for a caller that moves on. */
  lemma CallerMoves(s: State, t: State, n: nat)
    requires s.ring.Three() && LocksOk(s) && t.pending == |t.pcs|
    requires forall m :: m != n ==> (m in t.pcs <==> m in s.pcs) && (m in s.pcs ==> t.pcs[m] == s.pcs[m])
    requires n in t.pcs ==>
      (t.pcs[n].HasRunloop() <==> t.runloop == Task(n)) && (t.pcs[n].HasRing() <==> t.ring_lock == Some(n))
    requires t.runloop == s.runloop || (s.runloop == Task(n) && t.runloop.Nobody?) ||
             (s.runloop.Nobody? && t.runloop == Task(n))
    requires t.ring_lock == s.ring_lock || (s.ring_lock == Some(n) && t.ring_lock.None?) ||
             (s.ring_lock.None? && t.ring_lock == Some(n))
    requires (t.runloop == Task(n) || t.ring_lock == Some(n)) ==> n in t.pcs
    ensures LocksOk(t)
  {
  }

  /** The frames, for a step that moves no buffer. */
  lemma SameFlow(s: State, t: State)
    requires FlowOk(s) && t.kind == s.kind && t.mode == s.mode && t.size == s.size
    requires t.ring == s.ring && t.stream == s.stream && t.phase == s.phase && t.contents == s.contents
    requires t.next == s.next && t.completed == s.completed && t.delivered == s.delivered && t.handed == s.handed
    requires s.phase.Delivering? && Processing(s) ==> Processing(t)
    ensures FlowOk(t)
  {
    hide Supported, FrameSize;
  }

  lemma SameChanges(s: State, t: State, n: nat)
    requires s.ring.Three() && ChangesOk(s)
    requires t.kind == s.kind && t.ring == s.ring && t.stream == s.stream && t.mode == s.mode
    requires forall m :: m in t.pcs && m != n ==> m in s.pcs && t.pcs[m] == s.pcs[m]
    requires n in t.pcs ==> ChangeOk(t, t.pcs[n])
    ensures ChangesOk(t)
  {
    hide Supported;
  }

  lemma StillChanges(s: State, t: State)
    requires s.ring.Three() && ChangesOk(s)
    requires t.kind == s.kind && t.ring == s.ring && t.stream == s.stream && t.mode == s.mode && t.pcs == s.pcs
    ensures ChangesOk(t)
  {
    hide Supported;
  }

  lemma IncStep(s: State, n: nat)
    requires Safe(s) && Enabled(s, Inc(n))
    ensures Safe(Apply(s, Inc(n)))
  {
    hide FlowOk, ChangesOk, Fits;
    var t := Apply(s, Inc(n));
    InsideCount(s.pcs, n, Waiting);
    assert LocksOk(t) by { CallerMoves(s, t, n); }
    hide LocksOk;
    SameFlow(s, t);
    SameChanges(s, t, n);
  }

  lemma DecStep(s: State, n: nat)
    requires Safe(s) && Enabled(s, Dec(n))
    ensures Safe(Apply(s, Dec(n)))
  {
    hide FlowOk, ChangesOk, Fits;
    var t := Apply(s, Dec(n));
    InsideCount(s.pcs, n, Waiting);
    assert LocksOk(t) by { CallerMoves(s, t, n); }
    hide LocksOk;
    SameFlow(s, t);
    SameChanges(s, t, n);
  }

  lemma LockRunloopStep(s: State, n: nat)
    requires Safe(s) && Enabled(s, LockRunloop(n))
    ensures Safe(Apply(s, LockRunloop(n)))
  {
    hide FlowOk, ChangesOk, Fits;
    var t := Apply(s, LockRunloop(n));
    InsideCount(s.pcs, n, t.pcs[n]);
    assert LocksOk(t) by { CallerMoves(s, t, n); }
    hide LocksOk;
    SameFlow(s, t);
    SameChanges(s, t, n);
  }

  lemma UnlockRunloopStep(s: State, n: nat)
    requires Safe(s) && Enabled(s, UnlockRunloop(n))
    ensures Safe(Apply(s, UnlockRunloop(n)))
  {
    hide FlowOk, ChangesOk, Fits;
    var t := Apply(s, UnlockRunloop(n));
    InsideCount(s.pcs, n, t.pcs[n]);
    assert LocksOk(t) by { CallerMoves(s, t, n); }
    hide LocksOk;
    SameFlow(s, t);
    SameChanges(s, t, n);
  }

  lemma DeliveringIsProcessing(s: State)
    requires Safe(s) && s.phase.Delivering?
    ensures s.stream.running && Processing(s)
  {
    hide Supported;
  }

  lemma LockRingStep(s: State, n: nat, fmt: Format)
    requires Safe(s) && Enabled(s, LockRing(n, fmt))
    ensures Safe(Apply(s, LockRing(n, fmt)))
  {
    hide FlowOk, ChangesOk, Fits;
    if s.phase.Delivering? {
      DeliveringIsProcessing(s);
    }
    var t := Apply(s, LockRing(n, fmt));
    InsideCount(s.pcs, n, t.pcs[n]);
    assert LocksOk(t) by { CallerMoves(s, t, n); }
    hide LocksOk;
    SameFlow(s, t);
    SameChanges(s, t, n);
  }

  lemma UnlockRingStep(s: State, n: nat)
    requires Safe(s) && Enabled(s, UnlockRing(n))
    ensures Safe(Apply(s, UnlockRing(n)))
  {
    hide FlowOk, ChangesOk, Fits;
    if s.phase.Delivering? {
      DeliveringIsProcessing(s);
    }
    var t := Apply(s, UnlockRing(n));
    InsideCount(s.pcs, n, t.pcs[n]);
    assert LocksOk(t) by { CallerMoves(s, t, n); }
    hide LocksOk;
    SameFlow(s, t);
    SameChanges(s, t, n);
  }

  predicate Changes(a: Action)
  {
    a.Stop? || a.FreeRing? || a.AllocRing? || a.Refuse? || a.SetBuffer? || a.Start? || a.StartFails?
  }

  /** Nobody but the holder of the ring's lock is in the middle of a change, and no frame is on its way. */
  lemma ChangeIsAlone(s: State, a: Action)
    requires Safe(s) && Enabled(s, a) && Changes(a)
    ensures s.phase.Idle? && s.runloop == Task(a.n) && s.ring_lock == Some(a.n)
    ensures forall m :: m in s.pcs && m != a.n ==> !s.pcs[m].HasRing()
  {
    hide FlowOk, ChangesOk, Fits;
    ChangeMoves(s, a);
    hide Enabled, Apply;
    if s.phase.Delivering? {
      DeliveringIsProcessing(s);
    }
  }

  lemma ChangeMoves(s: State, a: Action)
    requires s.ring.Three() && Enabled(s, a) && Changes(a)
    ensures var t := Apply(s, a);
      && a.n in s.pcs && s.pcs[a.n].HasRing() && s.pcs[a.n].HasRunloop()
      && a.n in t.pcs && t.pcs[a.n].HasRing() && t.pcs[a.n].HasRunloop() && t.pcs == s.pcs[a.n := t.pcs[a.n]]
      && t.runloop == s.runloop && t.ring_lock == s.ring_lock && t.pending == s.pending && t.aborted == s.aborted
      && t.wants == s.wants
  {
    hide SetBuf, StopBufs, InitBufs, Fits, ModeAfter, BufferSize;
  }

  lemma ChangeKeepsLocks(s: State, a: Action)
    requires Safe(s) && Enabled(s, a) && Changes(a)
    ensures LocksOk(Apply(s, a))
  {
    hide FlowOk, ChangesOk;
    var t := Apply(s, a);
    ChangeMoves(s, a);
    hide Apply, Enabled;
    InsideCount(s.pcs, a.n, t.pcs[a.n]);
    CallerMoves(s, t, a.n);
  }

  /** The changes, when nobody else is in the middle of one. */
  lemma AloneChanges(s: State, t: State, n: nat)
    requires t.ring.Three()
    requires forall m :: m in s.pcs && m != n ==> !s.pcs[m].HasRing()
    requires forall m :: m in t.pcs && m != n ==> m in s.pcs && t.pcs[m] == s.pcs[m]
    requires n in t.pcs ==> ChangeOk(t, t.pcs[n])
    ensures ChangesOk(t)
  {
    hide Agrees;
  }

  /** The frames, for a step of a format change. */
  lemma QuietFrames(s: State, t: State)
    requires s.ring.Three() && t.ring.Three() && FramesOk(s) && HandedOk(s) && s.phase.Idle? && t.phase.Idle?
    requires t.completed == s.completed && t.delivered == s.delivered && t.handed == s.handed && t.kind == s.kind
    requires t.ring.valid ==> t.ring == s.ring && t.contents == s.contents && t.mode == s.mode
    ensures FramesOk(t) && HandedOk(t)
  {
    hide WholeAndOwn;
  }

  lemma StopFlow(s: State, n: nat, fmt: Format)
    requires s.ring.Three() && FlowOk(s) && s.phase.Idle? && true
    ensures FlowOk(StopStream(s, n, fmt)) && ChangeOk(StopStream(s, n, fmt), Stopped(fmt))
  {
    hide FramesOk, HandedOk, Supported, ModeAfter, BufferSize, FrameSize;
    QuietFrames(s, StopStream(s, n, fmt));
  }

  lemma FreeFlow(s: State, n: nat, fmt: Format)
    requires s.ring.Three() && FlowOk(s) && s.phase.Idle? && ChangeOk(s, Stopped(fmt))
    ensures FlowOk(FreeBuffers(s, n, fmt)) && ChangeOk(FreeBuffers(s, n, fmt), Emptied(fmt))
  {
    hide FramesOk, HandedOk, Supported, ModeAfter, BufferSize, FrameSize;
    QuietFrames(s, FreeBuffers(s, n, fmt));
  }

  lemma AllocFlow(s: State, n: nat, fmt: Format, unset: Unset)
    requires s.ring.Three() && FlowOk(s) && s.phase.Idle? && ChangeOk(s, Emptied(fmt))
    ensures FlowOk(Alloc(s, n, fmt, unset)) && ChangeOk(Alloc(s, n, fmt, unset), Filled(fmt))
  {
    hide FramesOk, HandedOk, Supported, ModeAfter, BufferSize, FrameSize;
    if Supported(s.kind, fmt) {
      SizeOfSupported(s.kind, fmt, unset.bytes);
    }
    QuietFrames(s, Alloc(s, n, fmt, unset));
  }

  lemma SetUpFlow(s: State, n: nat, fmt: Format, unset: Unset)
    requires s.ring.Three() && FlowOk(s) && s.phase.Idle? && ChangeOk(s, Filled(fmt))
    ensures FlowOk(SetUp(s, n, fmt, unset)) && ChangeOk(SetUp(s, n, fmt, unset), Armed(fmt))
  {
    hide FramesOk, HandedOk, Supported, ModeAfter, BufferSize, FrameSize;
    ModeIsTaken(s.kind, s.mode, fmt, unset.key);
    QuietFrames(s, SetUp(s, n, fmt, unset));
  }

  lemma StartFlow(s: State, n: nat, fmt: Format, split: bool)
    requires s.ring.Three() && FlowOk(s) && s.phase.Idle? && ChangeOk(s, Armed(fmt))
    ensures FlowOk(StartStream(s, n, fmt, split)) && ChangeOk(StartStream(s, n, fmt, split), Changed(fmt, true))
  {
    hide FramesOk, HandedOk, Supported, ModeAfter, BufferSize, FrameSize;
    QuietFrames(s, StartStream(s, n, fmt, split));
  }

  lemma OnwardFlow(s: State, n: nat, fmt: Format, pc: Pc)
    requires s.ring.Three() && FlowOk(s) && s.phase.Idle? && ChangeOk(s, pc)
    ensures FlowOk(Goto(s, n, pc)) && ChangeOk(Goto(s, n, pc), pc)
  {
    hide FramesOk, HandedOk, Supported, ModeAfter, BufferSize, FrameSize;
    QuietFrames(s, Goto(s, n, pc));
  }

  lemma ChangeFlow(s: State, a: Action)
    requires s.ring.Three() && FlowOk(s) && s.phase.Idle? && Enabled(s, a) && Changes(a) && ChangeOk(s, s.pcs[a.n])
    ensures var t := Apply(s, a); t.ring.Three() && FlowOk(t) && a.n in t.pcs && ChangeOk(t, t.pcs[a.n])
  {
    hide FlowOk, Known, Fits, Agrees, ModeAfter, BufferSize, SetBuf, StopBufs, InitBufs;
    var n, fmt := a.n, s.pcs[a.n].fmt;
    match a
    case Stop(_) => StopFlow(s, n, fmt);
    case FreeRing(_) => FreeFlow(s, n, fmt);
    case AllocRing(_, unset) => AllocFlow(s, n, fmt, unset);
    case SetBuffer(_, unset) => SetUpFlow(s, n, fmt, unset);
    case Start(_, split) => StartFlow(s, n, fmt, split);
    case Refuse(_) => OnwardFlow(s, n, fmt, Changed(fmt, false));
    case StartFails(_) => OnwardFlow(s, n, fmt, Changed(fmt, true));
  }

  lemma ChangeStep(s: State, a: Action)
    requires Safe(s) && Enabled(s, a) && Changes(a)
    ensures Safe(Apply(s, a))
  {
    hide FlowOk, LocksOk, ChangeOk, Enabled, Apply;
    var t := Apply(s, a);
    ChangeMoves(s, a);
    assert ChangeOk(s, s.pcs[a.n]);
    hide ChangesOk;
    ChangeIsAlone(s, a);
    ChangeKeepsLocks(s, a);
    ChangeFlow(s, a);
    AloneChanges(s, t, a.n);
  }

  /** The locks, for a step of no caller; only the run loop's own thread may take or leave its lock. */
  lemma NobodyMoves(s: State, t: State)
    requires LocksOk(s)
    requires t.pcs == s.pcs && t.pending == s.pending && t.ring_lock == s.ring_lock
    requires t.runloop == s.runloop || (!t.runloop.Task? && !s.runloop.Task?)
    ensures LocksOk(t)
  {
  }

  lemma EventsStep(s: State, a: Action)
    requires Safe(s) && Enabled(s, a) && (a.WaitZero? || a.LockEvents? || a.UnlockEvents?)
    ensures Safe(Apply(s, a))
  {
    hide FlowOk, ChangesOk, LocksOk, Fits;
    var t := Apply(s, a);
    assert s.phase.Delivering? && Processing(s) ==> Processing(t);
    NobodyMoves(s, t);
    SameFlow(s, t);
    StillChanges(s, t);
  }

  lemma WantsStep(s: State, a: Action)
    requires Safe(s) && Enabled(s, a) && (a.Check? || a.Leave?)
    ensures Safe(Apply(s, a))
  {
    hide FlowOk, ChangesOk, LocksOk, Fits;
    var t := Apply(s, a);
    assert s.phase.Delivering? && Processing(s) ==> Processing(t);
    NobodyMoves(s, t);
    SameFlow(s, t);
    StillChanges(s, t);
  }

  /** A pointer of the ring's first two buffers is not the third one, nor the raw buffer of a stream
      that splits. */
  lemma FirstTwo(s: State)
    requires RingOk(s) && StreamOk(s) && s.stream.running
    ensures s.ring.fmt.Some? && s.ring != Freed()
    ensures s.stream.proc_buf == s.ring.bufs[2] && s.stream.proc_buf.Block?
    ensures forall k :: 0 <= k < 2 ==> s.ring.bufs[k] != s.stream.proc_buf && s.ring.bufs[k] != s.stream.raw_buf
  {
    assert forall k :: 0 <= k < 3 ==> s.ring.bufs[k] in s.ring.bufs;
  }

  /** What a write into the third buffer, or into a raw buffer, leaves alone. */
  lemma WriteStep(s: State)
    requires Safe(s) && Enabled(s, Write)
    ensures Safe(Apply(s, Write))
    ensures forall k :: 0 <= k < 2 ==> ContentOf(Apply(s, Write), s.ring.bufs[k]) == ContentOf(s, s.ring.bufs[k])
  {
    hide LocksOk, ChangesOk, WholeAndOwn, ModeOk, Fits;
    FirstTwo(s);
    var t := Apply(s, Write);
    SameModes(s, t);
    NobodyMoves(s, t);
    StillChanges(s, t);
  }

  lemma SameModes(s: State, t: State)
    requires ModeOk(s) && t.kind == s.kind && t.mode == s.mode && t.size == s.size && t.ring.fmt == s.ring.fmt
    requires t.stream.running || t.ring.valid ==> s.stream.running || s.ring.valid
    ensures ModeOk(t)
  {
    hide Supported, FrameSize;
  }

  lemma CompleteStep(s: State, stamp: nat)
    requires Safe(s) && Enabled(s, Complete(stamp))
    ensures Safe(Apply(s, Complete(stamp)))
    ensures forall k :: 0 <= k < 2 ==>
      ContentOf(Apply(s, Complete(stamp)), s.ring.bufs[k]) == ContentOf(s, s.ring.bufs[k])
  {
    hide LocksOk, ChangesOk, WholeAndOwn, ModeOk, Fits;
    FirstTwo(s);
    var t := Apply(s, Complete(stamp));
    SameModes(s, t);
    NobodyMoves(s, t);
    StillChanges(s, t);
  }

  lemma CallbackStep(s: State)
    requires s.phase.Delivering? && s.ring.Three() && Safe(s) && Enabled(s, Callback)
    ensures Safe(Apply(s, Callback)) && s.phase.data == s.ring.bufs[2]
  {
    hide LocksOk, WholeAndOwn, ModeOk, Fits;
    var t := Apply(s, Callback);
    FirstTwo(s);
    SameModes(s, t);
    NobodyMoves(s, t);
    DeliveredChanges(s, t);
  }

  /** No caller is in the middle of a change while a frame is delivered. */
  lemma DeliveredChanges(s: State, t: State)
    requires LocksOk(s) && t.pcs == s.pcs && s.ring_lock.None? && t.ring.Three()
    ensures ChangesOk(t)
  {
    assert forall n :: n in s.pcs ==> !s.pcs[n].HasRing();
  }

  /** What was handed out, with one more frame that is newer than all before. */
  lemma HandedGrows(s: State, t: State, h: Handed)
    requires HandedOk(s) && t.handed == s.handed + [h] && WholeAndOwn(s.kind, h) && t.kind == s.kind
    requires s.ring.valid && !t.ring.valid && h.newest == s.delivered == t.delivered
    ensures HandedOk(t)
  {
    hide WholeAndOwn;
  }

  lemma TakenIsWhole(s: State, n: nat)
    requires s.ring.Three() && ModeOk(s) && FramesOk(s) && s.ring.valid && n in s.wants
    ensures var t := Take(s, n);
      t.handed == s.handed + [t.handed[|s.handed|]] && WholeAndOwn(s.kind, t.handed[|s.handed|])
  {
    hide Supported, FrameSize;
  }

  lemma GetFlow(s: State, n: nat)
    requires s.ring.Three() && FlowOk(s) && s.ring.valid && n in s.wants
    ensures FlowOk(Take(s, n))
  {
    hide HandedOk, WholeAndOwn, Supported, FrameSize;
    var t := Take(s, n);
    TakenIsWhole(s, n);
    HandedGrows(s, t, t.handed[|s.handed|]);
    assert forall p :: p in t.ring.bufs ==> p in s.ring.bufs;
  }

  lemma GetStep(s: State, n: nat)
    requires Safe(s) && Enabled(s, Get(n))
    ensures Safe(Apply(s, Get(n)))
  {
    hide FlowOk, LocksOk, ChangesOk, Fits;
    var t := Apply(s, Get(n));
    GetFlow(s, n);
    NobodyMoves(s, t);
    DeliveredChanges(s, t);
  }

  lemma StepIsSafe(s: State, a: Action)
    requires Safe(s) && Enabled(s, a)
    ensures Safe(Apply(s, a))
  {
    assert s.ring.Three() && (a.Callback? ==> s.phase.Delivering?);
    hide Safe, Enabled, Apply;
    match a
    case Inc(n) => IncStep(s, n);
    case Dec(n) => DecStep(s, n);
    case LockRunloop(n) => LockRunloopStep(s, n);
    case UnlockRunloop(n) => UnlockRunloopStep(s, n);
    case LockRing(n, fmt) => LockRingStep(s, n, fmt);
    case UnlockRing(n) => UnlockRingStep(s, n);
    case Stop(_) | FreeRing(_) | AllocRing(_, _) | Refuse(_) | SetBuffer(_, _) | Start(_, _) | StartFails(_) =>
      ChangeStep(s, a);
    case WaitZero | LockEvents | UnlockEvents => EventsStep(s, a);
    case Check(_, _) | Leave(_) => WantsStep(s, a);
    case Write => WriteStep(s);
    case Complete(stamp) => CompleteStep(s, stamp);
    case Callback => CallbackStep(s);
    case Get(n) => GetStep(s, n);
  }

  // ---- whole runs ----

  /** The actions can happen one after the other, in whatever order the threads are scheduled. */
  predicate Possible(s: State, run: seq<Action>)
    decreases |run|
  {
    run == [] || (s.ring.Three() && Enabled(s, run[0]) && Possible(Apply(s, run[0]), run[1..]))
  }

  function After(s: State, run: seq<Action>): (t: State)
    requires Possible(s, run)
    ensures t.kind == s.kind
    decreases |run|
  {
    if run == [] then s else After(Apply(s, run[0]), run[1..])
  }

  lemma {:induction false} RunIsSafe(s: State, run: seq<Action>)
    requires Safe(s) && Possible(s, run)
    ensures Safe(After(s, run))
    decreases |run|
  {
    if run != [] {
      StepIsSafe(s, run[0]);
      RunIsSafe(Apply(s, run[0]), run[1..]);
    }
  }

  /** In every interleaving: no assertion of the source fails, the library writes into the third buffer, which
      holds a frame if the camera has a mode of the ring's format, the three buffers are different, and the
      counter counts the callers that are inside. */
  lemma EveryInterleaving(k: Kind, run: seq<Action>)
    requires Possible(Initial(k), run)
    ensures var s := After(Initial(k), run);
      && !s.aborted
      && s.ring.Three() && (s.ring == Freed() || Distinct(s.ring.bufs))
      && (s.stream.running ==> s.stream.proc_buf == s.ring.bufs[2] && s.ring.fmt.Some?)
      && (s.stream.running && Supported(k, s.ring.fmt.value) ==> Fits(s))
      && (s.phase.Delivering? ==> s.phase.data == s.ring.bufs[2])
      && s.pending == |s.pcs|
  {
    InitialIsSafe(k);
    RunIsSafe(Initial(k), run);
    hide Supported, FrameSize;
  }

  /** In every interleaving: sync_get returns whole frames, each with its own time, the newest one that the ring
      was given, and never one again. A frame is in the ring's format if and only if that is a pair of the
      mode table, which freenect_find_*_mode tells a caller beforehand. */
  lemma EveryGet(k: Kind, run: seq<Action>)
    requires Possible(Initial(k), run)
    ensures var h := After(Initial(k), run).handed;
      && (forall i :: 0 <= i < |h| ==> WholeAndOwn(k, h[i]))
      && (forall i, j :: 0 <= i < j < |h| ==> h[i].newest < h[j].newest)
  {
    InitialIsSafe(k);
    RunIsSafe(Initial(k), run);
    hide WholeAndOwn;
  }

  /** What one get hands out: the waiting buffer, whose frame is the last one delivered, and afterwards
      that buffer is the one at the front. */
  lemma GetHandsOutTheNewest(s: State, n: nat)
    requires Safe(s) && Enabled(s, Get(n))
    ensures var t, fmt := Apply(s, Get(n)), s.ring.fmt;
      && fmt.Some? && n in s.wants && t.ring.Three() && t.ring.bufs[0] == s.ring.bufs[1] && !t.ring.valid
      && var frame := Whole(s.delivered, s.ring.timestamp, s.mode);
      && (s.mode == fmt.value <==> Supported(s.kind, fmt.value))
      && ContentOf(t, t.ring.bufs[0]) == frame
      && t.handed == s.handed + [Handed(t.ring.bufs[0], frame, s.ring.timestamp, s.delivered, n, s.wants[n], fmt)]
  {
    hide Supported, FrameSize, Fits;
  }

  /** Most steps touch neither the ring nor any content. */
  lemma OthersTouchNothing(s: State, a: Action)
    requires s.ring.Three() && Enabled(s, a)
    requires !a.Get? && !a.FreeRing? && !a.AllocRing? && !a.Write? && !a.Complete? && !a.Callback?
    ensures Apply(s, a).ring == s.ring && Apply(s, a).contents == s.contents
  {
    hide Fits, ModeAfter;
  }

  /** The buffer at the front has kept its place and its content, and the three buffers are the same three. */
  predicate FrontKept(s: State, t: State)
    requires s.ring.Three()
  {
    && t.ring.Three() && t.ring.bufs[0] == s.ring.bufs[0] && multiset(t.ring.bufs) == multiset(s.ring.bufs)
    && ContentOf(t, t.ring.bufs[0]) == ContentOf(s, s.ring.bufs[0])
  }

  lemma SameThree(b: seq<Pointer>)
    requires |b| == 3
    ensures multiset([b[0], b[2], b[1]]) == multiset(b)
  {
    assert b == [b[0], b[1], b[2]];
  }

  lemma CallbackKeepsFront(s: State)
    requires s.ring.Three() && s.phase.Delivering?
    ensures FrontKept(s, Deliver(s))
  {
    hide SetBuf;
    SameThree(s.ring.bufs);
  }

  lemma WriteKeepsFront(s: State, a: Action)
    requires Safe(s) && Enabled(s, a) && (a.Write? || a.Complete?)
    ensures FrontKept(s, Apply(s, a))
  {
    hide FlowOk, LocksOk, ChangesOk, Fits;
    if a.Write? {
      WriteStep(s);
    } else {
      CompleteStep(s, a.stamp);
    }
  }

  /** Nothing but a get or a format change touches the front. */
  lemma FrontStaysPut(s: State, a: Action)
    requires Safe(s) && Enabled(s, a) && !a.Get? && !a.FreeRing? && !a.AllocRing?
    ensures FrontKept(s, Apply(s, a))
  {
    if a.Write? || a.Complete? {
      WriteKeepsFront(s, a);
    } else if a.Callback? {
      CallbackKeepsFront(s);
    } else {
      OthersTouchNothing(s, a);
    }
  }

  /** The buffer handed out last is left alone for as long as no get and no format change happens, and the
      three buffers stay the same three. */
  lemma {:induction false} LastHandedIsLeftAlone(s: State, run: seq<Action>)
    requires Safe(s) && Possible(s, run)
    requires forall i :: 0 <= i < |run| ==> !run[i].Get? && !run[i].FreeRing? && !run[i].AllocRing?
    ensures FrontKept(s, After(s, run))
    decreases |run|
  {
    if run != [] {
      FrontStaysPut(s, run[0]);
      StepIsSafe(s, run[0]);
      LastHandedIsLeftAlone(Apply(s, run[0]), run[1..]);
    }
  }

  /** Behind a refused format sync_get waits: nothing but another format change ends that. */
  lemma {:induction false} RefusedFormatBlocks(s: State, run: seq<Action>)
    requires Safe(s) && s.ring == Freed() && Possible(s, run)
    requires forall i :: 0 <= i < |run| ==> !run[i].AllocRing?
    ensures After(s, run).ring == Freed()
    ensures forall i :: 0 <= i < |run| ==> !run[i].Get?
    decreases |run|
  {
    hide Safe, Enabled, Freed;
    if run != [] {
      StepIsSafe(s, run[0]);
      StaysFreed(s, run[0]);
      hide Apply;
      RefusedFormatBlocks(Apply(s, run[0]), run[1..]);
      assert run == [run[0]] + run[1..];
    }
  }

  lemma StaysFreed(s: State, a: Action)
    requires Safe(s) && Enabled(s, a) && s.ring == Freed() && !a.AllocRing?
    ensures Apply(s, a).ring == Freed() && !a.Get?
  {
    hide Supported, FrameSize, Fits, ModeAfter, LocksOk, HandedOk;
    assert a.SetBuffer? ==> ChangeOk(s, s.pcs[a.n]);
  }

  /** Behind a start that failed sync_get waits too, although the ring has its format and every caller that
      wants it goes straight there: nothing but another start ends that. */
  lemma {:induction false} FailedStartBlocks(s: State, run: seq<Action>)
    requires Dry(s) && Possible(s, run) && forall i :: 0 <= i < |run| ==> !run[i].Start?
    ensures Dry(After(s, run)) && forall i :: 0 <= i < |run| ==> !run[i].Get?
    decreases |run|
  {
    if run != [] {
      hide Enabled, Apply, Dry;
      StaysDry(s, run[0]);
      FailedStartBlocks(Apply(s, run[0]), run[1..]);
      assert run == [run[0]] + run[1..];
    }
  }

  /** No frame is there and none can come. */
  predicate Dry(s: State) { !s.stream.running && !s.ring.valid && s.phase.Idle? }

  lemma StaysDry(s: State, a: Action)
    requires s.ring.Three() && Enabled(s, a) && Dry(s) && !a.Start?
    ensures Dry(Apply(s, a)) && !a.Get?
  {
    hide Fits, ModeAfter, BufferSize;
  }

  /** That is where a failed start leads. */
  lemma FailedStartIsDry(s: State, n: nat)
    requires Safe(s) && Enabled(s, StartFails(n))
    ensures Dry(Apply(s, StartFails(n))) && Apply(s, StartFails(n)).ring.fmt == Some(s.pcs[n].fmt)
  {
    assert ChangeOk(s, s.pcs[n]);
    ChangeIsAlone(s, StartFails(n));
    hide FlowOk, LocksOk, ChangesOk, Agrees;
  }

  /** A caller that leaves setup_kinect's locked part has the format it asked for, or it was refused. */
  lemma SetupGivesTheFormat(s: State, n: nat)
    requires Safe(s) && Enabled(s, UnlockRing(n))
    ensures s.ring.fmt == Some(s.pcs[n].fmt) || (s.pcs[n] == Changed(s.pcs[n].fmt, false) && s.ring == Freed())
  {
    hide FlowOk, Fits;
  }

  /** What the holder of a lock can do next. */
  function NextMove(s: State): Action
    requires s.ring.Three() && !s.runloop.Nobody?
  {
    if s.phase.Delivering? then Callback
    else if s.runloop.Events? then UnlockEvents
    else
      var n := s.runloop.n;
      if n !in s.pcs then Inc(n)
      else
        match s.pcs[n]
        case Locked(fmt) => if s.ring.fmt == Some(fmt) then UnlockRing(n) else Stop(n)
        case Stopped(_) => FreeRing(n)
        case Emptied(fmt) => if Known(s.kind, fmt) then AllocRing(n, Unset(0, 0)) else Refuse(n)
        case Filled(_) => SetBuffer(n, Unset(0, 0))
        case Armed(_) => Start(n, false)
        case Changed(_, _) => UnlockRing(n)
        case _ => UnlockRunloop(n)
  }

  /** The two locks cannot block each other: whoever holds runloop_lock is never waiting for a holder of
      the ring's lock, and the ring's lock is held only by a holder of runloop_lock. */
  lemma NoDeadlock(s: State)
    requires Safe(s) && !s.runloop.Nobody?
    ensures Enabled(s, NextMove(s))
    ensures s.ring_lock.Some? ==> s.runloop == Task(s.ring_lock.value)
  {
    hide Supported, FrameSize, Fits, HandedOk, ModeOk;
    assert s.ring_lock.Some? ==> s.pcs[s.ring_lock.value].HasRing() && s.pcs[s.ring_lock.value].HasRunloop();
  }

  predicate Leads(s: State, run: seq<Action>, t: State)
  {
    Possible(s, run) && After(s, run) == t
  }

  lemma {:induction false} OneMoreStep(s: State, run: seq<Action>, t: State, a: Action)
    requires Leads(s, run, t) && t.ring.Three() && Enabled(t, a)
    ensures Leads(s, run + [a], Apply(t, a))
    decreases |run|
  {
    if run == [] {
      assert run + [a] == [a];
    } else {
      OneMoreStep(Apply(s, run[0]), run[1..], t, a);
      assert (run + [a])[1..] == run[1..] + [a];
    }
  }

  lemma {:induction false} RunsJoin(s: State, a: seq<Action>, t: State, b: seq<Action>, u: State)
    requires Leads(s, a, t) && Leads(t, b, u)
    ensures Leads(s, a + b, u)
    decreases |a|
  {
    if a == [] {
      assert a + b == b;
    } else {
      RunsJoin(Apply(s, a[0]), a[1..], t, b, u);
      assert (a + b)[1..] == a[1..] + b;
    }
  }

  // ---- the protocol is alive ----

  predicate AtRest(s: State)
  {
    && s.ring.Three() && s.pcs == map[] && s.pending == 0 && !s.ready && !s.aborted
    && s.runloop.Nobody? && s.ring_lock.None? && s.phase.Idle?
  }

  /** Behind a format change by caller n; u is what a mode that was not found holds. */
  function Settled(s: State, n: nat, fmt: Format, u: Unset): State
  {
    var i := s.next;
    s.(ring := Allocated([Block(i), Block(i + 1), Block(i + 2)], fmt), size := BufferSize(s.kind, fmt, u.bytes),
       mode := ModeAfter(s.kind, s.mode, fmt, u.key), next := i + 5,
       stream := InitBufs(StopBufs(s.stream).(usr_buf := Block(i + 2)), true, Block(i + 3), Block(i + 4)).(
         running := true),
       wants := s.wants[n := fmt])
  }

  /** The state while caller n, alone, is at a place of setup_kinect. */
  function During(s: State, n: nat, u: Unset, pc: Pc): State
  {
    var t := s.(pcs := map[n := pc], pending := 1, runloop := if pc.HasRunloop() then Task(n) else Nobody,
                ring_lock := if pc.HasRing() then Some(n) else None);
    var stopped := StopBufs(s.stream);
    match pc
    case Stopped(_) => t.(stream := stopped)
    case Emptied(_) => t.(stream := stopped, ring := Freed())
    case Filled(fmt) => Alloc(t.(stream := stopped), n, fmt, u)
    case Armed(fmt) =>
      Alloc(t.(stream := stopped.(usr_buf := Block(s.next + 2))), n, fmt, u).(
        pcs := map[n := pc], mode := ModeAfter(s.kind, s.mode, fmt, u.key))
    case _ => t
  }

  /** The step a of caller n leads from one place to the next. */
  predicate Moves(s: State, n: nat, u: Unset, pc: Pc, a: Action, next: Pc)
  {
    var t := During(s, n, u, pc);
    t.ring.Three() && Enabled(t, a) && Apply(t, a) == During(s, n, u, next)
  }

  lemma GoesIn(s: State, n: nat, u: Unset)
    requires AtRest(s) && n !in s.wants
    ensures Enabled(s, Inc(n)) && Apply(s, Inc(n)) == During(s, n, u, Waiting)
  {
    hide ModeAfter, BufferSize, Fits;
  }

  lemma GoesOn(s: State, n: nat, u: Unset)
    requires AtRest(s)
    ensures Moves(s, n, u, Waiting, LockRunloop(n), Holding)
  {
    hide ModeAfter, BufferSize, Fits;
  }

  lemma Locks(s: State, n: nat, fmt: Format, u: Unset)
    requires AtRest(s)
    ensures Moves(s, n, u, Holding, LockRing(n, fmt), Locked(fmt))
  {
    hide ModeAfter, BufferSize, Fits;
  }

  lemma Stops(s: State, n: nat, fmt: Format, u: Unset)
    requires AtRest(s) && s.ring.fmt != Some(fmt)
    ensures Moves(s, n, u, Locked(fmt), Stop(n), Stopped(fmt))
  {
    hide ModeAfter, BufferSize, Fits;
  }

  lemma Frees(s: State, n: nat, fmt: Format, u: Unset)
    requires AtRest(s)
    ensures Moves(s, n, u, Stopped(fmt), FreeRing(n), Emptied(fmt))
  {
    hide ModeAfter, BufferSize, Fits;
  }

  lemma Allocates(s: State, n: nat, fmt: Format, u: Unset)
    requires AtRest(s) && Known(s.kind, fmt)
    ensures Moves(s, n, u, Emptied(fmt), AllocRing(n, u), Filled(fmt))
  {
    hide ModeAfter, BufferSize, Fits;
  }

  lemma DuringAt(s: State, n: nat, u: Unset, pc: Pc)
    requires AtRest(s)
    ensures var t := During(s, n, u, pc); t.ring.Three() && t.pcs == map[n := pc]
  {
    hide ModeAfter, BufferSize, StopBufs;
  }

  lemma SetUpInPlace(s: State, n: nat, fmt: Format, u: Unset)
    requires AtRest(s)
    ensures var t := During(s, n, u, Filled(fmt));
      t.ring.Three() && SetUp(t, n, fmt, u) == During(s, n, u, Armed(fmt))
  {
    hide ModeAfter, BufferSize;
  }

  lemma Points(s: State, n: nat, fmt: Format, u: Unset)
    requires AtRest(s)
    ensures Moves(s, n, u, Filled(fmt), SetBuffer(n, u), Armed(fmt))
  {
    hide During, SetUp, Fits;
    DuringAt(s, n, u, Filled(fmt));
    SetUpInPlace(s, n, fmt, u);
  }

  lemma StartInPlace(s: State, n: nat, fmt: Format, u: Unset)
    requires AtRest(s)
    ensures StartStream(During(s, n, u, Armed(fmt)), n, fmt, true) ==
      During(Settled(s, n, fmt, u).(wants := s.wants), n, u, Changed(fmt, true))
  {
    hide ModeAfter, BufferSize, InitBufs, StopBufs;
  }

  lemma Starts(s: State, n: nat, fmt: Format, u: Unset)
    requires AtRest(s)
    ensures var t := During(s, n, u, Armed(fmt));
      && t.ring.Three() && Enabled(t, Start(n, true))
      && Apply(t, Start(n, true)) == During(Settled(s, n, fmt, u).(wants := s.wants), n, u, Changed(fmt, true))
  {
    hide During, StartStream, Settled, Fits;
    DuringAt(s, n, u, Armed(fmt));
    StartInPlace(s, n, fmt, u);
  }

  lemma Unlocks(s: State, n: nat, fmt: Format, u: Unset)
    requires AtRest(s)
    ensures var t := Settled(s, n, fmt, u);
      && var v := During(t.(wants := s.wants), n, u, Changed(fmt, true));
      && v.ring.Three() && Enabled(v, UnlockRing(n)) && Apply(v, UnlockRing(n)) == During(t, n, u, Holding)
  {
    hide ModeAfter, BufferSize, Fits;
  }

  lemma GoesBack(s: State, n: nat, u: Unset)
    requires AtRest(s)
    ensures Moves(s, n, u, Holding, UnlockRunloop(n), Released)
  {
    hide ModeAfter, BufferSize, Fits;
  }

  lemma GoesOut(s: State, n: nat, u: Unset)
    requires AtRest(s)
    ensures var t := During(s, n, u, Released); t.ring.Three() && Enabled(t, Dec(n)) && Apply(t, Dec(n)) == s
  {
    hide ModeAfter, BufferSize, Fits;
    assert map[n := Released] - {n} == map[];
  }

  lemma Then(s: State, run: seq<Action>, t: State, a: Action) returns (more: seq<Action>, u: State)
    requires Leads(s, run, t) && t.ring.Three() && Enabled(t, a)
    ensures u == Apply(t, a) && Leads(s, more, u)
  {
    OneMoreStep(s, run, t, a);
    more, u := run + [a], Apply(t, a);
  }

  lemma FormatCanBeSet(s: State, n: nat, fmt: Format, u: Unset) returns (run: seq<Action>)
    requires AtRest(s) && n !in s.wants && s.ring.fmt != Some(fmt) && Known(s.kind, fmt)
    ensures Leads(s, run, Settled(s, n, fmt, u)) && AtRest(Settled(s, n, fmt, u))
  {
    var t, end := s, Settled(s, n, fmt, u);
    run := [];
    assert Leads(s, run, t) && AtRest(end);
    hide Leads, Enabled, Apply, During, Settled, Known, AtRest;
    GoesIn(s, n, u);
    GoesOn(s, n, u);
    Locks(s, n, fmt, u);
    Stops(s, n, fmt, u);
    Frees(s, n, fmt, u);
    Allocates(s, n, fmt, u);
    Points(s, n, fmt, u);
    Starts(s, n, fmt, u);
    Unlocks(s, n, fmt, u);
    GoesBack(end, n, u);
    GoesOut(end, n, u);
    run, t := Then(s, run, t, Inc(n));
    run, t := Then(s, run, t, LockRunloop(n));
    run, t := Then(s, run, t, LockRing(n, fmt));
    run, t := Then(s, run, t, Stop(n));
    run, t := Then(s, run, t, FreeRing(n));
    run, t := Then(s, run, t, AllocRing(n, u));
    run, t := Then(s, run, t, SetBuffer(n, u));
    run, t := Then(s, run, t, Start(n, true));
    run, t := Then(s, run, t, UnlockRing(n));
    run, t := Then(s, run, t, UnlockRunloop(n));
    run, t := Then(s, run, t, Dec(n));
  }

  lemma EventsCanBegin(s: State)
    requires AtRest(s)
    ensures Leads(s, [WaitZero, LockEvents], s.(runloop := Events))
  {
    var t := Apply(s, WaitZero);
    assert Apply(t, LockEvents) == s.(runloop := Events);
  }

  /** A completed frame is given to the ring and handed out. */
  lemma FrameCanBeTaken(s: State, run: seq<Action>, t: State, n: nat) returns (more: seq<Action>, u: State)
    requires Leads(s, run, t)
    requires t.ring.Three() && t.phase.Delivering? && t.ring_lock.None? && n in t.wants && n !in t.pcs
    ensures Leads(s, more, u)
    ensures var b := t.ring.bufs[2];
      u.handed == t.handed + [Handed(b, ContentOf(t, b), t.phase.stamp, t.phase.serial, n, t.wants[n], t.ring.fmt)]
  {
    hide SetBuf, Leads;
    more, u := Then(s, run, t, Callback);
    more, u := Then(s, more, u, Get(n));
  }

  /** A frame arrives and is handed out to caller n. */
  lemma FrameCanArrive(s: State, n: nat, stamp: nat) returns (run: seq<Action>, t: State)
    requires AtRest(s) && n in s.wants && s.stream.running && Fits(s)
    requires s.stream.proc_buf == s.ring.bufs[2] && s.ring.bufs[2].Block?
    ensures Leads(s, run, t)
    ensures var serial := s.completed + 1;
      t.handed == s.handed +
        [Handed(s.ring.bufs[2], Whole(serial, stamp, s.mode), stamp, serial, n, s.wants[n], s.ring.fmt)]
  {
    hide FrameSize;
    EventsCanBegin(s);
    var u := s.(runloop := Events);
    run, t := Then(s, [WaitZero, LockEvents], u, Complete(stamp));
    run, t := FrameCanBeTaken(s, run, t, n);
  }

  /** A caller sets any format that the ring knows, a frame arrives and is handed out, in the mode that the
      camera is in then, unless the buffers are too small for it. */
  lemma FrameCanBeHandedOut(k: Kind, fmt: Format, u: Unset, stamp: nat) returns (run: seq<Action>)
    requires Known(k, fmt) && FrameSize(k, ModeAfter(k, Default(k), fmt, u.key)) <= BufferSize(k, fmt, u.bytes)
    ensures Possible(Initial(k), run)
    ensures var mode := ModeAfter(k, Default(k), fmt, u.key);
      && After(Initial(k), run).handed == [Handed(Block(2), Whole(1, stamp, mode), stamp, 1, 0, fmt, Some(fmt))]
      && (mode == fmt <==> Supported(k, fmt))
  {
    hide Known, FrameSize, BufferSize, ModeAfter, Supported;
    DefaultIsSupported(k);
    ModeIsTaken(k, Default(k), fmt, u.key);
    var s := Settled(Initial(k), 0, fmt, u);
    var a := FormatCanBeSet(Initial(k), 0, fmt, u);
    var b, t := FrameCanArrive(s, 0, stamp);
    RunsJoin(Initial(k), a, s, b, t);
    run := a + b;
  }

  /** For a format that is in the table no condition on the buffers is left. */
  lemma SupportedFits(k: Kind, fmt: Format, u: Unset)
    requires Supported(k, fmt)
    ensures FrameSize(k, ModeAfter(k, Default(k), fmt, u.key)) <= BufferSize(k, fmt, u.bytes)
  {
    hide Supported, FrameSize, BufferSize, ModeAfter;
    DefaultIsSupported(k);
    ModeIsTaken(k, Default(k), fmt, u.key);
    SizeOfSupported(k, fmt, u.bytes);
  }

  /** For one that is not, they can be too small while the stream runs: their size was never set. */
  lemma TooSmallABuffer(k: Kind, fmt: Format, key: nat) returns (run: seq<Action>)
    requires Known(k, fmt) && Find(k, Reserved(fmt)).None?
    ensures Possible(Initial(k), run) && var s := After(Initial(k), run); s.stream.running && !Fits(s)
  {
    hide Known, Supported, ModeAfter, Find;
    var u := Unset(0, key);
    DefaultIsSupported(k);
    ModeIsTaken(k, Default(k), fmt, key);
    SizeOfSupported(k, ModeAfter(k, Default(k), fmt, key), 0);
    run := FormatCanBeSet(Initial(k), 0, fmt, u);
  }

  // ---- the format a caller gets ----

  /** Two callers set two formats one after the other; a frame arrives and is handed to one of them. */
  lemma TwoFormats(k: Kind, fmt: Format, other: Format, u: Unset, n: nat, stamp: nat) returns (run: seq<Action>)
    requires fmt != other && Known(k, fmt) && Known(k, other) && n < 2
    requires var mode := ModeAfter(k, ModeAfter(k, Default(k), fmt, u.key), other, u.key);
      FrameSize(k, mode) <= BufferSize(k, other, u.bytes)
    ensures Possible(Initial(k), run)
    ensures var mode := ModeAfter(k, ModeAfter(k, Default(k), fmt, u.key), other, u.key);
      After(Initial(k), run).handed ==
        [Handed(Block(7), Whole(1, stamp, mode), stamp, 1, n, if n == 0 then fmt else other, Some(other))]
  {
    hide Known, FrameSize, BufferSize, ModeAfter;
    var s := Settled(Initial(k), 0, fmt, u);
    var t := Settled(s, 1, other, u);
    var a := FormatCanBeSet(Initial(k), 0, fmt, u);
    var b := FormatCanBeSet(s, 1, other, u);
    var c, v := FrameCanArrive(t, n, stamp);
    RunsJoin(Initial(k), a, s, b, t);
    RunsJoin(Initial(k), a + b, t, c, v);
    run := a + b + c;
  }

  /** Two callers can cross: the first one, which set its format, is handed a frame of the second one's. */
  lemma CallersCanCross(k: Kind, fmt: Format, other: Format, stamp: nat) returns (run: seq<Action>)
    requires fmt != other && Known(k, fmt) && Known(k, other) && Supported(k, fmt) && Supported(k, other)
    ensures Possible(Initial(k), run)
    ensures After(Initial(k), run).handed ==
      [Handed(Block(7), Whole(1, stamp, other), stamp, 1, 0, fmt, Some(other))]
  {
    hide Known, FrameSize, BufferSize, ModeAfter, Supported;
    var u := Unset(0, 0);
    DefaultIsSupported(k);
    ModeIsTaken(k, Default(k), fmt, 0);
    ModeIsTaken(k, fmt, other, 0);
    SizeOfSupported(k, other, 0);
    run := TwoFormats(k, fmt, other, u, 0, stamp);
  }

  /** And one that asks for 11 bits in high resolution, which no mode has, behind a caller of the registered depth
      is handed a registered frame, labelled as what it asked for. */
  lemma MislabelledFrame(stamp: nat) returns (run: seq<Action>)
    ensures Possible(Initial(Depth), run)
    ensures After(Initial(Depth), run).handed ==
      [Handed(Block(7), Whole(1, stamp, Format(MEDIUM, DEPTH_REGISTERED)), stamp, 1, 1, Format(HIGH, DEPTH_11BIT),
              Some(Format(HIGH, DEPTH_11BIT)))]
  {
    var fmt, other := Format(MEDIUM, DEPTH_REGISTERED), Format(HIGH, DEPTH_11BIT);
    DefaultIsSupported(Depth);
    SupportedPairs(Depth, fmt);
    ModeIsTaken(Depth, Default(Depth), fmt, 0);
    hide Supported, Table;
    NoHighDepth(fmt);
    var u := Unset(FrameSize(Depth, fmt), 0);
    run := TwoFormats(Depth, fmt, other, u, 1, stamp);
  }

  lemma NoHighDepth(mode: Format)
    ensures var f := Format(HIGH, DEPTH_11BIT);
      && Find(Depth, Reserved(f)).None? && ModeAfter(Depth, mode, f, 0) == mode
      && forall junk :: BufferSize(Depth, f, junk) == junk
  {
    hide Find, Supported;
    var f := Format(HIGH, DEPTH_11BIT);
    SupportedPairs(Depth, f);
    SupportedPairs(Depth, Format(0, 0));
    if Find(Depth, Reserved(f)).Some? {
      FoundIsSupported(Depth, Reserved(f));
    }
    if Find(Depth, 0).Some? {
      FoundIsSupported(Depth, 0);
    }
  }

  /** The formats that callers give the ring in the course of a run. */
  function Formats(s: State, run: seq<Action>): seq<Format>
    requires Possible(s, run)
    decreases |run|
  {
    if run == [] then []
    else
      var rest := Formats(Apply(s, run[0]), run[1..]);
      if run[0].AllocRing? then [s.pcs[run[0].n].fmt] + rest else rest
  }

  function Latest(fmt: Option<Format>, formats: seq<Format>): Option<Format>
  {
    if formats == [] then fmt else Some(formats[|formats| - 1])
  }

  lemma FormatStep(s: State, a: Action)
    requires s.ring.Three() && Enabled(s, a)
    ensures Apply(s, a).ring.fmt ==
      if a.AllocRing? then Some(s.pcs[a.n].fmt) else if a.FreeRing? then None else s.ring.fmt
  {
    hide ModeAfter, BufferSize, Fits;
  }

  lemma {:induction false} FormatIsLatest(s: State, run: seq<Action>)
    requires Possible(s, run)
    ensures After(s, run).ring.fmt == None || After(s, run).ring.fmt == Latest(s.ring.fmt, Formats(s, run))
    decreases |run|
  {
    if run != [] {
      hide Apply;
      FormatStep(s, run[0]);
      FormatIsLatest(Apply(s, run[0]), run[1..]);
    }
  }

  /** The modes asked for in the course of a run, each with what a mode that was not found holds. */
  function Settings(s: State, run: seq<Action>): seq<Setting>
    requires Possible(s, run)
    decreases |run|
  {
    if run == [] then []
    else
      var rest := Settings(Apply(s, run[0]), run[1..]);
      if run[0].SetBuffer? then [Setting(s.pcs[run[0].n].fmt, run[0].unset.key)] + rest else rest
  }

  lemma ModeStep(s: State, a: Action)
    requires s.ring.Three() && Enabled(s, a)
    ensures Apply(s, a).mode == if a.SetBuffer? then ModeAfter(s.kind, s.mode, s.pcs[a.n].fmt, a.unset.key) else s.mode
  {
    hide ModeAfter, BufferSize, Fits;
  }

  lemma {:induction false} ModeIsLast(s: State, run: seq<Action>)
    requires Possible(s, run)
    ensures After(s, run).mode == ModeAfterAll(s.kind, s.mode, Settings(s, run))
    decreases |run|
  {
    if run != [] {
      hide Apply, Enabled, ModeAfter;
      ModeStep(s, run[0]);
      ModeIsLast(Apply(s, run[0]), run[1..]);
    }
  }

  /** Nobody but the caller itself moves it on from its way to sync_get. */
  predicate Spares(run: seq<Action>, n: nat)
  {
    forall i :: 0 <= i < |run| ==> run[i] != Get(n) && run[i] != Leave(n)
  }

  lemma WantStep(s: State, a: Action, n: nat)
    requires Safe(s) && Enabled(s, a) && n in s.wants && n !in s.pcs && a != Get(n) && a != Leave(n)
    ensures var t := Apply(s, a); n in t.wants && t.wants[n] == s.wants[n] && n !in t.pcs
  {
    hide FlowOk, LocksOk, ChangesOk, Enabled, Apply;
    if Changes(a) {
      ChangeMoves(s, a);
    } else {
      WantOtherStep(s, a, n);
    }
  }

  lemma WantOtherStep(s: State, a: Action, n: nat)
    requires s.ring.Three() && Enabled(s, a) && !Changes(a)
    requires n in s.wants && n !in s.pcs && a != Get(n) && a != Leave(n)
    ensures var t := Apply(s, a); n in t.wants && t.wants[n] == s.wants[n] && n !in t.pcs
  {
    hide Fits, Processing, SetBuf;
  }

  lemma {:induction false} WantStays(s: State, run: seq<Action>, n: nat)
    requires Safe(s) && Possible(s, run) && n in s.wants && n !in s.pcs && Spares(run, n)
    ensures var t := After(s, run); n in t.wants && t.wants[n] == s.wants[n] && n !in t.pcs
    decreases |run|
  {
    if run != [] {
      hide Apply, Enabled, Safe;
      StepIsSafe(s, run[0]);
      WantStep(s, run[0], n);
      WantStays(Apply(s, run[0]), run[1..], n);
    }
  }

  /** From the moment a caller has looked at the format, or leaves its setup: the ring it is handed a frame from
      has the format it wants if and only if the last format set since then, or the ring's if there was none, is
      that one; and the frame has it if and only if the camera's mode has come out as that. */
  lemma FormatAgreesWhen(s: State, run: seq<Action>, n: nat)
    requires Safe(s) && n in s.wants && n !in s.pcs && Spares(run, n)
    requires Possible(s, run) && Enabled(After(s, run), Get(n)) && After(s, run).ring.Three()
    ensures var handed := Apply(After(s, run), Get(n)).handed;
      && handed != []
      && var h := handed[|handed| - 1];
      && h.caller == n && h.wanted == s.wants[n] && h.content.Whole?
      && (h.actual == Some(h.wanted) <==> Latest(s.ring.fmt, Formats(s, run)) == Some(h.wanted))
      && (h.content.fmt == h.wanted <==> ModeAfterAll(s.kind, s.mode, Settings(s, run)) == h.wanted)
  {
    WantStays(s, run, n);
    FormatIsLatest(s, run);
    ModeIsLast(s, run);
    RunIsSafe(s, run);
    GetHandsOutTheNewest(After(s, run), n);
    hide Safe, Possible, Formats, Latest, Settings, ModeAfterAll, Enabled, Apply, Supported;
  }
}
