/** The three buffers of one stream of the synchronous wrapper, and the stream's own buffer pointers:
    the operations, as the source writes them and as functions on values. */
module BufferRings {
  import opened Bytes
  import opened Modes

  /** What malloc returned, or NULL. Two allocations never have the same id. */
  datatype Pointer = Null | Block(id: nat)

  /** The buffer pointers of a packet_stream. */
  datatype Stream = Stream(running: bool, split_bufs: bool, usr_buf: Pointer, lib_buf: Pointer, proc_buf: Pointer,
                           raw_buf: Pointer)

  /** fmt stands for the source's pair (fmt, res); None is the pair (-1, -1). */
  datatype Ring = Ring(bufs: seq<Pointer>, timestamp: nat, valid: bool, fmt: Option<Format>)
  {
    predicate Three() { |bufs| == 3 }
  }

  /** stream_setbuf; None when it refuses. */
  function SetBuf(s: Stream, pbuf: Pointer): Option<Stream>
  {
    if !s.running then Some(s.(usr_buf := pbuf))
    else if pbuf.Null? && s.lib_buf.Null? then None
    else
      var proc_buf := if pbuf.Null? then s.lib_buf else pbuf;
      Some(s.(usr_buf := pbuf, proc_buf := proc_buf, raw_buf := if s.split_bufs then s.raw_buf else proc_buf))
  }

  /** The pointers after stream_init; lib and raw are what malloc gives if asked. */
  function InitBufs(s: Stream, split: bool, lib: Pointer, raw: Pointer): Stream
  {
    var lib_buf := if s.usr_buf.Null? then lib else Null;
    var proc_buf := if s.usr_buf.Null? then lib else s.usr_buf;
    s.(lib_buf := lib_buf, proc_buf := proc_buf, split_bufs := split, raw_buf := if split then raw else proc_buf)
  }

  /** The pointers after a running stream was stopped; a stopped one stays as it is. */
  function StopBufs(s: Stream): Stream
  {
    if !s.running then s else s.(running := false, lib_buf := Null, proc_buf := Null, raw_buf := Null)
  }

  // ---- where frames go ----

  /** A running stream writes frames into the caller's buffer if there is one, and else into the library's. */
  predicate Points(s: Stream)
  {
    s.running ==>
      && !s.proc_buf.Null? && s.proc_buf == (if s.usr_buf.Null? then s.lib_buf else s.usr_buf)
      && (!s.split_bufs ==> s.raw_buf == s.proc_buf)
  }

  /** A start makes it so, with a buffer of either kind; a stopped stream has none but the caller's. */
  lemma StartPoints(s: Stream, split: bool, lib: Pointer, raw: Pointer)
    requires !s.usr_buf.Null? || !lib.Null?
    ensures var t := InitBufs(s, split, lib, raw).(running := true);
      && Points(t) && t.usr_buf == s.usr_buf && t.split_bufs == split && (split ==> t.raw_buf == raw)
      && (t.lib_buf.Null? <==> !s.usr_buf.Null?)
  {
  }

  lemma StopPoints(s: Stream)
    ensures var t := StopBufs(s);
      && !t.running && t.usr_buf == s.usr_buf && t.split_bufs == s.split_bufs
      && (s.running ==> t.lib_buf.Null? && t.proc_buf.Null? && t.raw_buf.Null?)
  {
  }

  /** A change of the buffer is refused exactly when a running stream would have none, and leads to the new one, or to
      the library's for NULL. */
  lemma SetPoints(s: Stream, p: Pointer)
    requires Points(s)
    ensures SetBuf(s, p) == None <==> s.running && p.Null? && s.lib_buf.Null?
    ensures SetBuf(s, p).Some? ==>
      var t := SetBuf(s, p).value;
      && Points(t) && t.usr_buf == p && t.running == s.running && t.lib_buf == s.lib_buf && t.split_bufs == s.split_bufs
      && (s.split_bufs || !s.running ==> t.raw_buf == s.raw_buf) && (!s.running ==> t.proc_buf == s.proc_buf)
  {
  }

  class PacketStreamBuffers {
    var running: bool
    var split_bufs: bool
    var usr_buf: Pointer
    var lib_buf: Pointer
    var proc_buf: Pointer
    var raw_buf: Pointer

    constructor ()
      ensures Now() == Stream(false, false, Null, Null, Null, Null)
    {
      running, split_bufs := false, false;
      usr_buf, lib_buf, proc_buf, raw_buf := Null, Null, Null, Null;
    }

    ghost function Now(): Stream
      reads this
    {
      Stream(running, split_bufs, usr_buf, lib_buf, proc_buf, raw_buf)
    }

    /** stream_setbuf */
    method SetBuffer(pbuf: Pointer) returns (ok: bool)
      modifies this
      ensures ok == SetBuf(old(Now()), pbuf).Some?
      ensures Now() == if ok then SetBuf(old(Now()), pbuf).value else old(Now())
    {
      if !running {
        usr_buf := pbuf;
        return true;
      }
      if pbuf.Null? && lib_buf.Null? {
        return false;
      }
      usr_buf := pbuf;
      if pbuf.Null? {
        proc_buf := lib_buf;
      } else {
        proc_buf := pbuf;
      }
      if !split_bufs {
        raw_buf := proc_buf;
      }
      ok := true;
    }

    /** The buffers of stream_init, and the flag that the start function sets last. */
    method Start(split: bool, lib: Pointer, raw: Pointer)
      modifies this
      ensures Now() == InitBufs(old(Now()), split, lib, raw).(running := true)
    {
      if !usr_buf.Null? {
        lib_buf := Null;
        proc_buf := usr_buf;
      } else {
        lib_buf := lib;
        proc_buf := lib_buf;
      }
      if !split {
        split_bufs := false;
        raw_buf := proc_buf;
      } else {
        split_bufs := true;
        raw_buf := raw;
      }
      running := true;
    }

    /** freenect_stop_video and freenect_stop_depth with stream_freebufs */
    method Stop()
      modifies this
      ensures Now() == StopBufs(old(Now()))
    {
      if !running {
        return;
      }
      running := false;
      raw_buf, proc_buf, lib_buf := Null, Null, Null;
    }
  }

  // ---- the ring ----

  /** A frame arrived: the last two buffers change places. */
  function Delivered(r: Ring, timestamp: nat): Ring
    requires r.Three()
  {
    r.(bufs := [r.bufs[0], r.bufs[2], r.bufs[1]], timestamp := timestamp, valid := true)
  }

  /** The frame was handed out: the first two buffers change places. */
  function Taken(r: Ring): Ring
    requires r.Three()
  {
    r.(bufs := [r.bufs[1], r.bufs[0], r.bufs[2]], valid := false)
  }

  function Freed(): Ring { Ring([Null, Null, Null], 0, false, None) }

  function Allocated(bufs: seq<Pointer>, fmt: Format): Ring { Ring(bufs, 0, false, Some(fmt)) }

  class BufferRing {
    var bufs: seq<Pointer>
    var timestamp: nat
    var valid: bool
    var fmt: Option<Format>
    const stream: PacketStreamBuffers
    const camera: Camera

    constructor (stream: PacketStreamBuffers, camera: Camera)
      ensures Now() == Freed() && this.stream == stream && this.camera == camera
    {
      bufs, timestamp, valid, fmt := [Null, Null, Null], 0, false, None;
      this.stream, this.camera := stream, camera;
    }

    ghost function Now(): Ring
      reads this
    {
      Ring(bufs, timestamp, valid, fmt)
    }

    /** producer_cb_inner under its lock; the requirement on data is the source's assertion. */
    method ProducerCbInner(data: Pointer, stamp: nat)
      requires Now().Three() && data == bufs[2]
      modifies this, stream
      ensures Now() == Delivered(old(Now()), stamp)
      ensures SetBuf(old(stream.Now()), bufs[2]) == Some(stream.Now())
           || (SetBuf(old(stream.Now()), bufs[2]) == None && stream.Now() == old(stream.Now()))
    {
      var temp_buf := bufs[1];
      bufs := bufs[1 := bufs[2]];
      bufs := bufs[2 := temp_buf];
      var _ := stream.SetBuffer(temp_buf);
      timestamp := stamp;
      valid := true;
    }

    /** sync_get behind its wait for a valid frame */
    method SyncGet() returns (data: Pointer, stamp: nat)
      requires Now().Three() && valid
      modifies this
      ensures Now() == Taken(old(Now()))
      ensures data == old(bufs[1]) && data == bufs[0] && stamp == timestamp
    {
      var temp_buf := bufs[0];
      data := bufs[1];
      bufs := bufs[0 := data];
      bufs := bufs[1 := temp_buf];
      valid := false;
      stamp := timestamp;
    }

    /** free_buffer_ring */
    method Free()
      requires Now().Three()
      modifies this
      ensures Now() == Freed()
    {
      var i := 0;
      while i < 3
        invariant 0 <= i <= 3 && |bufs| == 3 && forall k :: 0 <= k < i ==> bufs[k] == Null
      {
        bufs := bufs[i := Null];
        i := i + 1;
      }
      assert bufs == [Null, Null, Null];
      timestamp, valid, fmt := 0, false, None;
    }

    /** alloc_buffer_ring_video and alloc_buffer_ring_depth; blocks are what malloc returns, each of the
        given size, and junk is the size field of a mode that was not found. */
    method Alloc(wanted: Format, blocks: seq<Pointer>, junk: nat) returns (ok: bool, size: nat)
      requires Now().Three() && |blocks| == 3
      modifies this
      ensures ok == Known(camera.kind, wanted)
      ensures Now() == if ok then Allocated(blocks, wanted) else old(Now())
      ensures ok ==> size == BufferSize(camera.kind, wanted, junk)
    {
      if !Known(camera.kind, wanted) {
        return false, 0;
      }
      var mode := FindMode(camera.kind, wanted);
      size := if mode.Some? then mode.value.bytes else junk;
      var i := 0;
      while i < 3
        invariant 0 <= i <= 3 && |bufs| == 3 && forall k :: 0 <= k < i ==> bufs[k] == blocks[k]
      {
        bufs := bufs[i := blocks[i]];
        i := i + 1;
      }
      assert bufs == blocks;
      timestamp, valid, fmt := 0, false, Some(wanted);
      ok := true;
    }

    /** change_video_format and change_depth_format. An unknown format is refused behind the stop; whether
        the camera takes the mode and whether the stream starts is not looked at. */
    method ChangeFormat(wanted: Format, blocks: seq<Pointer>, junk: Unset, starts: bool, split: bool, raw: Pointer)
      returns (ok: bool, size: nat)
      requires Now().Three() && |blocks| == 3
      modifies this, stream, camera
      ensures ok == Known(camera.kind, wanted)
      ensures Now() == if ok then Allocated(blocks, wanted) else Freed()
      ensures ok ==> size == BufferSize(camera.kind, wanted, junk.bytes)
      ensures camera.mode ==
        if ok then ModeAfter(camera.kind, old(camera.mode), wanted, junk.key) else old(camera.mode)
      ensures !ok ==> stream.Now() == StopBufs(old(stream.Now()))
      ensures ok ==>
        var s := StopBufs(old(stream.Now())).(usr_buf := blocks[2]);
        stream.Now() == if starts then InitBufs(s, split, Null, raw).(running := true) else s
    {
      stream.Stop();
      Free();
      ok, size := Alloc(wanted, blocks, junk.bytes);
      if !ok {
        return;
      }
      var mode := FindMode(camera.kind, wanted);
      if mode.Some? {
        FindIsARow(Table(camera.kind), Reserved(wanted));
      }
      var _ := camera.SetMode(stream.running, if mode.Some? then mode.value.reserved else junk.key);
      var _ := stream.SetBuffer(bufs[2]);
      if starts {
        stream.Start(split, Null, raw);
      }
    }
  }

  // ---- pending_runloop_tasks ----

  function OneMore(pending: int): int { pending + 1 }
  function OneFewer(pending: int): int { pending - 1 }

  /** What one thread does under pending_runloop_tasks_lock. The counter is the number of callers that
      are inside, so the source's two assertions hold. */
  class PendingTasks {
    var pending: int
    ghost var inside: set<nat>

    ghost predicate Valid()
      reads this
    {
      pending == |inside|
    }

    constructor ()
      ensures Valid() && inside == {}
    {
      pending, inside := 0, {};
    }

    /** pending_runloop_tasks_inc, by caller n */
    method Inc(ghost n: nat)
      requires Valid() && n !in inside
      modifies this
      ensures Valid() && inside == old(inside) + {n}
    {
      assert pending >= 0;
      pending := OneMore(pending);
      inside := inside + {n};
    }

    /** pending_runloop_tasks_dec; the signal goes to the thread that waits until nobody is inside. */
    method Dec(ghost n: nat) returns (signal: bool)
      requires Valid() && n in inside
      modifies this
      ensures Valid() && inside == old(inside) - {n} && (signal <==> inside == {})
    {
      pending := OneFewer(pending);
      inside := inside - {n};
      assert pending >= 0;
      signal := pending == 0;
    }

    /** The condition of pending_runloop_tasks_wait_zero. */
    method NobodyInside() returns (r: bool)
      requires Valid()
      ensures r <==> inside == {}
    {
      r := pending == 0;
    }
  }
}
