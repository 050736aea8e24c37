/** The mode tables of the camera, and how a mode is looked up and set. */
module Modes {
  import opened Bytes

  datatype Kind = Video | Depth

  /** A resolution and a format, as the enums number them. */
  datatype Format = Format(res: nat, fmt: nat)

  const MEDIUM: nat := 1
  const HIGH: nat := 2
  const DEPTH_11BIT: nat := 0
  const DEPTH_REGISTERED: nat := 4

  datatype FrameMode = FrameMode(reserved: nat, format: Format, bytes: nat, width: nat, height: nat, data_bits: nat,
                                 padding_bits: nat, framerate: nat)

  /** MAKE_RESERVED */
  function Reserved(f: Format): nat { f.res % 256 * 256 + f.fmt % 256 }

  /** RESERVED_TO_RESOLUTION and RESERVED_TO_FORMAT */
  function Unreserved(key: nat): Format { Format(key / 256 % 256, key % 256) }

  /** Filed under its own pair, and its frames have exactly the bytes of their pixels. */
  predicate RowIsSound(m: FrameMode)
  {
    && m.format.res < 256 && m.format.fmt < 256 && m.reserved == Reserved(m.format)
    && m.bytes > 0 && 8 * m.bytes == m.width * m.height * (m.data_bits + m.padding_bits)
  }

  /** What a mode that was not found happens to hold in its size and in its key: nobody set them. */
  datatype Unset = Unset(bytes: nat, key: nat)

  function Row(res: nat, fmt: nat, bytes: nat, width: nat, height: nat, data_bits: nat, padding_bits: nat,
               framerate: nat): (m: FrameMode)
    requires res < 256 && fmt < 256 && bytes > 0 && 8 * bytes == width * height * (data_bits + padding_bits)
    ensures RowIsSound(m)
  {
    FrameMode(Reserved(Format(res, fmt)), Format(res, fmt), bytes, width, height, data_bits, padding_bits, framerate)
  }

  /** supported_video_modes and supported_depth_modes */
  function Table(k: Kind): seq<FrameMode>
  {
    hide RowIsSound, Reserved;
    match k
    case Video => [
      Row(HIGH, 0, 1280 * 1024 * 3, 1280, 1024, 24, 0, 10),
      Row(MEDIUM, 0, 640 * 480 * 3, 640, 480, 24, 0, 30),
      Row(HIGH, 1, 1280 * 1024, 1280, 1024, 8, 0, 10),
      Row(MEDIUM, 1, 640 * 480, 640, 480, 8, 0, 30),
      Row(HIGH, 2, 1280 * 1024, 1280, 1024, 8, 0, 10),
      Row(MEDIUM, 2, 640 * 488, 640, 488, 8, 0, 30),
      Row(HIGH, 3, 1280 * 1024 * 2, 1280, 1024, 10, 6, 10),
      Row(MEDIUM, 3, 640 * 488 * 2, 640, 488, 10, 6, 30),
      Row(HIGH, 4, 1280 * 1024 * 10 / 8, 1280, 1024, 10, 0, 10),
      Row(MEDIUM, 4, 640 * 488 * 10 / 8, 640, 488, 10, 0, 30),
      Row(MEDIUM, 5, 640 * 480 * 3, 640, 480, 24, 0, 15),
      Row(MEDIUM, 6, 640 * 480 * 2, 640, 480, 16, 0, 15)
    ]
    case Depth => [
      Row(MEDIUM, 0, 640 * 480 * 2, 640, 480, 11, 5, 30),
      Row(MEDIUM, 1, 640 * 480 * 2, 640, 480, 10, 6, 30),
      Row(MEDIUM, 2, 640 * 480 * 11 / 8, 640, 480, 11, 0, 30),
      Row(MEDIUM, 3, 640 * 480 * 10 / 8, 640, 480, 10, 0, 30),
      Row(MEDIUM, 4, 640 * 480 * 2, 640, 480, 16, 0, 30),
      Row(MEDIUM, 5, 640 * 480 * 2, 640, 480, 16, 0, 30)
    ]
  }

  predicate Supported(k: Kind, f: Format)
  {
    exists i :: 0 <= i < |Table(k)| && Table(k)[i].format == f
  }

  /** The pairs of the tables. */
  lemma SupportedPairs(k: Kind, f: Format)
    ensures Supported(k, f) <==>
      match k
      case Video => (f.res == MEDIUM && f.fmt <= 6) || (f.res == HIGH && f.fmt <= 4)
      case Depth => f.res == MEDIUM && f.fmt <= 5
  {
    var t := Table(k);
    if k.Video? && f.fmt <= 4 && (f.res == MEDIUM || f.res == HIGH) {
      assert t[2 * f.fmt + if f.res == HIGH then 0 else 1].format == f;
    } else if k.Video? && f.res == MEDIUM && f.fmt <= 6 {
      assert t[f.fmt + 5].format == f;
    } else if k.Depth? && f.res == MEDIUM && f.fmt <= 5 {
      assert t[f.fmt].format == f;
    }
  }

  lemma RowsAreSound(k: Kind, i: nat)
    requires i < |Table(k)|
    ensures RowIsSound(Table(k)[i])
  {
    hide RowIsSound, Row;
  }

  lemma UnreservedReserved(f: Format)
    requires f.res < 256 && f.fmt < 256
    ensures Unreserved(Reserved(f)) == f
  {
  }

  function FindIn(t: seq<FrameMode>, key: nat): Option<FrameMode>
  {
    if t == [] then None else if t[0].reserved == key then Some(t[0]) else FindIn(t[1..], key)
  }

  lemma {:induction false} FindIsARow(t: seq<FrameMode>, key: nat)
    ensures FindIn(t, key).Some? ==> FindIn(t, key).value in t && FindIn(t, key).value.reserved == key
    ensures FindIn(t, key).None? ==> forall i :: 0 <= i < |t| ==> t[i].reserved != key
  {
    if t != [] {
      FindIsARow(t[1..], key);
      assert forall i :: 0 < i < |t| ==> t[i] == t[1..][i - 1];
    }
  }

  function Find(k: Kind, key: nat): Option<FrameMode> { FindIn(Table(k), key) }

  /** freenect_find_video_mode and freenect_find_depth_mode; None is a mode that is not valid, whose other
      fields were never set. */
  method FindMode(k: Kind, f: Format) returns (m: Option<FrameMode>)
    ensures m == Find(k, Reserved(f))
  {
    hide Table;
    var t, i := Table(k), 0;
    while i < |t|
      invariant 0 <= i <= |t| && FindIn(t, Reserved(f)) == FindIn(t[i..], Reserved(f))
    {
      if t[i].reserved == Reserved(f) {
        return Some(t[i]);
      }
      i := i + 1;
    }
    m := None;
  }

  /** The mode after set_mode. */
  function Set(k: Kind, mode: Format, key: nat): Format { if Find(k, key).Some? then Unreserved(key) else mode }

  /** The mode after set_mode of find_mode; junk is the key of a mode that was not found. */
  function ModeAfter(k: Kind, mode: Format, f: Format, junk: nat): Format
  {
    Set(k, mode, if Find(k, Reserved(f)).Some? then Reserved(f) else junk)
  }

  lemma FoundIsSupported(k: Kind, key: nat)
    requires Find(k, key).Some?
    ensures Supported(k, Unreserved(key)) && Find(k, key).value.format == Unreserved(key)
  {
    FindIsARow(Table(k), key);
    var i :| 0 <= i < |Table(k)| && Table(k)[i] == Find(k, key).value;
    hide Table;
    RowsAreSound(k, i);
    UnreservedReserved(Table(k)[i].format);
  }

  lemma SupportedIsFound(k: Kind, f: Format)
    requires Supported(k, f)
    ensures Find(k, Reserved(f)).Some? && Unreserved(Reserved(f)) == f
  {
    hide Table;
    FindIsARow(Table(k), Reserved(f));
    var i :| 0 <= i < |Table(k)| && Table(k)[i].format == f;
    RowsAreSound(k, i);
    UnreservedReserved(f);
  }

  /** Of any pair that fits into a key, the search tells a caller beforehand whether the table has it. */
  lemma FindTells(k: Kind, f: Format)
    requires f.res < 256 && f.fmt < 256
    ensures Find(k, Reserved(f)).Some? <==> Supported(k, f)
  {
    hide Supported, Find;
    UnreservedReserved(f);
    if Find(k, Reserved(f)).Some? {
      FoundIsSupported(k, Reserved(f));
    }
    if Supported(k, f) {
      SupportedIsFound(k, f);
    }
  }

  /** The mode asked for is the one set exactly when the table has it; else a mode of the table is set or kept
      that is not the one asked for, whatever the fields of the mode that was not found. */
  lemma ModeIsTaken(k: Kind, mode: Format, f: Format, junk: nat)
    requires Supported(k, mode)
    ensures Supported(k, ModeAfter(k, mode, f, junk))
    ensures ModeAfter(k, mode, f, junk) == f <==> Supported(k, f)
  {
    hide Supported, Find, Reserved, Unreserved;
    if Supported(k, f) {
      SupportedIsFound(k, f);
    }
    var key := if Find(k, Reserved(f)).Some? then Reserved(f) else junk;
    if Find(k, key).Some? {
      FoundIsSupported(k, key);
    }
  }

  /** A mode asked for, and the key of a mode that was not found. */
  datatype Setting = Setting(fmt: Format, key: nat)

  function ModeAfterAll(k: Kind, mode: Format, settings: seq<Setting>): Format
    decreases |settings|
  {
    if settings == [] then mode
    else ModeAfterAll(k, ModeAfter(k, mode, settings[0].fmt, settings[0].key), settings[1..])
  }

  /** The last mode asked for is the mode exactly when it is in the table. */
  lemma {:induction false} LastModeIsTaken(k: Kind, mode: Format, settings: seq<Setting>)
    requires Supported(k, mode)
    ensures Supported(k, ModeAfterAll(k, mode, settings))
    ensures settings != [] ==>
      var f := settings[|settings| - 1].fmt; ModeAfterAll(k, mode, settings) == f <==> Supported(k, f)
    decreases |settings|
  {
    hide Supported, ModeAfter;
    if settings != [] {
      ModeIsTaken(k, mode, settings[0].fmt, settings[0].key);
      LastModeIsTaken(k, ModeAfter(k, mode, settings[0].fmt, settings[0].key), settings[1..]);
    }
  }

  /** What alloc_buffer_ring_video and alloc_buffer_ring_depth look at: the format alone. */
  predicate Known(k: Kind, f: Format) { if k.Video? then f.fmt <= 4 else f.fmt <= 5 }

  /** The size of the buffers that they allocate; junk is the size field of a mode that was not found. */
  function BufferSize(k: Kind, f: Format, junk: nat): nat
  {
    var m := Find(k, Reserved(f));
    if m.Some? then m.value.bytes else junk
  }

  /** The size of a frame. */
  function FrameSize(k: Kind, mode: Format): nat { BufferSize(k, mode, 0) }

  lemma SizeOfSupported(k: Kind, f: Format, junk: nat)
    requires Supported(k, f)
    ensures BufferSize(k, f, junk) == FrameSize(k, f) > 0
  {
    hide Table, Supported, RowIsSound;
    SupportedIsFound(k, f);
    FindIsARow(Table(k), Reserved(f));
    var i :| 0 <= i < |Table(k)| && Table(k)[i] == Find(k, Reserved(f)).value;
    RowsAreSound(k, i);
    RowBytes(Table(k)[i]);
  }

  lemma RowBytes(m: FrameMode)
    requires RowIsSound(m)
    ensures m.bytes > 0
  {
  }

  /** The pair of a table that no ring knows, and the known pairs that no table has. */
  lemma KnownIsNotSupported(k: Kind, f: Format)
    ensures Known(k, f) && !Supported(k, f) <==> Known(k, f) && f.res != MEDIUM && !(k.Video? && f.res == HIGH)
    ensures Supported(k, f) && !Known(k, f) <==> k.Video? && f.res == MEDIUM && (f.fmt == 5 || f.fmt == 6)
  {
    SupportedPairs(k, f);
  }

  /** The mode that freenect_camera_init sets: RGB, or 11 bits. */
  function Default(k: Kind): Format { Format(MEDIUM, 0) }

  lemma DefaultIsSupported(k: Kind)
    ensures Supported(k, Default(k))
  {
    SupportedPairs(k, Default(k));
  }

  /** The mode fields of a freenect_device, for one of its two streams. */
  class Camera {
    const kind: Kind
    var mode: Format

    /** freenect_camera_init */
    constructor (kind: Kind)
      ensures this.kind == kind && mode == Default(kind) == Format(1, 0) && Supported(kind, mode)
    {
      this.kind, mode := kind, Default(kind);
      DefaultIsSupported(kind);
    }

    /** freenect_set_video_mode and freenect_set_depth_mode */
    method SetMode(running: bool, key: nat) returns (ok: bool)
      modifies this
      ensures ok <==> !running && Find(kind, key).Some?
      ensures mode == if running then old(mode) else Set(kind, old(mode), key)
    {
      if running {
        return false;
      }
      hide Table;
      var t, i, found := Table(kind), 0, false;
      while i < |t| && !found
        invariant 0 <= i <= |t| && mode == old(mode)
        invariant if found then Find(kind, key).Some? else Find(kind, key) == FindIn(t[i..], key)
        decreases |t| - i, if found then 0 else 1
      {
        if t[i].reserved == key {
          found := true;
        } else {
          i := i + 1;
        }
      }
      if !found {
        return false;
      }
      mode := Unreserved(key);
      ok := true;
    }
  }

}
