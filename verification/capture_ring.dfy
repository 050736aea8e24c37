/** The circular sample buffers of the microphone viewer. */
module CaptureRing {
  /** What a reader sees that starts at idx and goes round once. */
  function Window(b: seq<int>, idx: nat): (w: seq<int>)
    requires idx <= |b|
    ensures |w| == |b|
  {
    b[idx..] + b[..idx]
  }

  /** The last n of a sequence. */
  function Last(s: seq<int>, n: nat): seq<int>
    requires n <= |s|
  {
    s[|s| - n..]
  }

  /** So many samples go up to the end of the buffer and no more than once round it. */
  predicate Fits(b: seq<int>, idx: nat, n: nat) { idx + n <= 2 * |b| }

  /** The buffer after the samples were written from idx on, round the end if need be. */
  function Written(b: seq<int>, idx: nat, mic: seq<int>): (r: seq<int>)
    requires idx < |b| && Fits(b, idx, |mic|)
    ensures |r| == |b|
  {
    if |mic| < |b| - idx then b[..idx] + mic + b[idx + |mic|..]
    else
      var first := |b| - idx;
      mic[first..] + (b[..idx] + mic[..first])[|mic| - first..]
  }

  /** A write over q that does not reach the end. */
  lemma Straight(p: seq<int>, q: seq<int>, t: seq<int>, mic: seq<int>)
    requires |q| == |mic|
    ensures var r := p + mic + t; r[|p| + |mic|..] + r[..|p| + |mic|] == t + p + mic
    ensures (q + t + p + mic)[|q|..] == t + p + mic
  {
    var r := p + mic + t;
    assert r[|p| + |mic|..] == t && r[..|p| + |mic|] == p + mic;
  }

  /** A write over w, at the end, and u, at the front. */
  lemma Round(u: seq<int>, v: seq<int>, w: seq<int>, m1: seq<int>, m2: seq<int>)
    requires |w| == |m1| && |u| == |m2|
    ensures var r := m2 + v + m1; r[|u|..] + r[..|u|] == v + m1 + m2
    ensures (w + u + v + (m1 + m2))[|w| + |u|..] == v + m1 + m2
  {
    var r := m2 + v + m1;
    assert r[|u|..] == v + m1 && r[..|u|] == m2;
  }

  lemma ShortWrite(b: seq<int>, idx: nat, mic: seq<int>)
    requires idx + |mic| < |b|
    ensures Window(Written(b, idx, mic), idx + |mic|) == Last(Window(b, idx) + mic, |b|)
  {
    var p, q, t := b[..idx], b[idx..idx + |mic|], b[idx + |mic|..];
    Straight(p, q, t, mic);
    assert b[idx..] == q + t;
    assert Written(b, idx, mic) == p + mic + t && Window(b, idx) == q + t + p;
  }

  lemma LongWrite(b: seq<int>, idx: nat, mic: seq<int>)
    requires idx < |b| <= idx + |mic| && |mic| <= |b|
    ensures Window(Written(b, idx, mic), idx + |mic| - |b|) == Last(Window(b, idx) + mic, |b|)
  {
    var next, first := idx + |mic| - |b|, |b| - idx;
    var u, v, w := b[..next], b[next..idx], b[idx..];
    Round(u, v, w, mic[..first], mic[first..]);
    assert b[..idx] == u + v && mic[..first] + mic[first..] == mic;
    assert (b[..idx] + mic[..first])[next..] == v + mic[..first];
    assert Written(b, idx, mic) == mic[first..] + v + mic[..first] && Window(b, idx) == w + u + v;
  }

  /** A write that covers the whole buffer. */
  lemma FullWrite(b: seq<int>, idx: nat, mic: seq<int>)
    requires idx < |b| <= |mic| && Fits(b, idx, |mic|)
    ensures var next := idx + |mic| - |b|;
      && Window(Written(b, idx, mic), next) == Last(mic, |b|) == Last(Window(b, idx) + mic, |b|)
      && (next == |b| ==> Window(Written(b, idx, mic), 0) == Last(mic, |b|))
  {
    var next, first := idx + |mic| - |b|, |b| - idx;
    assert (b[..idx] + mic[..first])[next..] == mic[next - idx..first];
    var m1, m2 := mic[next - idx..first], mic[first..];
    var r := Written(b, idx, mic);
    assert r == m2 + m1 && r[next..] == m1 && r[..next] == m2;
    assert Last(mic, |b|) == m1 + m2;
  }

  /** One write: the reader's window moves on by the new samples. */
  lemma WrittenWindow(b: seq<int>, idx: nat, mic: seq<int>)
    requires idx < |b| && Fits(b, idx, |mic|)
    ensures Window(Written(b, idx, mic), (idx + |mic|) % |b|) == Last(Window(b, idx) + mic, |b|)
  {
    hide Window, Written, Last;
    if idx + |mic| < |b| {
      ShortWrite(b, idx, mic);
      Wrapped(idx + |mic|, |b|);
    } else if |mic| >= |b| {
      FullWrite(b, idx, mic);
      Wrapped(idx + |mic|, |b|);
    } else {
      LongWrite(b, idx, mic);
      Wrapped(idx + |mic|, |b|);
    }
  }

  lemma Wrapped(x: nat, n: nat)
    requires 0 < n && x <= 2 * n
    ensures x % n == if x < n then x else if x < 2 * n then x - n else 0
  {
    if n <= x < 2 * n {
      WrapOnce(x - n, n);
    } else if x == 2 * n {
      WrapOnce(0, n);
      DropWraps(0, 2, n);
    }
  }

  lemma WrapOnce(x: nat, n: nat)
    requires x < n
    ensures (x + n) % n == x
  {
    var q := (x + n) / n;
    assert q >= 2 ==> q * n >= 2 * n;
  }

  lemma WindowAt(b: seq<int>, idx: nat, i: nat)
    requires idx < |b| && i < |b|
    ensures (idx + i) % |b| < |b| && Window(b, idx)[i] == b[(idx + i) % |b|]
  {
    if idx + i >= |b| {
      WrapOnce(idx + i - |b|, |b|);
    }
  }

  function Concat(calls: seq<seq<int>>): seq<int>
  {
    if calls == [] then [] else Concat(calls[..|calls| - 1]) + calls[|calls| - 1]
  }

  lemma LastOfLast(s: seq<int>, t: seq<int>, n: nat)
    requires n <= |s|
    ensures Last(Last(s, n) + t, n) == Last(s + t, n)
  {
  }

  datatype Ring = Ring(buffer: seq<int>, idx: nat)

  /** Every call fits at the place where the ones before it end. */
  predicate AllFit(b: seq<int>, calls: seq<seq<int>>)
    requires b != []
  {
    calls == [] ||
    var front := calls[..|calls| - 1];
    AllFit(b, front) && Fits(b, Wrap(|Concat(front)|, |b|), |calls[|calls| - 1]|)
  }

  function Wrap(x: nat, n: nat): (i: nat)
    requires n > 0
    ensures i < n
  {
    x % n
  }

  lemma WrapSum(x: nat, y: nat, n: nat)
    requires n > 0
    ensures Wrap(Wrap(x, n) + y, n) == Wrap(x + y, n)
  {
    var q := x / n;
    assert x == q * n + x % n;
    DropWraps(x % n + y, q, n);
  }

  lemma DropWraps(x: nat, q: nat, n: nat)
    requires n > 0
    ensures (x + q * n) % n == x % n
  {
    var d, e := x / n, (x + q * n) / n;
    assert (e - d - q) * n == x % n - (x + q * n) % n;
    assert e - d - q >= 1 ==> (e - d - q) * n >= n;
    assert e - d - q <= -1 ==> (e - d - q) * n <= 0 - n;
  }

  function After(b: seq<int>, calls: seq<seq<int>>): (r: Ring)
    requires b != [] && AllFit(b, calls)
    ensures |r.buffer| == |b| && r.idx == Wrap(|Concat(calls)|, |b|)
  {
    if calls == [] then Ring(b, 0)
    else
      var r, mic := After(b, calls[..|calls| - 1]), calls[|calls| - 1];
      WrapSum(|Concat(calls[..|calls| - 1])|, |mic|, |b|);
      Ring(Written(r.buffer, r.idx, mic), Wrap(r.idx + |mic|, |b|))
  }

  lemma AfterStep(b: seq<int>, calls: seq<seq<int>>)
    requires b != [] && calls != [] && AllFit(b, calls)
    ensures AllFit(b, calls[..|calls| - 1]) && Fits(b, After(b, calls[..|calls| - 1]).idx, |calls[|calls| - 1]|)
    ensures var r, mic := After(b, calls[..|calls| - 1]), calls[|calls| - 1];
      After(b, calls) == Ring(Written(r.buffer, r.idx, mic), Wrap(r.idx + |mic|, |b|))
      && Concat(calls) == Concat(calls[..|calls| - 1]) + mic
  {
    hide Written, Fits, Wrap;
  }

  /** After any calls, the reader sees exactly the last max_samples samples, oldest first, the initial
      content counting as the oldest samples. */
  lemma {:induction false} ReaderSeesTheLast(b: seq<int>, calls: seq<seq<int>>)
    requires b != [] && AllFit(b, calls)
    ensures Window(After(b, calls).buffer, After(b, calls).idx) == Last(b + Concat(calls), |b|)
  {
    hide Window, Written, Last, After, Concat;
    if calls == [] {
      BeforeAnyCall(b);
    } else {
      var front, mic := calls[..|calls| - 1], calls[|calls| - 1];
      AfterStep(b, calls);
      ReaderSeesTheLast(b, front);
      var r := After(b, front);
      WrittenWindow(r.buffer, r.idx, mic);
      assert Wrap(r.idx + |mic|, |b|) == (r.idx + |mic|) % |b|;
      LastOfLast(b + Concat(front), mic, |b|);
      assert b + Concat(front) + mic == b + Concat(calls);
    }
  }

  lemma BeforeAnyCall(b: seq<int>)
    requires b != []
    ensures Window(After(b, []).buffer, After(b, []).idx) == Last(b + Concat([]), |b|)
  {
    assert b + [] == b;
  }

  class Capture {
    const buffers: seq<array<int>>
    const max_samples: nat
    var current_idx: nat
    var new_data: bool

    ghost predicate Valid()
      reads this
    {
      current_idx < max_samples && |buffers| == 4
      && (forall m :: 0 <= m < 4 ==> buffers[m].Length == max_samples)
      && forall m, n :: 0 <= m < n < 4 ==> buffers[m] != buffers[n]
    }

    constructor (b0: array<int>, b1: array<int>, b2: array<int>, b3: array<int>)
      requires 0 < b0.Length == b1.Length == b2.Length == b3.Length
      requires b0 != b1 && b0 != b2 && b0 != b3 && b1 != b2 && b1 != b3 && b2 != b3
      ensures Valid() && buffers == [b0, b1, b2, b3] && current_idx == 0
    {
      buffers, max_samples, current_idx, new_data := [b0, b1, b2, b3], b0.Length, 0, false;
    }

    /** memcpy into a buffer. */
    static method Copy(b: array<int>, at: nat, mic: seq<int>)
      requires at + |mic| <= b.Length
      modifies b
      ensures b[..] == old(b[..at]) + mic + old(b[at + |mic|..])
    {
      var i := 0;
      while i < |mic|
        invariant 0 <= i <= |mic|
        invariant b[..] == old(b[..at]) + mic[..i] + old(b[at + i..])
      {
        b[at + i] := mic[i];
        i := i + 1;
      }
      assert mic[..i] == mic;
    }

    /** The single copy. */
    static method CopyStraight(b: array<int>, at: nat, mic: seq<int>)
      requires at < b.Length && |mic| < b.Length - at
      modifies b
      ensures b[..] == Written(old(b[..]), at, mic)
    {
      Copy(b, at, mic);
    }

    /** The two copies round the end. */
    static method CopyRound(b: array<int>, at: nat, mic: seq<int>)
      requires at < b.Length && b.Length - at <= |mic| && Fits(b[..], at, |mic|)
      modifies b
      ensures b[..] == Written(old(b[..]), at, mic)
    {
      var first := b.Length - at;
      Copy(b, at, mic[..first]);
      Copy(b, 0, mic[first..]);
    }

    /** in_callback: the same place in all four buffers; not inside when the second copy would leave its
        buffer, where what C promises ends. */
    method InCallback(mics: seq<seq<int>>, num_samples: nat) returns (inside: bool)
      requires Valid() && |mics| == 4 && forall m :: 0 <= m < 4 ==> |mics[m]| == num_samples
      modifies this`current_idx, this`new_data, buffers
      ensures Valid() && (inside <==> old(current_idx) + num_samples <= 2 * max_samples)
      ensures inside ==> new_data && current_idx == (old(current_idx) + num_samples) % max_samples
      ensures inside ==>
        forall m :: 0 <= m < 4 ==> buffers[m][..] == Written(old(buffers[m][..]), old(current_idx), mics[m])
    {
      hide Written;
      var at := current_idx;
      var first := max_samples - at;
      if num_samples - first > max_samples {
        return false;
      }
      inside := true;
      if num_samples < first {
        CopyStraight(buffers[0], at, mics[0]);
        CopyStraight(buffers[1], at, mics[1]);
        CopyStraight(buffers[2], at, mics[2]);
        CopyStraight(buffers[3], at, mics[3]);
      } else {
        CopyRound(buffers[0], at, mics[0]);
        CopyRound(buffers[1], at, mics[1]);
        CopyRound(buffers[2], at, mics[2]);
        CopyRound(buffers[3], at, mics[3]);
      }
      current_idx := Advance(at, num_samples);
      new_data := true;
    }

    function Advance(at: nat, n: nat): (idx: nat)
      requires max_samples > 0
      ensures idx == (at + n) % max_samples && idx < max_samples
    {
      (at + n) % max_samples
    }

    /** One sample of the window. */
    method Sample(mic: nat, i: nat) returns (v: int)
      requires Valid() && mic < 4 && i < max_samples
      ensures v == Window(buffers[mic][..], current_idx)[i]
    {
      WindowAt(buffers[mic][..], current_idx, i);
      var k := Advance(current_idx, i);
      v := buffers[mic][k];
    }

    /** The samples that DrawMicData draws for one microphone. */
    method Read(mic: nat) returns (samples: seq<int>)
      requires Valid() && mic < 4
      ensures samples == Window(buffers[mic][..], current_idx)
    {
      hide Window;
      samples := [];
      ghost var w := Window(buffers[mic][..], current_idx);
      var i := 0;
      while i < max_samples
        invariant 0 <= i <= max_samples && samples == w[..i]
      {
        var v := Sample(mic, i);
        samples := samples + [v];
        i := i + 1;
      }
    }
  }
}
