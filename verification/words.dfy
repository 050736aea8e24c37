/** Machine words: their ranges, little-endian reading, and the division facts that bit fields rest on. */
module Words {
  import opened Bytes

  const TWO32: nat := 0x1_0000_0000
  const TWO64: nat := 0x1_0000_0000_0000_0000

  type uint16 = x: int | 0 <= x < 0x1_0000
  type uint32 = x: int | 0 <= x < TWO32
  type uint64 = x: int | 0 <= x < TWO64

  /** The 32-bit word at i, its low byte first. */
  function Little32(s: seq<byte>, i: nat): nat
    requires i + 4 <= |s|
  {
    s[i] as int + 0x100 * s[i + 1] as int + 0x1_0000 * s[i + 2] as int + 0x100_0000 * s[i + 3] as int
  }

  /** A word as its four bytes. */
  function LittleBytes(v: nat): (s: seq<byte>)
    ensures |s| == 4
  {
    [v % 0x100, v / 0x100 % 0x100, v / 0x1_0000 % 0x100, v / 0x100_0000 % 0x100]
  }

  lemma LowByteFirst()
    ensures LittleBytes(0x1234_5678) == [0x78, 0x56, 0x34, 0x12]
  {
  }

  lemma LittleValue(v: nat)
    requires v < 0x1_0000_0000
    ensures v % 0x100 + 0x100 * (v / 0x100 % 0x100) + 0x1_0000 * (v / 0x1_0000 % 0x100) +
            0x100_0000 * (v / 0x100_0000 % 0x100) == v
  {
  }

  lemma LittleIsRead(front: seq<byte>, v: nat, back: seq<byte>)
    requires v < 0x1_0000_0000
    ensures Little32(front + LittleBytes(v) + back, |front|) == v
  {
    var s, n, b := front + LittleBytes(v) + back, |front|, LittleBytes(v);
    LittleValue(v);
    assert s[n] == b[0] && s[n + 1] == b[1] && s[n + 2] == b[2] && s[n + 3] == b[3];
  }

  lemma DivPart(q: nat, r: nat, d: nat)
    requires r < d
    ensures (q * d + r) / d == q
  {
    var x := (q * d + r) / d;
    assert x < q ==> (x + 1) * d <= q * d;
    assert x > q ==> x * d >= (q + 1) * d;
  }

  lemma QuotientIs(x: nat, q: nat, r: nat, d: nat)
    requires r < d && x == q * d + r
    ensures x / d == q
  {
    DivPart(q, r, d);
  }

  lemma ModPart(q: nat, r: nat, d: nat)
    requires r < d
    ensures (q * d + r) % d == r
  {
    DivPart(q, r, d);
  }
}
