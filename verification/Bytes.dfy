/** Octets and the two multi-octet integer layouts the system uses. */
module Bytes {
  type Byte = i: int | 0 <= i < 256

  /** The value of four octets, least significant first. */
  function Le32(b: seq<Byte>): (v: nat)
    requires |b| == 4
    ensures v < 0x1_0000_0000
  {
    b[0] as int + 0x100 * (b[1] as int) + 0x1_0000 * (b[2] as int) + 0x100_0000 * (b[3] as int)
  }

  function ToLe32(v: nat): (b: seq<Byte>)
    ensures |b| == 4
  {
    [v % 256, v / 0x100 % 256, v / 0x1_0000 % 256, v / 0x100_0000 % 256]
  }

  lemma Le32RoundTrip(v: nat)
    requires v < 0x1_0000_0000
    ensures Le32(ToLe32(v)) == v
  {
    var a := v / 0x100;
    var b := a / 0x100;
    assert v / 0x1_0000 == b && v / 0x100_0000 == b / 0x100;
  }

  /** The first octet is the least significant one. */
  lemma LeastFirst(v: nat)
    requires v < 0x1_0000_0000
    ensures ToLe32(v) == [v % 256] + ToLe32(v / 256)[..3]
  {
    var a := v / 0x100;
    var b := a / 0x100;
    assert v / 0x1_0000 == b && v / 0x100_0000 == b / 0x100 == a / 0x1_0000;
  }

  lemma SubSlice(buf: seq<Byte>, off: nat, n: nat, i: nat, j: nat)
    requires off + n <= |buf| && i <= j <= n
    ensures buf[off..off + n][i..j] == buf[off + i..off + j]
  {
    var part := buf[off..off + n][i..j];
    assert forall k :: 0 <= k < |part| ==> part[k] == buf[off + i..off + j][k];
  }

  /** The octets of `part` stand at `off` in `buf`. */
  predicate StandsAt(buf: seq<Byte>, off: nat, part: seq<Byte>) {
    off + |part| <= |buf| && buf[off..off + |part|] == part
  }

  lemma StandsParts(buf: seq<Byte>, off: nat, a: seq<Byte>, b: seq<Byte>)
    requires StandsAt(buf, off, a + b)
    ensures StandsAt(buf, off, a) && StandsAt(buf, off + |a|, b)
  {
    SubSlice(buf, off, |a| + |b|, 0, |a|);
    SubSlice(buf, off, |a| + |b|, |a|, |a| + |b|);
    assert (a + b)[0..|a|] == a && (a + b)[|a|..|a| + |b|] == b;
  }
}
