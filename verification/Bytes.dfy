/**
  Octets, fixed-width unsigned arithmetic and network byte order, shared by every component.
 */
module Bytes {

  type byte = x: int | 0 <= x < 256

  const U8_SIZE: nat := 0x100
  const U16_SIZE: nat := 0x1_0000
  const U32_SIZE: nat := 0x1_0000_0000

  datatype Option<+T> = None | Some(value: T)

  /** The bytes of a 16-bit field in network order. */
  function Be16(v: nat): (s: seq<byte>)
    requires v < U16_SIZE
    ensures |s| == 2
  {
    [v / 256, v % 256]
  }

  function FromBe16(s: seq<byte>): (v: nat)
    requires |s| == 2
    ensures v < U16_SIZE
  {
    s[0] as int * 256 + s[1] as int
  }

  /** The bytes of a 32-bit field in network order. */
  function Be32(v: nat): (s: seq<byte>)
    requires v < U32_SIZE
    ensures |s| == 4
  {
    Be16(v / 0x1_0000) + Be16(v % 0x1_0000)
  }

  function FromBe32(s: seq<byte>): (v: nat)
    requires |s| == 4
    ensures v < U32_SIZE
  {
    FromBe16(s[..2]) * 0x1_0000 + FromBe16(s[2..])
  }

  lemma Be16RoundTrip(v: nat)
    requires v < U16_SIZE
    ensures FromBe16(Be16(v)) == v
  {
  }

  lemma Be32RoundTrip(v: nat)
    requires v < U32_SIZE
    ensures FromBe32(Be32(v)) == v
  {
    assert Be32(v)[..2] == Be16(v / 0x1_0000) && Be32(v)[2..] == Be16(v % 0x1_0000);
    Be16RoundTrip(v / 0x1_0000);
    Be16RoundTrip(v % 0x1_0000);
  }

  /** The most significant byte comes first. */
  lemma NetworkOrder(v: nat)
    requires v < U32_SIZE
    ensures Be32(v) == [v / 0x100_0000, v / 0x1_0000 % 256, v / 256 % 256, v % 256]
  {
    var hi, lo := v / 0x1_0000, v % 0x1_0000;
    assert Be32(v) == [hi / 256, hi % 256, lo / 256, lo % 256];
    assert lo / 256 == v / 256 % 256 && lo % 256 == v % 256 by { LowBytes(v, hi, lo); }
  }

  lemma LowBytes(v: nat, hi: nat, lo: nat)
    requires v == 0x1_0000 * hi + lo && lo < 0x1_0000
    ensures lo / 256 == v / 256 % 256 && lo % 256 == v % 256
  {
    assert v / 256 == 256 * hi + lo / 256;
  }

  /** Overwrites the bytes of `p` from `off` on with `data` (a store into a packet buffer). */
  function Splice(p: seq<byte>, off: nat, data: seq<byte>): (r: seq<byte>)
    requires off + |data| <= |p|
    ensures |r| == |p|
    ensures r[..off] == p[..off]
    ensures r[off..off + |data|] == data
    ensures r[off + |data|..] == p[off + |data|..]
  {
    p[..off] + data + p[off + |data|..]
  }

  /** Stores into disjoint places commute. */
  lemma SpliceCommutes(p: seq<byte>, at: nat, x: seq<byte>, off: nat, y: seq<byte>)
    requires at + |x| <= off && off + |y| <= |p|
    ensures Splice(Splice(p, at, x), off, y) == Splice(Splice(p, off, y), at, x)
  {
    var a, b := Splice(Splice(p, at, x), off, y), Splice(Splice(p, off, y), at, x);
    forall i | 0 <= i < |p| ensures a[i] == b[i] {
      SpliceAt(p, at, x, i);
      SpliceAt(p, off, y, i);
      SpliceAt(Splice(p, at, x), off, y, i);
      SpliceAt(Splice(p, off, y), at, x, i);
    }
  }

  lemma SpliceAt(p: seq<byte>, off: nat, data: seq<byte>, i: nat)
    requires off + |data| <= |p| && i < |p|
    ensures Splice(p, off, data)[i] == if off <= i < off + |data| then data[i - off] else p[i]
  {
  }

  lemma SliceOfPrefix(s: seq<byte>, n: nat, i: nat, j: nat)
    requires i <= j <= n <= |s|
    ensures s[..n][i..j] == s[i..j]
  {
  }

  /** The packet holds the bytes `s` at `off`. */
  ghost predicate Holds(p: seq<byte>, off: nat, s: seq<byte>) {
    off + |s| <= |p| && p[off..off + |s|] == s
  }

  lemma HoldsSplit(p: seq<byte>, off: nat, s: seq<byte>, t: seq<byte>)
    ensures Holds(p, off, s + t) <==> Holds(p, off, s) && Holds(p, off + |s|, t)
  {
    if off + |s| + |t| <= |p| {
      var all := p[off..off + |s| + |t|];
      assert all[..|s|] == p[off..off + |s|];
      assert all[|s|..] == p[off + |s|..off + |s| + |t|];
      assert (s + t)[..|s|] == s && (s + t)[|s|..] == t;
      assert all == all[..|s|] + all[|s|..];
    }
  }

  lemma HoldsExtends(q: seq<byte>, p: seq<byte>, off: nat, s: seq<byte>)
    requires q <= p && Holds(q, off, s)
    ensures Holds(p, off, s)
  {
    assert p[off..off + |s|] == q[off..off + |s|];
  }
}
