/**
  The compression round trip: when a name written with compression reads back as itself, and
  why no later write changes that.
 */
module NameRoundTrip {
  import opened Bytes
  import opened DomainNames
  import opened NameReader
  import opened NameWriter

  // ----- Reading pieces of spelled names

  /** Labels written out in front of a spelled name give a longer spelled name. */
  lemma {:induction false} PrefixSpells(p: seq<byte>, off: nat, ls: seq<Label>, b: nat, j: nat, open: bool)
    requires b <= |ls| && Holds(p, off, Head(ls, b))
    requires Spells(p, off + Start(ls, b), ls[b..], j, open)
    ensures Spells(p, off, ls, j, open)
    ensures EndOf(p, off, ls) == EndOf(p, off + Start(ls, b), ls[b..])
    decreases b
  {
    hide Spells, EndOf;
    if b == 0 {
      assert ls[0..] == ls;
    } else {
      var first := [|ls[0]|] + ls[0];
      HoldsSplit(p, off, first, Head(ls[1..], b - 1));
      assert ls[1..][b - 1..] == ls[b..];
      PrefixSpells(p, off + |first|, ls[1..], b - 1, j, open);
      SpellsCons(p, off, ls[0], ls[1..], j, open);
      assert [ls[0]] + ls[1..] == ls;
    }
  }

  /** Where the labels written out at `off` stop: at a pointer or at the root label. */
  function LiteralEnd(p: seq<byte>, off: nat): (e: nat)
    ensures e >= off
    decreases |p| - off
  {
    if off >= |p| || p[off] == 0 || p[off] > LABEL_MAXLEN then off else LiteralEnd(p, off + 1 + p[off])
  }

  /** The number of pointers a reader of the name at `off` follows, as far as the depth allows. */
  function Jumps(p: seq<byte>, off: nat, depth: nat): (n: nat)
    decreases DepthLeft(depth), |p| - off
  {
    if depth > MAX_JUMPS || off >= |p| || p[off] == 0 then 0
    else if IsJump(p[off]) then if off + 1 < |p| then 1 + Jumps(p, JumpTarget(p[off], p[off + 1]), depth + 1) else 0
    else Jumps(p, off + 1 + p[off], depth)
  }

  lemma {:induction false} JumpsSpelled(p: seq<byte>, off: nat, ls: seq<Label>, j: nat, open: bool, depth: nat)
    requires Spells(p, off, ls, j, open) && depth + j <= MAX_JUMPS
    ensures Jumps(p, off, depth) == j
    decreases |ls|, j
  {
    if off < |p| {
      if IsJump(p[off]) {
        JumpsSpelled(p, JumpTarget(p[off], p[off + 1]), ls, j - 1, open, depth + 1);
      } else if p[off] != 0 {
        JumpsSpelled(p, off + 1 + |ls[0]|, ls[1..], j, open, depth);
      }
    }
  }

  /** The first `a` labels of a spelled name are written out at `off`, a pointer or the root follows. */
  ghost predicate SplitAt(p: seq<byte>, off: nat, ls: seq<Label>, j: nat, a: nat) {
    && a <= |ls| && LiteralEnd(p, off) == off + Start(ls, a) < |p|
    && Holds(p, off, Head(ls, a))
    && Spells(p, off + Start(ls, a), ls[a..], j, false)
    && (j > 0 <==> IsJump(p[off + Start(ls, a)]))
    && (j == 0 ==> a == |ls| && p[off + Start(ls, a)] == 0)
    && EndOf(p, off, ls) == off + Start(ls, a) + if j > 0 then 2 else 1
  }

  lemma {:induction false} LiteralEndPrefix(p: seq<byte>, off: nat, ls: seq<Label>, b: nat)
    requires b <= |ls| && Holds(p, off, Head(ls, b))
    ensures LiteralEnd(p, off) == LiteralEnd(p, off + Start(ls, b))
    decreases b
  {
    hide Encode, Head, Start, LiteralEnd, Holds;
    if b > 0 {
      HeadCons(ls, b);
      OverLabel(p, off, ls[0], Head(ls[1..], b - 1));
      LiteralEndPrefix(p, off + 1 + |ls[0]|, ls[1..], b - 1);
    } else {
      NoHead(ls);
    }
  }

  /** Over one label that is written out. */
  lemma OverLabel(p: seq<byte>, off: nat, label_: Label, rest: seq<byte>)
    requires Holds(p, off, [|label_|] + label_ + rest)
    ensures LiteralEnd(p, off) == LiteralEnd(p, off + 1 + |label_|) && Holds(p, off + 1 + |label_|, rest)
  {
    hide LiteralEnd, Holds;
    HoldsSplit(p, off, [|label_|] + label_, rest);
    HoldsSplit(p, off, [|label_|], label_);
    HoldsByte(p, off, |label_|);
    LiteralEndStep(p, off);
  }

  lemma HeadCons(ls: seq<Label>, b: nat)
    requires 0 < b <= |ls|
    ensures Head(ls, b) == [|ls[0]|] + ls[0] + Head(ls[1..], b - 1)
    ensures Start(ls, b) == 1 + |ls[0]| + Start(ls[1..], b - 1)
  {
  }

  lemma HoldsByte(p: seq<byte>, off: nat, b: byte)
    requires Holds(p, off, [b])
    ensures off < |p| && p[off] == b
  {
    assert p[off] == p[off..off + 1][0];
  }

  lemma NoHead(ls: seq<Label>)
    ensures Head(ls, 0) == [] && Start(ls, 0) == 0
  {
  }

  lemma LiteralEndStep(p: seq<byte>, off: nat)
    requires off < |p| && 0 < p[off] <= LABEL_MAXLEN
    ensures LiteralEnd(p, off) == LiteralEnd(p, off + 1 + p[off])
  {
  }

  /** `b` labels written out in front of a pointer or of the root label. */
  lemma SplitHere(p: seq<byte>, off: nat, ls: seq<Label>, b: nat, j: nat)
    requires b <= |ls| && Holds(p, off, Head(ls, b))
    requires off + Start(ls, b) < |p| && Spells(p, off + Start(ls, b), ls[b..], j, false)
    requires IsJump(p[off + Start(ls, b)]) || p[off + Start(ls, b)] == 0
    ensures SplitAt(p, off, ls, j, b) && Spells(p, off, ls, j, false)
  {
    PrefixSpells(p, off, ls, b, j, false);
    LiteralEndPrefix(p, off, ls, b);
  }

  /** A name written out in full is spelled without pointers. */
  lemma LiteralSpells(p: seq<byte>, off: nat, ls: seq<Label>)
    requires Holds(p, off, Encode(ls))
    ensures Spells(p, off, ls, 0, false) && SplitAt(p, off, ls, 0, |ls|)
    ensures |Encode(ls)| == Start(ls, |ls|) + 1
  {
    hide Encode, Start, Head, EndOf, LiteralEnd, Spells, SplitAt, Holds;
    var n, root := Start(ls, |ls|), ls[|ls|..];
    HeadEncode(ls, |ls|);
    LabelAt(ls, |ls|);
    EncodeRoot(root);
    HoldsSplit(p, off, Head(ls, |ls|), Encode(root));
    HoldsByte(p, off + n, 0);
    RootSpells(p, off + n);
    SplitHere(p, off, ls, |ls|, 0);
  }

  lemma EncodeRoot(ls: seq<Label>)
    requires ls == []
    ensures Encode(ls) == [0]
  {
  }

  lemma RootSpells(p: seq<byte>, off: nat)
    requires off < |p| && p[off] == 0
    ensures Spells(p, off, [], 0, false)
  {
  }

  // ----- What the compressor finds

  /** A match of the compressor: a suffix of the new name equals the end of the stored one. */
  ghost predicate Found(m: Match, ls: seq<Label>, k: nat, from: nat, name: seq<byte>, nameLen: nat) {
    && m.At? && k < |ls| && m.writelen == Start(ls, k) && m.from == from <= m.target
    && m.target - from <= |name| && name[m.target - from..] == Encode(ls[k..])
    && m.target - from + DOMAIN_JUMP_SIZE < nameLen
  }

  /** One turn of the compressor's loop on a name of at most 255 bytes. */
  lemma CompressStep(d: seq<byte>, w: nat, from: nat, name: seq<byte>, nameLen: nat)
    requires w < |d| < DOMAIN_MAXLEN && |name| <= DOMAIN_MAXLEN && w + 1 + d[w] <= |d|
    ensures var m := CompressLoop(d, w, from, name, nameLen);
            || m == NoMatch
            || m == CompressLoop(d, w + 1 + d[w], from, name, nameLen)
            || (&& m == At(w, m.target, from) && from <= m.target && m.target - from <= |name|
                && |d| - w > DOMAIN_JUMP_SIZE
                && name[m.target - from..] == d[w..] && m.target - from + DOMAIN_JUMP_SIZE < nameLen)
  {
    assert d[w..w + (|d| - w)] == d[w..];
  }

  lemma CompressEnd(d: seq<byte>, from: nat, name: seq<byte>, nameLen: nat)
    requires |d| <= DOMAIN_MAXLEN && |name| <= DOMAIN_MAXLEN
    ensures CompressLoop(d, |d|, from, name, nameLen) == NoMatch
  {
  }

  lemma {:induction false} CompressLoopSound(ls: seq<Label>, k: nat, from: nat, name: seq<byte>, nameLen: nat)
    returns (k': nat)
    requires |Encode(ls)| < DOMAIN_MAXLEN && |name| <= DOMAIN_MAXLEN && k <= |ls|
    ensures var m := CompressLoop(Encode(ls), Start(ls, k), from, name, nameLen);
            m == NoMatch || Found(m, ls, k', from, name, nameLen)
    decreases |ls| - k
  {
    hide CompressLoop, Encode, Start, Head;
    var d, w := Encode(ls), Start(ls, k);
    LabelAt(ls, k);
    HeadEncode(ls, k);
    if k < |ls| {
      LabelAt(ls, k + 1);
      k' := CompressLoopSound(ls, k + 1, from, name, nameLen);
      var m := CompressLoop(d, w, from, name, nameLen);
      CompressStep(d, w, from, name, nameLen);
      if m != CompressLoop(d, w + 1 + d[w], from, name, nameLen) {
        k' := k;
      }
    } else {
      k' := k;
      CompressStep(d, w, from, name, nameLen);
      CompressEnd(d, from, name, nameLen);
    }
  }

  /** The bytes one write adds to the packet. */
  function NewBytes(d: seq<byte>, m: Match): (s: seq<byte>)
    requires m.At? ==> m.writelen <= |d|
  {
    if m.At? then d[..m.writelen] + JumpBytes(m.target) else d
  }

  /** The part of the packet that is complete. */
  function Done(k: Pkt): (q: seq<byte>)
    requires k.writeOffset <= |k.bytes|
  {
    k.bytes[..k.writeOffset]
  }

  /** A successful write appends the new bytes and changes nothing before them. */
  lemma WriteAppends(k: Pkt, d: seq<byte>, skip: bool)
    requires WellSized(k) && |d| <= DOMAIN_MAXLEN
    requires WriteDomain(k, d, skip).status == Ok
    ensures var k', m := WriteDomain(k, d, skip).pkt, Chosen(k, d, skip);
            && WellSized(k') && |k'.bytes| == |k.bytes|
            && Done(k') == Done(k) + NewBytes(d, m)
            && k'.offsets == (if NewBytes(d, m) != [] && !(m.At? && m.writelen == 0)
                              then Store(k.offsets, k.writeOffset) else k.offsets)
  {
    hide Chosen, Store, WriteLiteral;
    var m := Chosen(k, d, skip);
    if m.At? {
      LiteralAppends(k, d, m.writelen);
      var r := WriteLiteral(k, d, m.writelen);
      JumpAppends(r.pkt, JumpBytes(m.target));
      assert Done(k) + (d[..m.writelen] + JumpBytes(m.target)) == (Done(k) + d[..m.writelen]) + JumpBytes(m.target);
    } else {
      LiteralAppends(k, d, |d|);
      assert d[..|d|] == d;
    }
  }

  lemma LiteralAppends(k: Pkt, d: seq<byte>, n: nat)
    requires WellSized(k) && n <= |d| && WriteLiteral(k, d, n).status == Ok
    ensures var k' := WriteLiteral(k, d, n).pkt;
            && WellSized(k') && |k'.bytes| == |k.bytes| && Done(k') == Done(k) + d[..n]
            && k'.offsets == (if n > 0 then Store(k.offsets, k.writeOffset) else k.offsets)
  {
  }

  lemma JumpAppends(k: Pkt, data: seq<byte>)
    requires k.writeOffset + |data| <= |k.bytes|
    ensures Splice(k.bytes, k.writeOffset, data)[..k.writeOffset + |data|] == Done(k) + data
  {
  }

  // ----- The stored names

  /** The name stored at `o` is spelled inside `q`, every pointer standing for at least one label. */
  ghost predicate StoredName(q: seq<byte>, o: nat, ls: seq<Label>, j: nat, a: nat) {
    SIZEOF_DNS_HDR <= o < |q| && Spells(q, o, ls, j, false) && SplitAt(q, o, ls, j, a) && a + j <= |ls|
  }

  /** Every recorded offset leads to a name that lies wholly in the finished part of the packet. */
  ghost predicate Inv(k: Pkt) {
    && WellSized(k)
    && forall n :: 0 <= n < |k.offsets| && k.offsets[n] != 0 ==>
         exists ls, j: nat, a: nat :: StoredName(Done(k), k.offsets[n], ls, j, a)
  }

  lemma {:induction false} BestIsSome(p: seq<byte>, offsets: seq<nat>, i: nat, d: seq<byte>, best: Match)
    returns (n: nat)
    requires i <= |offsets| && |d| <= DOMAIN_MAXLEN
    requires forall n :: 0 <= n < |offsets| ==> offsets[n] < U16_SIZE
    requires best.At? ==> best.writelen + DOMAIN_JUMP_SIZE < |d| && 0 < best.target
    ensures var m := BestMatch(p, offsets, i, d, best);
            m != best ==> i <= n < |offsets| && offsets[n] != 0 && m == Compress(p, offsets[n], d) && m != NoMatch
    decreases |offsets| - i
  {
    n := i;
    if i < |offsets| && !best.Overrun? {
      if offsets[i] == 0 {
        n := BestIsSome(p, offsets, i + 1, d, best);
      } else {
        var m := Compress(p, offsets[i], d);
        var next := if m.Overrun? || (m.At? && (best.At? ==> m.writelen < best.writelen)) then m else best;
        n := BestIsSome(p, offsets, i + 1, d, next);
        if BestMatch(p, offsets, i + 1, d, next) == next {
          n := i;
        }
      }
    }
  }

  /** What is known of a chosen match: the stored name it lies in, and where. */
  ghost predicate Resolved(k: Pkt, ls: seq<Label>, m: Match, i: nat, tls: seq<Label>, j: nat, a: nat) {
    && m.At? && WellSized(k) && StoredName(Done(k), m.from, tls, j, a)
    && j <= MAX_JUMPS && |Encode(tls)| <= DOMAIN_MAXLEN
    && Found(m, ls, i, m.from, Encode(tls), Start(tls, a) + if j > 0 then 2 else 1)
  }

  /** How a stored name reads while the packet is under construction. */
  lemma StoredReads(q: seq<byte>, p: seq<byte>, o: nat, ls: seq<Label>, j: nat, a: nat)
    requires q <= p && |p| <= JUMP_TARGET_LIMIT && StoredName(q, o, ls, j, a)
    ensures if j <= MAX_JUMPS && |Encode(ls)| <= DOMAIN_MAXLEN
            then ReadName(p, o) == Read(o + Start(ls, a) + (if j > 0 then 2 else 1), Encode(ls))
            else ReadName(p, o).end == READNAME_ERROR
  {
    SpellsExtends(q, p, o, ls, j, true);
    ReadSpelled(p, o, ls, j, true, [], 0);
    assert [] + Encode(ls) == Encode(ls);
  }

  lemma CompressSound(q: seq<byte>, p: seq<byte>, o: nat, tls: seq<Label>, j: nat, a: nat, ls: seq<Label>)
    returns (i: nat)
    requires q <= p && |p| <= JUMP_TARGET_LIMIT && StoredName(q, o, tls, j, a)
    requires |Encode(ls)| < DOMAIN_MAXLEN
    ensures var m := Compress(p, o, Encode(ls));
            || m == NoMatch
            || (&& j <= MAX_JUMPS && |Encode(tls)| <= DOMAIN_MAXLEN
                && Found(m, ls, i, o, Encode(tls), Start(tls, a) + if j > 0 then 2 else 1))
  {
    hide ReadLoop, CompressLoop, Encode, Spells, SplitAt;
    StoredReads(q, p, o, tls, j, a);
    i := 0;
    var r := ReadName(p, o);
    if r.end != READNAME_ERROR {
      i := CompressLoopSound(ls, 0, o, r.name, (r.end - o) % U8_SIZE);
    }
  }

  lemma Resolve(k: Pkt, ls: seq<Label>, skip: bool) returns (i: nat, tls: seq<Label>, j: nat, a: nat)
    requires Inv(k) && |Encode(ls)| < DOMAIN_MAXLEN
    ensures var m := Chosen(k, Encode(ls), skip);
            m == NoMatch || (Resolved(k, ls, m, i, tls, j, a) && m.from in k.offsets && m.from != 0)
  {
    hide Compress, CompressLoop, Encode, Start, Spells, SplitAt;
    i, tls, j, a := 0, [], 0, 0;
    var d := Encode(ls);
    var m := Chosen(k, d, skip);
    if m != NoMatch {
      var n := BestIsSome(k.bytes, k.offsets, 0, d, NoMatch);
      tls, j, a :| StoredName(Done(k), k.offsets[n], tls, j, a);
      i := CompressSound(Done(k), k.bytes, k.offsets[n], tls, j, a, ls);
    }
  }

  // ----- Reading through the jump

  /** An uncompressed stored name is there byte for byte. */
  lemma WholeHolds(q: seq<byte>, o: nat, tls: seq<Label>)
    requires Spells(q, o, tls, 0, false) && SplitAt(q, o, tls, 0, |tls|)
    ensures Holds(q, o, Encode(tls))
  {
    hide Spells, Encode, Start, Head, LiteralEnd, EndOf;
    var n := Start(tls, |tls|);
    LabelAt(tls, |tls|);
    HeadEncode(tls, |tls|);
    assert Encode(tls[|tls|..]) == [0] by { assert tls[|tls|..] == []; LabelAt(tls[|tls|..], 0); }
    assert q[o + n..o + n + 1] == [0];
    HoldsSplit(q, o, Head(tls, |tls|), [0]);
    assert Encode(tls) == Head(tls, |tls|) + [0];
  }

  /** Inside an uncompressed stored name, any tail that is a name in itself is spelled there. */
  lemma TailSpells(q: seq<byte>, o: nat, tls: seq<Label>, x: nat, ls: seq<Label>)
    requires Spells(q, o, tls, 0, false) && SplitAt(q, o, tls, 0, |tls|)
    requires x <= |Encode(tls)| && Encode(tls)[x..] == Encode(ls)
    ensures Spells(q, o + x, ls, 0, false)
  {
    hide Spells, Encode, Start, Head, LiteralEnd, EndOf, SplitAt;
    WholeHolds(q, o, tls);
    assert Encode(tls) == Encode(tls)[..x] + Encode(tls)[x..];
    HoldsSplit(q, o, Encode(tls)[..x], Encode(tls)[x..]);
    LiteralSpells(q, o + x, ls);
  }

  /** Inside a compressed one, a tail that crosses the pointer between two labels is spelled there. */
  lemma CrossingSpells(q: seq<byte>, o: nat, tls: seq<Label>, j: nat, a: nat, x: nat, ls: seq<Label>)
    returns (b: nat)
    requires Spells(q, o, tls, j, false) && SplitAt(q, o, tls, j, a) && j > 0
    requires x < Start(tls, a) && x <= |Encode(tls)| && Encode(tls)[x..] == Encode(ls)
    requires IsStart(ls, Start(tls, a) - x)
    ensures 0 < b <= |ls| && |ls| - b == |tls| - a
    ensures Spells(q, o + x, ls, j, false)
  {
    hide Spells, Encode, Head, LiteralEnd, EndOf;
    var e := Start(tls, a);
    b := StartOf(ls, e - x);
    HeadEncode(tls, a);
    HeadEncode(ls, b);
    assert Encode(ls)[e - x..] == Encode(tls)[x..][e - x..] == Encode(tls)[e..];
    EncodeInjective(ls[b..], tls[a..]);
    assert Encode(ls)[..e - x] == Encode(tls)[x..][..e - x] == Encode(tls)[..e][x..];
    assert Head(tls, a) == Head(tls, a)[..x] + Head(ls, b);
    HoldsSplit(q, o, Head(tls, a)[..x], Head(ls, b));
    PrefixSpells(q, o + x, ls, b, j, false);
  }

  /**
    Reading literal bytes that stop being the name `ls` at a pointer inside one of its labels:
    the pointer's byte ends up in the name, or the read fails.
   */
  lemma {:induction false} StraddleMisreads(f: seq<byte>, t: nat, ls: seq<Label>, x: nat, name: seq<byte>, depth: nat)
    requires |f| <= JUMP_TARGET_LIMIT && t + x < |f| && IsJump(f[t + x])
    requires x < |Encode(ls)| && !IsStart(ls, x) && Holds(f, t, Encode(ls)[..x])
    requires |name| + |Encode(ls)| <= DOMAIN_MAXLEN
    ensures var r := ReadLoop(f, t, name, depth);
            r.end == READNAME_ERROR || (|name| + x < |r.name| && IsJump(r.name[|name| + x]))
    decreases |ls|
  {
    hide ReadLoop;
    assert ls != [] && x > 0;
    var c := |ls[0]|;
    assert Encode(ls)[..x][0] == c;
    assert f[t] == f[t..t + x][0] == c;
    if ReadLoop(f, t, name, depth).end != READNAME_ERROR {
      ReadTurn(f, t, name, depth);
      ReadLabel(f, t, name, depth);
      var name' := name + [f[t]] + f[t + 1..t + 1 + c];
      if x < 1 + c {
        assert name'[|name| + x] == f[t + x];
      } else {
        StraddleNext(f, t, ls, x);
        StraddleMisreads(f, t + 1 + c, ls[1..], x - 1 - c, name', depth);
      }
    }
  }

  lemma StraddleNext(f: seq<byte>, t: nat, ls: seq<Label>, x: nat)
    requires ls != [] && 1 + |ls[0]| <= x < |Encode(ls)| && Holds(f, t, Encode(ls)[..x])
    ensures var c := |ls[0]|; Holds(f, t + 1 + c, Encode(ls[1..])[..x - 1 - c])
  {
    hide Encode;
    var first := [|ls[0]|] + ls[0];
    EncodeCons(ls);
    assert Encode(ls)[..x] == first + Encode(ls[1..])[..x - |first|];
    HoldsSplit(f, t, first, Encode(ls[1..])[..x - |first|]);
  }

  /** Reading over labels written out. */
  lemma {:induction false} ReadHead(f: seq<byte>, off: nat, ls: seq<Label>, k: nat, name: seq<byte>, depth: nat)
    requires k <= |ls| && |f| <= JUMP_TARGET_LIMIT && off < |f| && Holds(f, off, Head(ls, k))
    requires off + Start(ls, k) < |f| && depth <= MAX_JUMPS
    requires |name| + Start(ls, k) < DOMAIN_MAXLEN
    ensures ReadLoop(f, off, name, depth) == ReadLoop(f, off + Start(ls, k), name + Head(ls, k), depth)
    decreases k
  {
    hide ReadLoop, Encode, Head, Start;
    if k == 0 {
      NoHead(ls);
      assert name + [] == name;
    } else {
      var first := [|ls[0]|] + ls[0];
      HeadCons(ls, k);
      HoldsSplit(f, off, first, Head(ls[1..], k - 1));
      HoldsSplit(f, off, [|ls[0]|], ls[0]);
      HoldsByte(f, off, |ls[0]|);
      ReadLabel(f, off, name, depth);
      ReadHead(f, off + |first|, ls[1..], k - 1, name + [f[off]] + ls[0], depth);
      assert name + [f[off]] + ls[0] + Head(ls[1..], k - 1) == name + Head(ls, k);
    }
  }

  // ----- The round trip

  /** The pointer inside the matched stored name, if it has one, falls between two labels of the new name. */
  predicate Aligned(p: seq<byte>, ls: seq<Label>, m: Match)
    requires m.At?
  {
    var e := LiteralEnd(p, m.from);
    e < |p| && IsJump(p[e]) ==> m.target <= e && IsStart(ls, m.writelen + e - m.target)
  }

  /** The write either needs no pointer or points between labels, into a name with a pointer to spare. */
  predicate Safe(k: Pkt, ls: seq<Label>, skip: bool)
    requires WellSized(k) && |Encode(ls)| <= DOMAIN_MAXLEN
  {
    var m := Chosen(k, Encode(ls), skip);
    m.At? ==> Aligned(k.bytes, ls, m) && Jumps(k.bytes, m.from, 0) < MAX_JUMPS
  }

  /** The two tests of `Safe` in terms of the stored name. */
  lemma SafetyOfMatch(k: Pkt, ls: seq<Label>, m: Match, i: nat, tls: seq<Label>, j: nat, a: nat)
    requires Resolved(k, ls, m, i, tls, j, a)
    ensures m.target < k.writeOffset && (j > 0 ==> m.target - m.from < Start(tls, a))
    ensures Aligned(k.bytes, ls, m) <==> j == 0 || IsStart(ls[i..], Start(tls, a) - (m.target - m.from))
    ensures Jumps(k.bytes, m.from, 0) == j
  {
    hide Spells, Encode, Start, Head, EndOf, IsStart, Jumps;
    var q, p := Done(k), k.bytes;
    SpellsExtends(q, p, m.from, tls, j, true);
    JumpsSpelled(p, m.from, tls, j, true, 0);
    HoldsExtends(q, p, m.from, Head(tls, a));
    LiteralEndPrefix(p, m.from, tls, a);
    if j > 0 {
      IsStartShift(ls, i, Start(tls, a) - (m.target - m.from));
    }
  }

  /** An aligned match: the matched tail is spelled inside the stored name. */
  lemma AlignedTail(k: Pkt, ls: seq<Label>, m: Match, i: nat, tls: seq<Label>, j: nat, a: nat)
    requires Resolved(k, ls, m, i, tls, j, a) && Aligned(k.bytes, ls, m)
    ensures Spells(Done(k), m.target, ls[i..], j, false)
    ensures j + 1 <= |ls| - i
  {
    hide Spells, Encode, Start, Head, EndOf, IsStart, Jumps, LiteralEnd, SplitAt;
    SafetyOfMatch(k, ls, m, i, tls, j, a);
    if j > 0 {
      var b := CrossingSpells(Done(k), m.from, tls, j, a, m.target - m.from, ls[i..]);
    } else {
      assert a == |tls| by { LiteralIsWhole(Done(k), m.from, tls, a); }
      TailSpells(Done(k), m.from, tls, m.target - m.from, ls[i..]);
    }
  }

  lemma LiteralIsWhole(q: seq<byte>, o: nat, ls: seq<Label>, a: nat)
    requires SplitAt(q, o, ls, 0, a)
    ensures a == |ls|
  {
  }

  /** What a write with an aligned match leaves behind. */
  lemma AlignedSpells(k: Pkt, ls: seq<Label>, m: Match, i: nat, tls: seq<Label>, j: nat, a: nat)
    requires Resolved(k, ls, m, i, tls, j, a) && Aligned(k.bytes, ls, m)
    requires m.writelen <= |Encode(ls)|
    ensures StoredName(Done(k) + NewBytes(Encode(ls), m), k.writeOffset, ls, j + 1, i)
  {
    hide Spells, Encode, Start, Head, EndOf, IsStart, Jumps, LiteralEnd;
    SafetyOfMatch(k, ls, m, i, tls, j, a);
    AlignedTail(k, ls, m, i, tls, j, a);
    hide Aligned;
    var q := Done(k) + NewBytes(Encode(ls), m);
    var at := k.writeOffset + m.writelen;
    HeadEncode(ls, i);
    WrittenAt(k, Encode(ls), m, q);
    SpellsExtends(Done(k), q, m.target, ls[i..], j, false);
    SpellsJump(q, at, ls[i..], j, false);
    SplitHere(q, k.writeOffset, ls, i, j + 1);
  }

  /** Where a misaligned match runs into the pointer of the stored name: inside a label of the new one. */
  lemma Straddle(k: Pkt, ls: seq<Label>, m: Match, i: nat, tls: seq<Label>, j: nat, a: nat, f: seq<byte>)
    returns (x: nat)
    requires Resolved(k, ls, m, i, tls, j, a) && !Aligned(k.bytes, ls, m) && Done(k) <= f
    ensures var tail := Encode(ls[i..]);
            && SIZEOF_DNS_HDR <= m.target && x < |tail| && tail[x] <= LABEL_MAXLEN && !IsStart(ls[i..], x)
            && Holds(f, m.target, tail[..x]) && m.target + x < |f| && IsJump(f[m.target + x])
  {
    hide Spells, Encode, Start, Head, EndOf, IsStart, Jumps, LiteralEnd, SplitAt, Aligned;
    SafetyOfMatch(k, ls, m, i, tls, j, a);
    x := Start(tls, a) - (m.target - m.from);
    SplitEnd(Done(k), m.from, tls, j, a);
    TailHolds(Done(k), f, m.from, tls, j, a, m.target - m.from, ls[i..]);
  }

  /** A misaligned match: whatever follows in the packet, the name read back is not the name written. */
  lemma MisalignedMisreads(k: Pkt, ls: seq<Label>, m: Match, i: nat, tls: seq<Label>, j: nat, a: nat, f: seq<byte>)
    requires Resolved(k, ls, m, i, tls, j, a) && !Aligned(k.bytes, ls, m)
    requires |Encode(ls)| < DOMAIN_MAXLEN && m.writelen <= |Encode(ls)|
    requires |f| <= JUMP_TARGET_LIMIT && Done(k) + NewBytes(Encode(ls), m) <= f
    ensures var r := ReadName(f, k.writeOffset); r.end == READNAME_ERROR || r.name != Encode(ls)
  {
    hide Spells, Encode, Start, Head, EndOf, IsStart, Jumps, LiteralEnd, ReadLoop, SplitAt;
    hide Aligned, NewBytes, StoredName;
    var d, tail := Encode(ls), Encode(ls[i..]);
    HeadEncode(ls, i);
    PrefixTwice(Done(k), NewBytes(d, m), f);
    var x := Straddle(k, ls, m, i, tls, j, a, f);
    WrittenAt(k, d, m, f);
    ReadOverJump(f, k.writeOffset, ls, i, m.target);
    StraddleMisreads(f, m.target, ls[i..], x, Head(ls, i), 1);
    TailByte(d, m.writelen, tail, x);
  }

  lemma PrefixTwice(a: seq<byte>, b: seq<byte>, f: seq<byte>)
    requires a + b <= f
    ensures a <= f
  {
  }

  lemma TailByte(d: seq<byte>, n: nat, tail: seq<byte>, x: nat)
    requires n <= |d| && d[n..] == tail && x < |tail|
    ensures d[n + x] == tail[x]
  {
  }

  /** Reading `i` labels and then a pointer. */
  lemma ReadOverJump(f: seq<byte>, off: nat, ls: seq<Label>, i: nat, t: nat)
    requires i <= |ls| && |f| <= JUMP_TARGET_LIMIT && Holds(f, off, Head(ls, i)) && Start(ls, i) < DOMAIN_MAXLEN
    requires off + Start(ls, i) + 1 < |f|
    requires var at := off + Start(ls, i); IsJump(f[at]) && JumpTarget(f[at], f[at + 1]) == t
    requires SIZEOF_DNS_HDR <= t < |f|
    ensures var r := ReadLoop(f, t, Head(ls, i), 1);
            ReadName(f, off) == if r.end == READNAME_ERROR then r else Read(off + Start(ls, i) + 2, r.name)
  {
    hide ReadLoop, Start, Head;
    ReadHead(f, off, ls, i, [], 0);
    assert [] + Head(ls, i) == Head(ls, i);
    ReadJump(f, off + Start(ls, i), Head(ls, i), 0);
  }

  lemma SplitEnd(q: seq<byte>, o: nat, ls: seq<Label>, j: nat, a: nat)
    requires SplitAt(q, o, ls, j, a) && j > 0
    ensures o + Start(ls, a) < |q| && IsJump(q[o + Start(ls, a)])
  {
  }

  /** The written-out part of a stored name, from `t` on, in any later packet. */
  lemma TailHolds(q: seq<byte>, f: seq<byte>, o: nat, tls: seq<Label>, j: nat, a: nat, t: nat, ls: seq<Label>)
    requires q <= f && SplitAt(q, o, tls, j, a)
    requires t <= Start(tls, a) && t <= |Encode(tls)| && Encode(tls)[t..] == Encode(ls)
    ensures var x := Start(tls, a) - t;
            x < |Encode(ls)| && Holds(f, o + t, Encode(ls)[..x]) && Encode(ls)[x] <= LABEL_MAXLEN
  {
    hide Spells, Encode, Start, Head, EndOf, LiteralEnd;
    HeadEncode(tls, a);
    var e := Start(tls, a);
    assert Encode(ls)[e - t] == Encode(tls)[e] == Encode(tls[a..])[0];
    assert Head(tls, a) == Head(tls, a)[..t] + Encode(ls)[..e - t];
    HoldsExtends(q, f, o, Head(tls, a));
    HoldsSplit(f, o, Head(tls, a)[..t], Encode(ls)[..e - t]);
  }

  lemma WrittenAt(k: Pkt, d: seq<byte>, m: Match, f: seq<byte>)
    requires m.At? && m.writelen <= |d| && m.target < JUMP_TARGET_LIMIT && k.writeOffset <= |k.bytes|
    requires Done(k) + NewBytes(d, m) <= f
    ensures var at := k.writeOffset + m.writelen;
            && Holds(f, k.writeOffset, d[..m.writelen])
            && at + 1 < |f| && IsJump(f[at]) && JumpTarget(f[at], f[at + 1]) == m.target
  {
    var q, at := Done(k) + NewBytes(d, m), k.writeOffset + m.writelen;
    assert f[k.writeOffset..at] == q[k.writeOffset..at] == d[..m.writelen];
    assert f[at] == q[at] == JumpBytes(m.target)[0] && f[at + 1] == q[at + 1] == JumpBytes(m.target)[1];
  }

  /** A name written out in full. */
  lemma PlainSpells(k: Pkt, ls: seq<Label>)
    requires WellSized(k)
    ensures StoredName(Done(k) + Encode(ls), k.writeOffset, ls, 0, |ls|)
    ensures |Encode(ls)| == Start(ls, |ls|) + 1
  {
    hide Spells, Encode, Start, Head, EndOf, LiteralEnd;
    var q := Done(k) + Encode(ls);
    assert q[k.writeOffset..k.writeOffset + |Encode(ls)|] == Encode(ls);
    LiteralSpells(q, k.writeOffset, ls);
  }

  /** What a safe write leaves behind: the name, spelled in the finished part of the packet. */
  lemma SafeSpells(k: Pkt, ls: seq<Label>, skip: bool) returns (j: nat, a: nat)
    requires Inv(k) && |Encode(ls)| < DOMAIN_MAXLEN
    requires WriteDomain(k, Encode(ls), skip).status == Ok && Safe(k, ls, skip)
    ensures var k' := WriteDomain(k, Encode(ls), skip).pkt;
            && WellSized(k') && StoredName(Done(k'), k.writeOffset, ls, j, a) && j <= MAX_JUMPS
            && k'.writeOffset == k.writeOffset + Start(ls, a) + (if j > 0 then 2 else 1)
    ensures var m := Chosen(k, Encode(ls), skip);
            if m.At? then j == Jumps(k.bytes, m.from, 0) + 1 && m.writelen == Start(ls, a) else j == 0 && a == |ls|
  {
    hide Spells, Encode, Start, Head, EndOf, LiteralEnd, Jumps, IsStart, SplitAt, StoredName;
    hide WriteDomain, Chosen, Store, Aligned;
    var m := Chosen(k, Encode(ls), skip);
    WriteAppends(k, Encode(ls), skip);
    var i, tls, tj, ta := Resolve(k, ls, skip);
    if m == NoMatch {
      PlainSpells(k, ls);
      j, a := 0, |ls|;
    } else {
      SafetyOfMatch(k, ls, m, i, tls, tj, ta);
      AlignedSpells(k, ls, m, i, tls, tj, ta);
      j, a := tj + 1, i;
    }
  }

  /** A write that is not safe does not read back. */
  lemma UnsafeMisreads(k: Pkt, ls: seq<Label>, skip: bool, f: seq<byte>)
    requires Inv(k) && |Encode(ls)| < DOMAIN_MAXLEN && !Safe(k, ls, skip)
    requires WriteDomain(k, Encode(ls), skip).status == Ok
    requires |f| <= JUMP_TARGET_LIMIT
    requires var k' := WriteDomain(k, Encode(ls), skip).pkt; k'.writeOffset <= |k'.bytes| && Done(k') <= f
    ensures ReadName(f, k.writeOffset).end == READNAME_ERROR || ReadName(f, k.writeOffset).name != Encode(ls)
  {
    hide Encode, WriteDomain, Chosen, Store, Aligned, Jumps, ReadName, NewBytes, Done, Resolved;
    var m := Chosen(k, Encode(ls), skip);
    WriteAppends(k, Encode(ls), skip);
    var i, tls, tj, ta := Resolve(k, ls, skip);
    SafetyOfMatch(k, ls, m, i, tls, tj, ta);
    if Aligned(k.bytes, ls, m) {
      TooManyJumps(k, ls, m, i, tls, tj, ta, f);
    } else {
      MisalignedMisreads(k, ls, m, i, tls, tj, ta, f);
    }
  }

  lemma TooManyJumps(k: Pkt, ls: seq<Label>, m: Match, i: nat, tls: seq<Label>, j: nat, a: nat, f: seq<byte>)
    requires Resolved(k, ls, m, i, tls, j, a) && Aligned(k.bytes, ls, m) && j >= MAX_JUMPS
    requires m.writelen <= |Encode(ls)|
    requires |f| <= JUMP_TARGET_LIMIT && Done(k) + NewBytes(Encode(ls), m) <= f
    ensures ReadName(f, k.writeOffset).end == READNAME_ERROR
  {
    hide Encode, Aligned, ReadName, NewBytes, StoredName;
    AlignedSpells(k, ls, m, i, tls, j, a);
    StoredReads(Done(k) + NewBytes(Encode(ls), m), f, k.writeOffset, ls, j + 1, i);
  }

  /**
    The compression round trip. After a successful write, and whatever is written later, the
    reader at the name's start returns exactly that name and the offset just past its bytes if
    and only if the write was safe.
   */
  lemma WriteThenRead(k: Pkt, ls: seq<Label>, skip: bool, f: seq<byte>)
    requires Inv(k) && |Encode(ls)| < DOMAIN_MAXLEN
    requires WriteDomain(k, Encode(ls), skip).status == Ok
    requires Carries(f, Done(WriteDomain(k, Encode(ls), skip).pkt))
    ensures ReadName(f, k.writeOffset) == Read(WriteDomain(k, Encode(ls), skip).pkt.writeOffset, Encode(ls))
        <==> Safe(k, ls, skip)
    ensures !Safe(k, ls, skip) ==>
              ReadName(f, k.writeOffset).end == READNAME_ERROR || ReadName(f, k.writeOffset).name != Encode(ls)
  {
    hide Encode, WriteDomain, Chosen, Safe, StoredName, ReadName;
    WriteAppends(k, Encode(ls), skip);
    var q := Done(WriteDomain(k, Encode(ls), skip).pkt);
    var f' := WithHeader(q, f);
    HeaderIgnored(f, f', k.writeOffset);
    if Safe(k, ls, skip) {
      var j, a := SafeSpells(k, ls, skip);
      StoredReads(q, f', k.writeOffset, ls, j, a);
    } else {
      UnsafeMisreads(k, ls, skip, f');
    }
  }

  // ----- Packets with another header

  /** The packet `f` goes on behind what is finished in `q`, and may have another header. */
  ghost predicate Carries(f: seq<byte>, q: seq<byte>) {
    SIZEOF_DNS_HDR <= |q| <= |f| <= JUMP_TARGET_LIMIT && f[SIZEOF_DNS_HDR..|q|] == q[SIZEOF_DNS_HDR..]
  }

  /** `f` with the header of `q`. */
  function WithHeader(q: seq<byte>, f: seq<byte>): (f': seq<byte>)
    requires Carries(f, q)
    ensures |f'| == |f| && q <= f' && f'[SIZEOF_DNS_HDR..] == f[SIZEOF_DNS_HDR..]
  {
    var f' := q[..SIZEOF_DNS_HDR] + f[SIZEOF_DNS_HDR..];
    assert f'[..|q|] == q by {
      assert f'[SIZEOF_DNS_HDR..|q|] == f[SIZEOF_DNS_HDR..|q|];
      assert f'[..|q|] == f'[..SIZEOF_DNS_HDR] + f'[SIZEOF_DNS_HDR..|q|];
      assert q == q[..SIZEOF_DNS_HDR] + q[SIZEOF_DNS_HDR..];
    }
    f'
  }

  lemma CarriesBound(f: seq<byte>, q: seq<byte>)
    requires Carries(f, q)
    ensures SIZEOF_DNS_HDR <= |q| <= |f| <= JUMP_TARGET_LIMIT
  {
  }

  lemma CarriesPrefix(f: seq<byte>, q: seq<byte>, q': seq<byte>)
    requires Carries(f, q) && q' <= q && |q'| >= SIZEOF_DNS_HDR
    ensures Carries(f, q')
  {
    assert f[SIZEOF_DNS_HDR..|q'|] == f[SIZEOF_DNS_HDR..|q|][..|q'| - SIZEOF_DNS_HDR];
    assert q'[SIZEOF_DNS_HDR..] == q[SIZEOF_DNS_HDR..][..|q'| - SIZEOF_DNS_HDR];
  }

  /** The reader never looks at the header: names start behind it, and no pointer leads into it. */
  lemma HeaderIgnored(f: seq<byte>, f': seq<byte>, off: nat)
    requires |f| == |f'| <= JUMP_TARGET_LIMIT && SIZEOF_DNS_HDR <= off
    requires SIZEOF_DNS_HDR <= |f| && f'[SIZEOF_DNS_HDR..] == f[SIZEOF_DNS_HDR..] && off < U16_SIZE
    ensures ReadName(f, off) == ReadName(f', off)
  {
    hide ReadLoop;
    HeaderIgnoredFrom(f, f', off, [], 0);
  }

  lemma {:induction false} HeaderIgnoredFrom(f: seq<byte>, f': seq<byte>, off: nat, name: seq<byte>, depth: nat)
    requires |f| == |f'| <= JUMP_TARGET_LIMIT && SIZEOF_DNS_HDR <= off < U16_SIZE && |name| < DOMAIN_MAXLEN
    requires SIZEOF_DNS_HDR <= |f| && f'[SIZEOF_DNS_HDR..] == f[SIZEOF_DNS_HDR..]
    ensures ReadLoop(f, off, name, depth) == ReadLoop(f', off, name, depth)
    decreases DepthLeft(depth), DOMAIN_MAXLEN - |name|
  {
    hide ReadLoop;
    SameBehindHeader(f, f', off, 1);
    SameBehindHeader(f, f', off + 1, 1);
    if LeadsOn(f, off, depth) {
      HeaderIgnoredFrom(f, f', JumpTarget(f[off], f[off + 1]), name, depth + 1);
    }
    if LabelFits(f, off, name, depth) {
      var c := f[off];
      SameBehindHeader(f, f', off + 1, c);
      HeaderIgnoredFrom(f, f', off + 1 + c, name + [c] + f[off + 1..off + 1 + c], depth);
    }
    SameTurn(f, f', off, name, depth);
  }

  /** At `off` there is a pointer that the reader follows. */
  predicate LeadsOn(f: seq<byte>, off: nat, depth: nat) {
    && depth <= MAX_JUMPS && off + 1 < |f| && IsJump(f[off])
    && SIZEOF_DNS_HDR <= JumpTarget(f[off], f[off + 1]) < |f|
  }

  /** At `off` there is a label that the reader takes. */
  predicate LabelFits(f: seq<byte>, off: nat, name: seq<byte>, depth: nat) {
    && depth <= MAX_JUMPS && off < |f| && 0 < f[off] <= LABEL_MAXLEN
    && 1 + f[off] + |name| < DOMAIN_MAXLEN && off + 1 + f[off] <= |f|
  }

  /** One turn of the reader depends on the bytes at `off` and on how it goes on. */
  lemma SameTurn(f: seq<byte>, f': seq<byte>, off: nat, name: seq<byte>, depth: nat)
    requires |f| == |f'| <= JUMP_TARGET_LIMIT && off < U16_SIZE && |name| < DOMAIN_MAXLEN
    requires (off < |f| ==> f[off] == f'[off]) && (off + 1 < |f| ==> f[off + 1] == f'[off + 1])
    requires LeadsOn(f, off, depth) ==>
               var t := JumpTarget(f[off], f[off + 1]);
               ReadLoop(f, t, name, depth + 1) == ReadLoop(f', t, name, depth + 1)
    requires LabelFits(f, off, name, depth) ==>
               var label_ := f[off + 1..off + 1 + f[off]];
               var name' := name + [f[off]] + label_;
               && f'[off + 1..off + 1 + f[off]] == label_
               && ReadLoop(f, off + 1 + f[off], name', depth) == ReadLoop(f', off + 1 + f[off], name', depth)
    ensures ReadLoop(f, off, name, depth) == ReadLoop(f', off, name, depth)
  {
    hide ReadLoop;
    TurnOf(f, off, name, depth);
    TurnOf(f', off, name, depth);
  }

  /** How the reader goes on at `off`. */
  lemma TurnOf(f: seq<byte>, off: nat, name: seq<byte>, depth: nat)
    requires |f| <= JUMP_TARGET_LIMIT && off < U16_SIZE && |name| < DOMAIN_MAXLEN
    ensures var r := ReadLoop(f, off, name, depth);
            if LeadsOn(f, off, depth) then
              var g := ReadLoop(f, JumpTarget(f[off], f[off + 1]), name, depth + 1);
              r == if g.end == READNAME_ERROR then g else Read(U16(off + 2), g.name)
            else if LabelFits(f, off, name, depth) then
              r == ReadLoop(f, off + 1 + f[off], name + [f[off]] + f[off + 1..off + 1 + f[off]], depth)
            else if depth <= MAX_JUMPS && GetAt(f, off) == 0 then r == Read(U16(off + 1), name + [0])
            else r == Read(READNAME_ERROR, name)
  {
    hide ReadLoop;
    ReaderTurn(f, off, name, depth);
  }

  lemma SameBehindHeader(f: seq<byte>, f': seq<byte>, off: nat, n: nat)
    requires |f| == |f'| && SIZEOF_DNS_HDR <= |f| && f'[SIZEOF_DNS_HDR..] == f[SIZEOF_DNS_HDR..] && SIZEOF_DNS_HDR <= off
    ensures off + n <= |f| ==> f[off..off + n] == f'[off..off + n]
    ensures off < |f| ==> f[off] == f'[off]
  {
    if off < |f| {
      assert f[off] == f[SIZEOF_DNS_HDR..][off - SIZEOF_DNS_HDR] && f'[off] == f'[SIZEOF_DNS_HDR..][off - SIZEOF_DNS_HDR];
    }
    if off + n <= |f| {
      assert f[off..off + n] == f[SIZEOF_DNS_HDR..][off - SIZEOF_DNS_HDR..off + n - SIZEOF_DNS_HDR];
    }
  }

  /**
    A name whose match lands on a label needs no more jumps than it has labels, so with at most
    five labels the reader's depth limit never matters.
   */
  lemma JumpBound(k: Pkt, ls: seq<Label>, skip: bool)
    requires Inv(k) && |Encode(ls)| < DOMAIN_MAXLEN
    ensures var m := Chosen(k, Encode(ls), skip);
            && (m.At? && Aligned(k.bytes, ls, m) ==> Jumps(k.bytes, m.from, 0) + 1 <= |ls|)
            && (|ls| <= MAX_JUMPS ==> (Safe(k, ls, skip) <==> (m.At? ==> Aligned(k.bytes, ls, m))))
  {
    hide Encode, Chosen, Aligned, Jumps, SplitAt, Spells, Found;
    var m := Chosen(k, Encode(ls), skip);
    if m.At? && Aligned(k.bytes, ls, m) {
      var i, tls, j, a := Resolve(k, ls, skip);
      AlignedTail(k, ls, m, i, tls, j, a);
      SafetyOfMatch(k, ls, m, i, tls, j, a);
    }
  }
}
