/**
  Whole runs of the packet writer: any sequence of names and fixed fields, with every name read
  back from the finished packet.
 */
module NameRuns {
  import opened Bytes
  import opened DomainNames
  import opened NameReader
  import opened NameWriter
  import opened NameRoundTrip

  /** One store into the packet: a name, or the bytes of other fields. */
  datatype Op = Name(ls: seq<Label>, skip: bool) | Raw(data: seq<byte>)

  /** Appends the bytes of a field at the write offset. */
  function TakeRaw(k: Pkt, data: seq<byte>): (r: Written)
  {
    if !Fits(k.bytes, |data|, k.writeOffset) then Written(ErrMem, k)
    else Written(Ok, k.(bytes := Splice(k.bytes, k.writeOffset, data), writeOffset := k.writeOffset + |data|))
  }

  function Apply(k: Pkt, op: Op): (r: Written)
    requires WellSized(k) && (op.Name? ==> |Encode(op.ls)| < DOMAIN_MAXLEN)
  {
    match op
    case Name(ls, skip) => WriteDomain(k, Encode(ls), skip)
    case Raw(data) => TakeRaw(k, data)
  }

  lemma StoredExtends(q: seq<byte>, p: seq<byte>, o: nat, ls: seq<Label>, j: nat, a: nat)
    requires q <= p && StoredName(q, o, ls, j, a)
    ensures StoredName(p, o, ls, j, a)
  {
    hide Encode, Head, Start;
    SpellsExtends(q, p, o, ls, j, false);
    SpellsExtends(q, p, o + Start(ls, a), ls[a..], j, false);
    HoldsExtends(q, p, o, Head(ls, a));
    LiteralEndPrefix(p, o, ls, a);
  }

  /** A store that only appends keeps every stored name. */
  lemma AppendKeeps(k: Pkt, k': Pkt, n: nat)
    requires Inv(k) && WellSized(k') && Done(k) <= Done(k')
    requires n < |k.offsets| && k.offsets[n] != 0
    ensures exists ls, j: nat, a: nat :: StoredName(Done(k'), k.offsets[n], ls, j, a)
  {
    var ls, j: nat, a: nat :| StoredName(Done(k), k.offsets[n], ls, j, a);
    StoredExtends(Done(k), Done(k'), k.offsets[n], ls, j, a);
  }

  lemma RawKeepsInv(k: Pkt, data: seq<byte>)
    requires Inv(k) && TakeRaw(k, data).status == Ok
    ensures Inv(TakeRaw(k, data).pkt) && Done(TakeRaw(k, data).pkt) == Done(k) + data
    ensures |TakeRaw(k, data).pkt.bytes| == |k.bytes|
  {
    var k' := TakeRaw(k, data).pkt;
    forall n | 0 <= n < |k.offsets| && k'.offsets[n] != 0
      ensures exists ls, j: nat, a: nat :: StoredName(Done(k'), k'.offsets[n], ls, j, a)
    {
      AppendKeeps(k, k', n);
    }
  }

  /** A safe write keeps the invariant of the stored names. */
  lemma SafeWriteKeepsInv(k: Pkt, ls: seq<Label>, skip: bool)
    requires Inv(k) && |Encode(ls)| < DOMAIN_MAXLEN
    requires WriteDomain(k, Encode(ls), skip).status == Ok && Safe(k, ls, skip)
    ensures Inv(WriteDomain(k, Encode(ls), skip).pkt)
  {
    hide Encode, WriteDomain, Chosen, Safe, StoredName;
    var k' := WriteDomain(k, Encode(ls), skip).pkt;
    WriteAppends(k, Encode(ls), skip);
    var j, a := SafeSpells(k, ls, skip);
    forall n | 0 <= n < |k'.offsets| && k'.offsets[n] != 0
      ensures exists ls, j: nat, a: nat :: StoredName(Done(k'), k'.offsets[n], ls, j, a)
    {
      if k'.offsets[n] == k.offsets[n] {
        AppendKeeps(k, k', n);
      } else {
        assert k'.offsets[n] == k.writeOffset;
      }
    }
  }

  // ----- Names that cannot clash

  /** No content byte of `t` can be taken for the length of a label of `ls`. */
  ghost predicate NoClash(t: seq<Label>, ls: seq<Label>) {
    forall m, n :: 0 <= m < |t| && 0 <= n < |ls| ==> |ls[n]| !in t[m]
  }

  /** Every byte of a name is a length byte or part of a label. */
  lemma {:induction false} ByteKinds(ls: seq<Label>, x: nat) returns (m: nat)
    requires x < |Encode(ls)|
    ensures IsStart(ls, x) || (m < |ls| && Encode(ls)[x] in ls[m])
  {
    m := 0;
    if ls != [] && x > 0 {
      var c := |ls[0]|;
      if x < 1 + c {
        assert Encode(ls)[x] == ls[0][x - 1];
      } else {
        m := ByteKinds(ls[1..], x - 1 - c);
        assert Encode(ls)[x] == Encode(ls[1..])[x - 1 - c];
        m := m + 1;
      }
    }
  }

  lemma {:induction false} StartIsStart(ls: seq<Label>, k: nat)
    requires k <= |ls|
    ensures IsStart(ls, Start(ls, k))
  {
    if k > 0 {
      StartIsStart(ls[1..], k - 1);
    }
  }

  /** Without clashes a match is a common tail of the two names, label for label. */
  lemma ClashFreeTail(ls: seq<Label>, m: Match, i: nat, tls: seq<Label>, len: nat) returns (b: nat)
    requires m.At? && Found(m, ls, i, m.from, Encode(tls), len) && NoClash(tls, ls)
    ensures b < |tls| && i < |ls| && tls[b..] == ls[i..] && Start(tls, b) == m.target - m.from
  {
    hide Encode, Start, IsStart;
    var x := m.target - m.from;
    HeadEncode(ls, i);
    LabelAt(ls[i..], 0);
    assert Encode(tls)[x] == |ls[i]| by { StartZero(ls[i..]); }
    var n := ByteKinds(tls, x);
    b := StartOf(tls, x);
    HeadEncode(tls, b);
    EncodeInjective(tls[b..], ls[i..]);
  }

  /** Without clashes a match lands on a label of the stored name. */
  lemma ClashFreeAligned(k: Pkt, ls: seq<Label>, m: Match, i: nat, tls: seq<Label>, j: nat, a: nat)
    requires Resolved(k, ls, m, i, tls, j, a) && NoClash(tls, ls)
    ensures Aligned(k.bytes, ls, m)
  {
    hide Spells, Encode, Start, Head, EndOf, IsStart, Jumps, LiteralEnd, SplitAt, Aligned;
    SafetyOfMatch(k, ls, m, i, tls, j, a);
    var b := ClashFreeTail(ls, m, i, tls, Start(tls, a) + if j > 0 then 2 else 1);
    if j > 0 {
      StartIsStart(tls, a);
      IsStartShift(tls, b, Start(tls, a) - (m.target - m.from));
    }
  }

  lemma StartZero(ls: seq<Label>)
    ensures Start(ls, 0) == 0
  {
  }

  // ----- Runs

  predicate Writable(ops: seq<Op>) {
    forall n :: 0 <= n < |ops| && ops[n].Name? ==> |Encode(ops[n].ls)| < DOMAIN_MAXLEN
  }

  /** The packet after all the stores, or the state and status of the first that fails. */
  function Run(k: Pkt, ops: seq<Op>): (r: Written)
    requires WellSized(k) && Writable(ops)
    decreases |ops|
  {
    if ops == [] then Written(Ok, k)
    else
      var r := Apply(k, ops[0]);
      if r.status != Ok then r
      else
        assert WellSized(r.pkt) by { ApplyAppends(k, ops[0]); }
        Run(r.pkt, ops[1..])
  }

  lemma ApplyAppends(k: Pkt, op: Op)
    requires WellSized(k) && (op.Name? ==> |Encode(op.ls)| < DOMAIN_MAXLEN)
    requires Apply(k, op).status == Ok
    ensures var k' := Apply(k, op).pkt; WellSized(k') && |k'.bytes| == |k.bytes| && Done(k) <= Done(k')
  {
    if op.Name? {
      WriteAppends(k, Encode(op.ls), op.skip);
    }
  }

  lemma {:induction false} RunAppends(k: Pkt, ops: seq<Op>)
    requires WellSized(k) && Writable(ops) && Run(k, ops).status == Ok
    ensures var k' := Run(k, ops).pkt; WellSized(k') && |k'.bytes| == |k.bytes| && Done(k) <= Done(k')
    decreases |ops|
  {
    hide Apply, Encode;
    if ops != [] {
      ApplyAppends(k, ops[0]);
      RunAppends(Apply(k, ops[0]).pkt, ops[1..]);
    }
  }

  /** Every name of the run was written safely, in the packet as it then was. */
  ghost predicate AllSafe(k: Pkt, ops: seq<Op>)
    requires WellSized(k) && Writable(ops) && Run(k, ops).status == Ok
    decreases |ops|
  {
    ops != [] ==>
      && (ops[0].Name? ==> Safe(k, ops[0].ls, ops[0].skip))
      && assert WellSized(Apply(k, ops[0]).pkt) by { ApplyAppends(k, ops[0]); }
         AllSafe(Apply(k, ops[0]).pkt, ops[1..])
  }

  /** Every name of the run reads back from `f`, at the place it was written. */
  ghost predicate AllReadBack(k: Pkt, ops: seq<Op>, f: seq<byte>)
    requires WellSized(k) && Writable(ops) && Run(k, ops).status == Ok
    decreases |ops|
  {
    ops != [] ==>
      && var k' := Apply(k, ops[0]).pkt;
      && (ops[0].Name? ==> ReadName(f, k.writeOffset) == Read(k'.writeOffset, Encode(ops[0].ls)))
      && assert WellSized(k') by { ApplyAppends(k, ops[0]); }
         AllReadBack(k', ops[1..], f)
  }

  /**
    The round trip over whole runs: in the finished packet every name reads back, at its own
    place and for its own length, if and only if every one of them was written safely.
   */
  lemma {:induction false} RunReadsBack(k: Pkt, ops: seq<Op>, f: seq<byte>)
    requires Inv(k) && Writable(ops) && Run(k, ops).status == Ok
    requires var k' := Run(k, ops).pkt; k'.writeOffset <= |k'.bytes| && Carries(f, Done(k'))
    ensures AllReadBack(k, ops, f) <==> AllSafe(k, ops)
    decreases |ops|
  {
    hide Encode, ReadName, Safe, WriteDomain, Carries;
    if ops != [] {
      var k' := Apply(k, ops[0]).pkt;
      ApplyAppends(k, ops[0]);
      RunAppends(k', ops[1..]);
      CarriesPrefix(f, Done(Run(k, ops).pkt), Done(k'));
      match ops[0] {
        case Raw(data) => RawKeepsInv(k, data);
        case Name(ls, skip) =>
          WriteThenRead(k, ls, skip, f);
          if Safe(k, ls, skip) {
            SafeWriteKeepsInv(k, ls, skip);
          }
      }
      if Inv(k') {
        RunReadsBack(k', ops[1..], f);
      }
    }
  }
}
