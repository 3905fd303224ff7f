/**
  A record whose data length is filled in last is the same record written front to back.
 */
module RecordRuns {
  import opened Bytes
  import opened DomainNames
  import opened NameReader
  import opened NameWriter
  import opened NameRoundTrip
  import opened NameRuns
  import opened Records

  /** All stored names lie in the first `at` bytes of the packet. */
  ghost predicate StoredBelow(k: Pkt, at: nat) {
    && WellSized(k) && at <= k.writeOffset
    && forall n :: 0 <= n < |k.offsets| && k.offsets[n] != 0 ==>
         exists ls, j: nat, a: nat :: StoredName(k.bytes[..at], k.offsets[n], ls, j, a)
  }

  /** The compressor looks at nothing but the stored names. */
  lemma CompressSame(k: Pkt, p: seq<byte>, at: nat, n: nat, d: seq<byte>)
    requires StoredBelow(k, at) && |p| == |k.bytes| && p[..at] == k.bytes[..at]
    requires n < |k.offsets| && k.offsets[n] != 0 && |d| <= DOMAIN_MAXLEN
    ensures Compress(p, k.offsets[n], d) == Compress(k.bytes, k.offsets[n], d)
  {
    hide ReadLoop, CompressLoop, StoredName;
    var ls, j: nat, a: nat :| StoredName(k.bytes[..at], k.offsets[n], ls, j, a);
    StoredReads(k.bytes[..at], k.bytes, k.offsets[n], ls, j, a);
    StoredReads(k.bytes[..at], p, k.offsets[n], ls, j, a);
  }

  lemma {:induction false} BestSame(k: Pkt, p: seq<byte>, at: nat, i: nat, d: seq<byte>, best: Match)
    requires StoredBelow(k, at) && |p| == |k.bytes| && p[..at] == k.bytes[..at]
    requires i <= |k.offsets| && |d| <= DOMAIN_MAXLEN
    requires best.At? ==> best.writelen + DOMAIN_JUMP_SIZE < |d| && 0 < best.target
    ensures BestMatch(p, k.offsets, i, d, best) == BestMatch(k.bytes, k.offsets, i, d, best)
    decreases |k.offsets| - i
  {
    hide Compress;
    if i < |k.offsets| && !best.Overrun? {
      if k.offsets[i] == 0 {
        BestSame(k, p, at, i + 1, d, best);
      } else {
        CompressSame(k, p, at, i, d);
        var m := Compress(p, k.offsets[i], d);
        var next := if m.Overrun? || (m.At? && (best.At? ==> m.writelen < best.writelen)) then m else best;
        BestSame(k, p, at, i + 1, d, next);
      }
    }
  }

  lemma LiteralCommutes(k: Pkt, at: nat, data: seq<byte>, d: seq<byte>, n: nat)
    requires at + |data| <= k.writeOffset <= |k.bytes| && n <= |d|
    ensures var r, r' := WriteLiteral(k, d, n), WriteLiteral(Patch(k, at, data), d, n);
            && r'.status == r.status && |r.pkt.bytes| == |k.bytes| && r'.pkt == Patch(r.pkt, at, data)
            && r.pkt.writeOffset >= k.writeOffset
  {
    hide Store, Splice;
    if n > 0 && Fits(k.bytes, n, k.writeOffset) {
      SpliceCommutes(k.bytes, at, data, k.writeOffset, d[..n]);
    }
  }

  /** Filling in a field before or after a name is written makes no difference. */
  lemma WriteCommutes(k: Pkt, at: nat, data: seq<byte>, d: seq<byte>, skip: bool)
    requires StoredBelow(k, at) && at + |data| <= k.writeOffset && |d| <= DOMAIN_MAXLEN
    ensures WellSized(Patch(k, at, data))
    ensures var r, r' := WriteDomain(k, d, skip), WriteDomain(Patch(k, at, data), d, skip);
            r'.status == r.status && |r.pkt.bytes| == |k.bytes| && r'.pkt == Patch(r.pkt, at, data)
  {
    hide BestMatch, WriteLiteral, Splice;
    var k' := Patch(k, at, data);
    assert WellSized(k') && Chosen(k, d, skip) == Chosen(k', d, skip) by { ChosenSame(k, at, data, d, skip); }
    var m := Chosen(k, d, skip);
    LiteralCommutes(k, at, data, d, if m.At? then m.writelen else |d|);
    if m.At? {
      var k1 := WriteLiteral(k, d, m.writelen).pkt;
      if Fits(k1.bytes, DOMAIN_JUMP_SIZE, k1.writeOffset) {
        SpliceCommutes(k1.bytes, at, data, k1.writeOffset, JumpBytes(m.target));
      }
    }
  }

  lemma ChosenSame(k: Pkt, at: nat, data: seq<byte>, d: seq<byte>, skip: bool)
    requires StoredBelow(k, at) && at + |data| <= k.writeOffset && |d| <= DOMAIN_MAXLEN
    ensures WellSized(k) && WellSized(Patch(k, at, data))
    ensures Chosen(k, d, skip) == Chosen(Patch(k, at, data), d, skip)
  {
    hide BestMatch, Splice;
    SpliceKeeps(k.bytes, at, data);
    if !skip {
      BestSame(k, Patch(k, at, data).bytes, at, 0, d, NoMatch);
    }
  }

  lemma SpliceKeeps(p: seq<byte>, off: nat, data: seq<byte>)
    requires off + |data| <= |p|
    ensures |Splice(p, off, data)| == |p| && Splice(p, off, data)[..off] == p[..off]
  {
  }

  lemma RawCommutes(k: Pkt, at: nat, data: seq<byte>, more: seq<byte>)
    requires at + |data| <= k.writeOffset <= |k.bytes|
    ensures var r, r' := TakeRaw(k, more), TakeRaw(Patch(k, at, data), more);
            r'.status == r.status && |r.pkt.bytes| == |k.bytes| && r'.pkt == Patch(r.pkt, at, data)
  {
    hide Splice;
    if Fits(k.bytes, |more|, k.writeOffset) {
      SpliceCommutes(k.bytes, at, data, k.writeOffset, more);
    }
  }

  /** The same for all of a record's data. */
  lemma DataCommutes(k: Pkt, at: nat, data: seq<byte>, a: Record)
    requires StoredBelow(k, at) && at + |data| <= k.writeOffset && RecordOk(a)
    ensures WellSized(Patch(k, at, data))
    ensures var r, r' := WriteData(k, a), WriteData(Patch(k, at, data), a);
            r'.status == r.status && |r.pkt.bytes| == |k.bytes| && r'.pkt == Patch(r.pkt, at, data)
  {
    hide WriteDomain, Splice, Encode;
    SpliceKeeps(k.bytes, at, data);
    if a.fixed.Some? {
      RawCommutes(k, at, data, a.fixed.value);
    }
    var r := if a.fixed.Some? then TakeRaw(k, a.fixed.value) else Written(Ok, k);
    if r.status == Ok && a.target.Some? {
      assert r.pkt.bytes[..at] == k.bytes[..at] by { RawKeepsBelow(k, a, at); }
      WriteCommutes(r.pkt, at, data, Encode(a.target.value.ls), a.target.value.skip);
    }
  }

  lemma RawKeepsBelow(k: Pkt, a: Record, at: nat)
    requires WellSized(k) && at <= k.writeOffset
    ensures a.fixed.Some? ==> TakeRaw(k, a.fixed.value).pkt.bytes[..at] == k.bytes[..at]
  {
  }

  // ----- A record as a run

  lemma {:induction false} RunConcat(k: Pkt, xs: seq<Op>, ys: seq<Op>)
    requires WellSized(k) && Writable(xs) && Writable(ys)
    ensures Writable(xs + ys)
    ensures var r := Run(k, xs);
            Run(k, xs + ys) == if r.status != Ok then r else (RunAppends(k, xs); Run(r.pkt, ys))
    decreases |xs|
  {
    hide Apply, Encode;
    if xs == [] {
      assert xs + ys == ys;
    } else {
      assert (xs + ys)[1..] == xs[1..] + ys;
      if Apply(k, xs[0]).status == Ok {
        ApplyAppends(k, xs[0]);
        RunConcat(Apply(k, xs[0]).pkt, xs[1..], ys);
      }
    }
  }

  function DataOps(a: Record): (ops: seq<Op>)
    requires RecordOk(a)
    ensures Writable(ops)
  {
    (if a.fixed.Some? then [Raw(a.fixed.value)] else [])
    + (if a.target.Some? then [Name(a.target.value.ls, a.target.value.skip)] else [])
  }

  lemma DataIsRun(k: Pkt, a: Record)
    requires WellSized(k) && RecordOk(a)
    ensures Run(k, DataOps(a)) == WriteData(k, a)
  {
    hide Encode, WriteDomain, Splice;
    var f: seq<Op> := if a.fixed.Some? then [Raw(a.fixed.value)] else [];
    var t: seq<Op> := if a.target.Some? then [Name(a.target.value.ls, a.target.value.skip)] else [];
    if a.fixed.Some? {
      RunOne(k, Raw(a.fixed.value), []);
      assert f == [Raw(a.fixed.value)] + [];
    }
    RunConcat(k, f, t);
    if Run(k, f).status == Ok && a.target.Some? {
      RunAppends(k, f);
      RunOne(Run(k, f).pkt, Name(a.target.value.ls, a.target.value.skip), []);
      assert t == [Name(a.target.value.ls, a.target.value.skip)] + [];
    }
  }

  /** The stores of a whole record in packet order, its data length among them. */
  function AnswerOps(a: Record, len: nat): (ops: seq<Op>)
    requires RecordOk(a) && len < U16_SIZE
    ensures Writable(ops)
  {
    QuestionOps(a.rr) + ([Raw(Be32(a.ttl)), Raw(Be16(len))] + DataOps(a))
  }

  /** The data length that `AddAnswer` fills in. */
  ghost function DataLen(k: Pkt, a: Record): (len: nat)
    requires WellSized(k) && RecordOk(a) && AddAnswer(k, a).status == Ok
    ensures len < U16_SIZE
  {
    AnswerSpace(k, a);
    OpenRecordFits(k, a);
    var head := OpenRecord(k, a).pkt;
    DataFits(Skip(head, 2), a);
    (WriteData(Skip(head, 2), a).pkt.writeOffset - (head.writeOffset + 2)) % U16_SIZE
  }

  lemma QuestionKeepsInv(k: Pkt, rr: Rr)
    requires Inv(k) && RrOk(rr) && AddQuestion(k, rr).status == Ok && Safe(k, rr.name, false)
    ensures Inv(AddQuestion(k, rr).pkt)
  {
    hide Encode, WriteDomain, TakeRaw, Inv, Safe;
    var t, c := Be16(rr.rtype), Be16(ClassField(rr));
    assert WellSized(k) by { InvSized(k); }
    RunOne(k, Name(rr.name, false), [Raw(t), Raw(c)]);
    assert QuestionOps(rr) == [Name(rr.name, false)] + [Raw(t), Raw(c)];
    SafeWriteKeepsInv(k, rr.name, false);
    var k1 := WriteDomain(k, Encode(rr.name), false).pkt;
    assert WellSized(k1) by { InvSized(k1); }
    RunOne(k1, Raw(t), [Raw(c)]);
    RawKeepsInv(k1, t);
    var k2 := TakeRaw(k1, t).pkt;
    assert WellSized(k2) by { InvSized(k2); }
    RunOne(k2, Raw(c), []);
    RawKeepsInv(k2, c);
  }

  lemma InvSized(k: Pkt)
    requires Inv(k)
    ensures WellSized(k)
  {
  }

  /** The packet behind the time to live, with the data length filled in there or skipped. */
  lemma LengthFilled(k: Pkt, len: nat)
    requires Inv(k) && len < U16_SIZE && k.writeOffset + 2 <= |k.bytes|
    ensures WellSized(Skip(k, 2)) && StoredBelow(Skip(k, 2), k.writeOffset)
    ensures TakeRaw(k, Be16(len)) == Written(Ok, Patch(Skip(k, 2), k.writeOffset, Be16(len)))
  {
    hide StoredName;
  }

  /** The stores behind an owner name, one after the other. */
  lemma TailIsRun(k1: Pkt, k2: Pkt, k3: Pkt, ttl: nat, len: nat, rest: seq<Op>)
    requires WellSized(k1) && ttl < U32_SIZE && len < U16_SIZE && Writable(rest)
    requires TakeRaw(k1, Be32(ttl)) == Written(Ok, k2) && WellSized(k2)
    requires TakeRaw(k2, Be16(len)) == Written(Ok, k3) && WellSized(k3)
    ensures Run(k1, [Raw(Be32(ttl)), Raw(Be16(len))] + rest) == Run(k3, rest)
  {
    hide TakeRaw, WellSized, Run, Be16, Be32;
    var t, l := Raw(Be32(ttl)), Raw(Be16(len));
    assert [t, l] + rest == [t] + ([l] + rest);
    RunOne(k2, l, rest);
    RunOne(k1, t, [l] + rest);
  }

  /** A record with a safely written owner name is the run of its stores in packet order. */
  lemma AnswerIsRun(k: Pkt, a: Record)
    requires Inv(k) && RecordOk(a) && AddAnswer(k, a).status == Ok && Safe(k, a.rr.name, false)
    ensures Run(k, AnswerOps(a, DataLen(k, a))) == AddAnswer(k, a)
  {
    hide Encode, WriteData, WriteDomain, Splice, Safe, Fits, Inv, AddQuestion, Run, TakeRaw, Be16, Be32;
    InvSized(k);
    AnswerSpace(k, a);
    OpenRecordFits(k, a);
    QuestionKeepsInv(k, a.rr);
    var k1, k2 := AddQuestion(k, a.rr).pkt, OpenRecord(k, a).pkt;
    RawKeepsInv(k1, Be32(a.ttl));
    var len, k3 := DataLen(k, a), Skip(k2, 2);
    LengthFilled(k2, len);
    DataFits(k3, a);
    DataCommutes(k3, k2.writeOffset, Be16(len), a);
    var k3' := TakeRaw(k2, Be16(len)).pkt;
    DataIsRun(k3', a);
    TailIsRun(k1, k2, k3', a.ttl, len, DataOps(a));
    QuestionIsRun(k, a.rr);
    RunConcat(k, QuestionOps(a.rr), [Raw(Be32(a.ttl)), Raw(Be16(len))] + DataOps(a));
  }

  lemma QuestionIsRun(k: Pkt, rr: Rr)
    requires WellSized(k) && RrOk(rr) && AddQuestion(k, rr).status == Ok
    ensures Run(k, QuestionOps(rr)) == AddQuestion(k, rr)
  {
    hide Run, Encode;
  }
}
