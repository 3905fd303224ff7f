/**
  Questions and resource records: the writers of `mdns_out.c` and the readers of `mdns.c`.
 */
module Records {
  import opened Bytes
  import opened DomainNames
  import opened NameReader
  import opened NameWriter
  import opened NameRoundTrip
  import opened NameRuns

  const TYPE_PTR: nat := 12
  const TYPE_TXT: nat := 16
  const TYPE_AAAA: nat := 28
  const TYPE_SRV: nat := 33
  const TYPE_ANY: nat := 255
  const CLASS_IN: nat := 1
  const CLASS_ANY: nat := 255
  const TOP_BIT: nat := 0x8000

  /** Domain, type, class and the top bit of the class field, shared by questions and records. */
  datatype Rr = Rr(name: seq<Label>, rtype: nat, klass: nat, top: bool)

  /** A name inside record data, with its `skip_compression` flag. */
  datatype DataName = DataName(ls: seq<Label>, skip: bool)

  /** A record to be written: `fixed` and `target` are the `buf` and `answer_domain` of the original. */
  datatype Record = Record(rr: Rr, ttl: nat, fixed: Option<seq<byte>>, target: Option<DataName>)

  predicate RrOk(rr: Rr) {
    rr.rtype < U16_SIZE && rr.klass < TOP_BIT && |Encode(rr.name)| < DOMAIN_MAXLEN
  }

  predicate RecordOk(a: Record) {
    && RrOk(a.rr) && a.ttl < U32_SIZE
    && (a.fixed.Some? ==> |a.fixed.value| <= DOMAIN_MAXLEN)
    && (a.target.Some? ==> |Encode(a.target.value.ls)| < DOMAIN_MAXLEN)
  }

  function ClassField(rr: Rr): (v: nat)
    requires RrOk(rr)
    ensures v < U16_SIZE
  {
    rr.klass + if rr.top then TOP_BIT else 0
  }

  // ----- Space

  /** A name of at most 255 bytes never makes the compressor overrun. */
  lemma NoOverrun(k: Pkt, ls: seq<Label>, skip: bool)
    requires WellSized(k) && |Encode(ls)| < DOMAIN_MAXLEN
    ensures !Chosen(k, Encode(ls), skip).Overrun?
  {
    hide Encode, CompressLoop, ReadLoop;
    var d := Encode(ls);
    if Chosen(k, d, skip).Overrun? {
      var n := BestIsSome(k.bytes, k.offsets, 0, d, NoMatch);
      var o := k.offsets[n];
      var r := ReadName(k.bytes, o);
      var i := CompressLoopSound(ls, 0, o, r.name, (r.end - o) % U8_SIZE);
    }
  }

  /** A compressed name is never longer than its plain form, so it fits wherever that would. */
  lemma NameFits(k: Pkt, ls: seq<Label>, skip: bool)
    requires WellSized(k) && |Encode(ls)| < DOMAIN_MAXLEN
    requires k.writeOffset + |Encode(ls)| <= |k.bytes|
    ensures var r := WriteDomain(k, Encode(ls), skip);
            && r.status == Ok && WellSized(r.pkt) && |r.pkt.bytes| == |k.bytes|
            && k.writeOffset < r.pkt.writeOffset <= k.writeOffset + |Encode(ls)|
  {
    hide Encode, BestMatch, Store;
    NoOverrun(k, ls, skip);
    var m := Chosen(k, Encode(ls), skip);
    assert WriteDomain(k, Encode(ls), skip).status == Ok;
    WriteAppends(k, Encode(ls), skip);
  }

  // ----- Writers

  /** The three stores of a question. */
  function QuestionOps(rr: Rr): (ops: seq<Op>)
    requires RrOk(rr)
    ensures Writable(ops)
  {
    [Name(rr.name, false), Raw(Be16(rr.rtype)), Raw(Be16(ClassField(rr)))]
  }

  /** `mdns_add_question`, with its worst-case space test. */
  function AddQuestion(k: Pkt, rr: Rr): (r: Written)
    requires WellSized(k) && RrOk(rr)
  {
    if k.writeOffset + |Encode(rr.name)| + 4 > |k.bytes| then Written(ErrMem, k)
    else Run(k, QuestionOps(rr))
  }

  /** The worst-case length of a record. */
  function AnswerLen(a: Record): (n: nat)
    ensures n >= 11
  {
    |Encode(a.rr.name)| + 10
    + (if a.fixed.Some? then |a.fixed.value| else 0)
    + (if a.target.Some? then |Encode(a.target.value.ls)| else 0)
  }

  /** A field of fixed size fits where there is room for it. */
  lemma RawFits(k: Pkt, data: seq<byte>)
    requires WellSized(k) && data != [] && k.writeOffset + |data| <= |k.bytes|
    ensures var r := TakeRaw(k, data);
            && r.status == Ok && WellSized(r.pkt) && |r.pkt.bytes| == |k.bytes|
            && r.pkt.writeOffset == k.writeOffset + |data|
  {
  }

  lemma RunOne(k: Pkt, op: Op, rest: seq<Op>)
    requires WellSized(k) && Writable([op] + rest) && (op.Name? ==> |Encode(op.ls)| < DOMAIN_MAXLEN) && Writable(rest)
    ensures var r := Apply(k, op);
            Run(k, [op] + rest) == if r.status != Ok then r
                                   else (ApplyAppends(k, op); Run(r.pkt, rest))
  {
    hide Apply, Encode;
    assert ([op] + rest)[1..] == rest;
  }

  /** Once the worst-case test of a question passes, all its stores succeed. */
  lemma QuestionFits(k: Pkt, rr: Rr)
    requires WellSized(k) && RrOk(rr) && k.writeOffset + |Encode(rr.name)| + 4 <= |k.bytes|
    ensures var r := Run(k, QuestionOps(rr));
            && r.status == Ok && WellSized(r.pkt) && |r.pkt.bytes| == |k.bytes|
            && k.writeOffset + 4 < r.pkt.writeOffset <= k.writeOffset + |Encode(rr.name)| + 4
  {
    hide Encode, WriteDomain, TakeRaw;
    var t, c := Be16(rr.rtype), Be16(ClassField(rr));
    NameFits(k, rr.name, false);
    var k1 := WriteDomain(k, Encode(rr.name), false).pkt;
    RawFits(k1, t);
    var k2 := TakeRaw(k1, t).pkt;
    RawFits(k2, c);
    RunOne(k2, Raw(c), []);
    RunOne(k1, Raw(t), [Raw(c)]);
    RunOne(k, Name(rr.name, false), [Raw(t), Raw(c)]);
    assert QuestionOps(rr) == [Name(rr.name, false)] + [Raw(t), Raw(c)];
  }

  /** A question is written if and only if it fits uncompressed; otherwise the packet stays as it was. */
  lemma QuestionSpace(k: Pkt, rr: Rr)
    requires WellSized(k) && RrOk(rr)
    ensures AddQuestion(k, rr).status == Ok <==> k.writeOffset + |Encode(rr.name)| + 4 <= |k.bytes|
    ensures AddQuestion(k, rr).status != Ok ==> AddQuestion(k, rr) == Written(ErrMem, k)
  {
    hide Encode, Run;
    if k.writeOffset + |Encode(rr.name)| + 4 <= |k.bytes| {
      QuestionFits(k, rr);
    }
  }

  /** The fields between a record's class and its data, up to where the data length will go. */
  function OpenRecord(k: Pkt, a: Record): (r: Written)
    requires WellSized(k) && RecordOk(a)
  {
    var q := AddQuestion(k, a.rr);
    TakeRaw(q.pkt, Be32(a.ttl))
  }

  lemma OpenRecordFits(k: Pkt, a: Record)
    requires WellSized(k) && RecordOk(a) && k.writeOffset + AnswerLen(a) <= |k.bytes|
    ensures var r := OpenRecord(k, a);
            && AddQuestion(k, a.rr).status == Ok && WellSized(AddQuestion(k, a.rr).pkt)
            && r.status == Ok && WellSized(r.pkt) && |r.pkt.bytes| == |k.bytes|
            && r.pkt.writeOffset == AddQuestion(k, a.rr).pkt.writeOffset + 4
            && r.pkt.writeOffset + 2 + AnswerLen(a) <= |k.bytes| + |Encode(a.rr.name)| + 10
  {
    hide Run, Encode;
    QuestionFits(k, a.rr);
    RawFits(AddQuestion(k, a.rr).pkt, Be32(a.ttl));
  }

  /** The record data: fixed bytes, then a name that may be compressed. */
  function WriteData(k: Pkt, a: Record): (r: Written)
    requires WellSized(k) && RecordOk(a)
  {
    var r := if a.fixed.Some? then TakeRaw(k, a.fixed.value) else Written(Ok, k);
    if r.status != Ok || a.target.None? then r
    else WriteDomain(r.pkt, Encode(a.target.value.ls), a.target.value.skip)
  }

  function Skip(k: Pkt, n: nat): Pkt {
    k.(writeOffset := k.writeOffset + n)
  }

  /** `pbuf_take_at` at an offset that was left behind. */
  function Patch(k: Pkt, at: nat, data: seq<byte>): (r: Pkt)
    requires at + |data| <= |k.bytes|
    ensures |r.bytes| == |k.bytes|
  {
    k.(bytes := Splice(k.bytes, at, data))
  }

  /**
    `mdns_add_answer`. The result of the inner question is not looked at; the data length is
    stored last, at the place skipped for it.
   */
  function AddAnswer(k: Pkt, a: Record): (r: Written)
    requires WellSized(k) && RecordOk(a)
  {
    if k.writeOffset + AnswerLen(a) > |k.bytes| then Written(ErrMem, k)
    else
      var head := OpenRecord(k, a);
      if head.status != Ok then head
      else
        assert WellSized(Skip(head.pkt, 2)) by { OpenRecordFits(k, a); }
        var data := WriteData(Skip(head.pkt, 2), a);
        var len := data.pkt.writeOffset - (head.pkt.writeOffset + 2);
        if data.status != Ok then data
        else if !Fits(data.pkt.bytes, 2, head.pkt.writeOffset) then Written(ErrMem, data.pkt)
        else Written(Ok, Patch(data.pkt, head.pkt.writeOffset, Be16(len % U16_SIZE)))
  }

  /** The data of a record fits, unless it is an empty string at the very end of the packet. */
  lemma DataFits(k: Pkt, a: Record)
    requires WellSized(k) && RecordOk(a)
    requires k.writeOffset + AnswerLen(a) <= |k.bytes| + |Encode(a.rr.name)| + 10
    ensures var r := WriteData(k, a);
            && (r.status == Ok <==> !(a.fixed == Some([]) && k.writeOffset == |k.bytes|))
            && (r.status == Ok || r.status == ErrMem)
            && (r.status == Ok ==> WellSized(r.pkt) && |r.pkt.bytes| == |k.bytes| && r.pkt.writeOffset >= k.writeOffset)
            && (r.status == Ok ==> r.pkt.writeOffset <= k.writeOffset + AnswerLen(a))
  {
    hide WriteDomain, Encode;
    if a.fixed.Some? && a.fixed.value != [] {
      RawFits(k, a.fixed.value);
    }
    var r := if a.fixed.Some? then TakeRaw(k, a.fixed.value) else Written(Ok, k);
    if a.target.Some? && r.status == Ok {
      NameFits(r.pkt, a.target.value.ls, a.target.value.skip);
    }
  }

  /**
    The worst-case test is all that matters: once it passes every store of the record succeeds,
    the inner question included, with one exception. Empty record data at the very end of the
    buffer is refused, because even an empty store needs an offset inside the buffer.
   */
  lemma AnswerSpace(k: Pkt, a: Record)
    requires WellSized(k) && RecordOk(a)
    ensures AddAnswer(k, a).status == Ok <==>
            && k.writeOffset + AnswerLen(a) <= |k.bytes|
            && !(a.fixed == Some([]) && AddQuestion(k, a.rr).pkt.writeOffset + 6 == |k.bytes|)
    ensures AddAnswer(k, a).status != Ok ==> AddAnswer(k, a).status == ErrMem
    ensures k.writeOffset + AnswerLen(a) <= |k.bytes| ==> AddQuestion(k, a.rr).status == Ok
  {
    hide WriteData, OpenRecord, AddQuestion, Encode;
    if k.writeOffset + AnswerLen(a) <= |k.bytes| {
      OpenRecordFits(k, a);
      DataFits(Skip(OpenRecord(k, a).pkt, 2), a);
    }
  }

  lemma QuestionEnd(k: Pkt, q: Rr)
    requires WellSized(k) && RrOk(q) && AddQuestion(k, q).status == Ok
    ensures AddQuestion(k, q).pkt.writeOffset <= k.writeOffset + |Encode(q.name)| + 4
  {
    hide Encode, Run;
    QuestionFits(k, q);
  }

  /** Where a record ends at the latest. */
  lemma AnswerEnd(k: Pkt, a: Record)
    requires WellSized(k) && RecordOk(a) && AddAnswer(k, a).status == Ok
    ensures AddAnswer(k, a).pkt.writeOffset <= k.writeOffset + |Encode(a.rr.name)| + 10 + AnswerLen(a)
  {
    hide Encode, Run, WriteData, OpenRecord, AddQuestion;
    AnswerSpace(k, a);
    OpenRecordFits(k, a);
    assert AddQuestion(k, a.rr).pkt.writeOffset <= k.writeOffset + |Encode(a.rr.name)| + 4 by {
      QuestionEnd(k, a.rr);
    }
    DataFits(Skip(OpenRecord(k, a).pkt, 2), a);
  }
}
