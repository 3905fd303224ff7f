/**
  Reading questions and records (`mdns_read_question`, `mdns_read_answer`), and the self-parse:
  a finished packet reads back as what was put into it.
 */
module SelfParse {
  import opened Bytes
  import opened DomainNames
  import opened NameReader
  import opened NameWriter
  import opened NameRoundTrip
  import opened NameRuns
  import opened Records
  import opened RecordRuns

  // ----- Readers

  /** `pbuf_copy_partial` of a whole field. */
  function CopyAt(p: seq<byte>, off: nat, len: nat): (r: Option<seq<byte>>)
    ensures r.Some? ==> |r.value| == len
  {
    if off + len <= |p| then Some(p[off..off + len]) else None
  }

  /** What `mdns_read_rr_info` fills in, and the offset behind it. */
  datatype Info = Info(domain: seq<byte>, rtype: nat, klass: nat, next: nat)

  function ReadRrInfo(p: seq<byte>, off: nat): (r: Option<Info>)
    requires off < U16_SIZE
    ensures r.Some? ==> r.value.klass < U16_SIZE && r.value.next <= |p|
  {
    var name := ReadName(p, off);
    var t := CopyAt(p, name.end, 2);
    var c := CopyAt(p, name.end + 2, 2);
    if name.end == READNAME_ERROR || t.None? || c.None? then None
    else Some(Info(name.name, FromBe16(t.value), FromBe16(c.value), name.end + 4))
  }

  /** A question as read: the class without its top bit, and that bit. */
  datatype Question = Question(domain: seq<byte>, rtype: nat, klass: nat, top: bool, next: nat)

  function ReadQuestionAt(p: seq<byte>, off: nat): (r: Option<Question>)
    requires off < U16_SIZE
    ensures r.Some? ==> r.value.next <= |p|
  {
    var i := ReadRrInfo(p, off);
    if |p| < off || i.None? then None
    else Some(Question(i.value.domain, i.value.rtype, i.value.klass % TOP_BIT, i.value.klass >= TOP_BIT, i.value.next))
  }

  /** A record as read: the data stays in the packet, only its place is noted. */
  datatype Answer = Answer(domain: seq<byte>, rtype: nat, klass: nat, top: bool, ttl: nat,
                           rdLength: nat, rdOffset: nat, next: nat)

  function ReadAnswerAt(p: seq<byte>, off: nat): (r: Option<Answer>)
    requires off < U16_SIZE
    ensures r.Some? ==> r.value.next < U16_SIZE && r.value.rdOffset <= |p| && r.value.rdLength < U16_SIZE
  {
    var i := ReadRrInfo(p, off);
    if |p| < off || i.None? then None
    else
      var n := i.value.next;
      var ttl := CopyAt(p, n, 4);
      var len := CopyAt(p, n + 4, 2);
      if ttl.None? || len.None? then None
      else
        var rdlen := FromBe16(len.value);
        Some(Answer(i.value.domain, i.value.rtype, i.value.klass % TOP_BIT, i.value.klass >= TOP_BIT,
                    FromBe32(ttl.value), rdlen, n + 6, U16(n + 6 + rdlen)))
  }

  /** A question is there if and only if its name can be read and four bytes follow, which lie in network order. */
  lemma QuestionFields(p: seq<byte>, off: nat)
    requires off < U16_SIZE
    ensures var r, name := ReadQuestionAt(p, off), ReadName(p, off);
            var n := name.end;
            && (r.Some? <==> off <= |p| && n != READNAME_ERROR && n + 4 <= |p|)
            && (r.Some? ==>
                  && r.value.domain == name.name && r.value.next == n + 4
                  && r.value.rtype == 256 * p[n] as int + p[n + 1] as int
                  && (r.value.top <==> p[n + 2] >= 128)
                  && r.value.klass == 256 * (p[n + 2] as int % 128) + p[n + 3] as int)
  {
    hide ReadName;
  }

  /** The same for a record, with six more bytes in front of its data. */
  lemma AnswerFields(p: seq<byte>, off: nat)
    requires off < U16_SIZE
    ensures var r, name := ReadAnswerAt(p, off), ReadName(p, off);
            var n := name.end;
            && (r.Some? <==> off <= |p| && n != READNAME_ERROR && n + 10 <= |p|)
            && (r.Some? ==>
                  && r.value.domain == name.name && r.value.rdOffset == n + 10
                  && r.value.rtype == 256 * p[n] as int + p[n + 1] as int
                  && (r.value.top <==> p[n + 2] >= 128)
                  && r.value.klass == 256 * (p[n + 2] as int % 128) + p[n + 3] as int
                  && r.value.ttl == 0x100_0000 * p[n + 4] as int + 0x1_0000 * p[n + 5] as int
                                    + 256 * p[n + 6] as int + p[n + 7] as int
                  && r.value.rdLength == 256 * p[n + 8] as int + p[n + 9] as int
                  && r.value.next == (r.value.rdOffset + r.value.rdLength) % 0x1_0000)
  {
    hide ReadName;
  }

  /** The items of a section, and the offset behind it. */
  datatype Section<T> = Section(items: seq<T>, next: nat)

  function ReadQuestions(f: seq<byte>, off: nat, n: nat): (r: Option<Section<Question>>)
    requires |f| <= UDP_PAYLOAD_MAX && off < U16_SIZE
    ensures r.Some? ==> r.value.next < U16_SIZE
    decreases n
  {
    if n == 0 then Some(Section([], off))
    else
      var q := ReadQuestionAt(f, off);
      if q.None? then None
      else
        var rest := ReadQuestions(f, q.value.next, n - 1);
        if rest.None? then None else Some(Section([q.value] + rest.value.items, rest.value.next))
  }

  function ReadAnswers(f: seq<byte>, off: nat, n: nat): (r: Option<Section<Answer>>)
    requires |f| <= UDP_PAYLOAD_MAX && off < U16_SIZE
    ensures r.Some? ==> r.value.next < U16_SIZE
    decreases n
  {
    if n == 0 then Some(Section([], off))
    else
      var a := ReadAnswerAt(f, off);
      if a.None? then None
      else
        var rest := ReadAnswers(f, a.value.next, n - 1);
        if rest.None? then None else Some(Section([a.value] + rest.value.items, rest.value.next))
  }

  // ----- One question or record

  /** The question read at `off` is the one intended, and `next` follows it. */
  ghost predicate QuestionReads(f: seq<byte>, off: nat, rr: Rr, next: nat)
    requires off < U16_SIZE
  {
    ReadQuestionAt(f, off) == Some(Question(Encode(rr.name), rr.rtype, rr.klass, rr.top, next))
  }

  lemma CopyHeld(f: seq<byte>, off: nat, data: seq<byte>)
    requires Holds(f, off, data)
    ensures CopyAt(f, off, |data|) == Some(data)
  {
  }

  /** A field is found where it was appended. */
  lemma RawHeld(k: Pkt, data: seq<byte>, f: seq<byte>)
    requires WellSized(k) && TakeRaw(k, data).status == Ok && WellSized(TakeRaw(k, data).pkt)
    requires Carries(f, Done(TakeRaw(k, data).pkt))
    ensures Holds(f, k.writeOffset, data) && TakeRaw(k, data).pkt.writeOffset == k.writeOffset + |data|
  {
    var q := Done(TakeRaw(k, data).pkt);
    assert q == Done(k) + data;
    var f' := WithHeader(q, f);
    assert f'[k.writeOffset..k.writeOffset + |data|] == q[k.writeOffset..];
    SameBehindHeader(f', f, k.writeOffset, |data|);
  }

  /** The packets on the way through a question. */
  lemma QuestionSteps(k: Pkt, rr: Rr) returns (k1: Pkt, k2: Pkt)
    requires WellSized(k) && RrOk(rr) && AddQuestion(k, rr).status == Ok
    ensures var t, c := Be16(rr.rtype), Be16(ClassField(rr));
            && WriteDomain(k, Encode(rr.name), false) == Written(Ok, k1) && WellSized(k1)
            && TakeRaw(k1, t) == Written(Ok, k2) && WellSized(k2)
            && TakeRaw(k2, c) == AddQuestion(k, rr) && WellSized(AddQuestion(k, rr).pkt)
            && |AddQuestion(k, rr).pkt.bytes| == |k.bytes|
            && Done(k) <= Done(k1) <= Done(k2) <= Done(AddQuestion(k, rr).pkt)
  {
    hide Encode, WriteDomain, TakeRaw;
    var t, c := Be16(rr.rtype), Be16(ClassField(rr));
    var n := Name(rr.name, false);
    RunOne(k, n, [Raw(t), Raw(c)]);
    assert QuestionOps(rr) == [n] + [Raw(t), Raw(c)];
    k1 := WriteDomain(k, Encode(rr.name), false).pkt;
    ApplyAppends(k, n);
    RunOne(k1, Raw(t), [Raw(c)]);
    k2 := TakeRaw(k1, t).pkt;
    ApplyAppends(k1, Raw(t));
    RunOne(k2, Raw(c), []);
    ApplyAppends(k2, Raw(c));
  }

  /**
    A question reads back, from any packet that goes on behind it, if and only if its name was
    written safely.
   */
  lemma QuestionReadsBack(k: Pkt, rr: Rr, f: seq<byte>)
    requires Inv(k) && RrOk(rr) && AddQuestion(k, rr).status == Ok
    requires var k' := AddQuestion(k, rr).pkt; k'.writeOffset <= |k'.bytes| && Carries(f, Done(k'))
    ensures QuestionReads(f, k.writeOffset, rr, AddQuestion(k, rr).pkt.writeOffset) <==> Safe(k, rr.name, false)
  {
    hide Encode, WriteDomain, TakeRaw, Safe, ReadName, AddQuestion, Run;
    hide Carries;
    var k1, k2 := QuestionSteps(k, rr);
    var t, c := Be16(rr.rtype), Be16(ClassField(rr));
    CarriesPrefix(f, Done(AddQuestion(k, rr).pkt), Done(k1));
    CarriesPrefix(f, Done(AddQuestion(k, rr).pkt), Done(k2));
    CarriesBound(f, Done(k1));
    WriteThenRead(k, rr.name, false, f);
    RawHeld(k1, t, f);
    RawHeld(k2, c, f);
    CopyHeld(f, k1.writeOffset, t);
    CopyHeld(f, k2.writeOffset, c);
    Be16RoundTrip(rr.rtype);
    Be16RoundTrip(ClassField(rr));
  }

  lemma {:induction false} ReadBackConcat(k: Pkt, xs: seq<Op>, ys: seq<Op>, f: seq<byte>)
    requires WellSized(k) && Writable(xs) && Writable(ys) && Writable(xs + ys) && Run(k, xs + ys).status == Ok
    ensures Run(k, xs).status == Ok && WellSized(Run(k, xs).pkt)
    ensures Run(Run(k, xs).pkt, ys) == Run(k, xs + ys)
    ensures AllReadBack(k, xs + ys, f) <==> AllReadBack(k, xs, f) && AllReadBack(Run(k, xs).pkt, ys, f)
    decreases |xs|
  {
    hide Apply, Encode, ReadName;
    RunConcat(k, xs, ys);
    RunAppends(k, xs);
    if xs == [] {
      assert xs + ys == ys;
    } else {
      assert (xs + ys)[1..] == xs[1..] + ys;
      ApplyAppends(k, xs[0]);
      ReadBackConcat(Apply(k, xs[0]).pkt, xs[1..], ys, f);
    }
  }

  /** A run of a single store. */
  lemma ReadBackOne(k: Pkt, op: Op, f: seq<byte>)
    requires WellSized(k) && (op.Name? ==> |Encode(op.ls)| < DOMAIN_MAXLEN) && Run(k, [op]).status == Ok
    ensures Run(k, [op]) == Apply(k, op)
    ensures AllReadBack(k, [op], f) <==>
            (op.Name? ==> ReadName(f, k.writeOffset) == Read(Apply(k, op).pkt.writeOffset, Encode(op.ls)))
  {
    hide Apply, Encode, ReadName;
    RunOne(k, op, []);
    assert [op] + [] == [op];
  }

  /**
    The data of a record reads back: the fixed bytes, then the name, up to `next`; a name not to be
    compressed is there in full.
   */
  ghost predicate DataReads(f: seq<byte>, off: nat, a: Record, next: nat)
    requires off < U16_SIZE
  {
    var n := if a.fixed.Some? then |a.fixed.value| else 0;
    && (a.fixed.Some? ==> Holds(f, off, a.fixed.value))
    && (a.target.None? ==> next == off + n)
    && (a.target.Some? ==> off + n < U16_SIZE && ReadName(f, off + n) == Read(next, Encode(a.target.value.ls)))
    && (a.target.Some? && a.target.value.skip ==> Holds(f, off + n, Encode(a.target.value.ls)))
  }

  /** A name that is not to be compressed is written out. */
  lemma PlainNameHeld(k: Pkt, ls: seq<Label>, f: seq<byte>)
    requires WellSized(k) && |Encode(ls)| < DOMAIN_MAXLEN && WriteDomain(k, Encode(ls), true).status == Ok
    requires var k' := WriteDomain(k, Encode(ls), true).pkt; k'.writeOffset <= |k'.bytes| && Carries(f, Done(k'))
    ensures Holds(f, k.writeOffset, Encode(ls))
  {
    hide Encode, Store;
    var d := Encode(ls);
    assert TakeRaw(k, d).pkt.bytes == WriteDomain(k, d, true).pkt.bytes;
    RawHeld(k, d, f);
  }

  lemma DataReadsBack(k: Pkt, a: Record, f: seq<byte>)
    requires WellSized(k) && RecordOk(a) && Run(k, DataOps(a)).status == Ok
    requires var k' := Run(k, DataOps(a)).pkt; k'.writeOffset <= |k'.bytes| && Carries(f, Done(k'))
    ensures AllReadBack(k, DataOps(a), f) <==> DataReads(f, k.writeOffset, a, Run(k, DataOps(a)).pkt.writeOffset)
  {
    hide Encode, WriteDomain, TakeRaw, ReadName, Carries;
    var x: seq<Op> := if a.fixed.Some? then [Raw(a.fixed.value)] else [];
    var t: seq<Op> := if a.target.Some? then [Name(a.target.value.ls, a.target.value.skip)] else [];
    ReadBackConcat(k, x, t, f);
    RunAppends(k, x);
    RunAppends(Run(k, x).pkt, t);
    CarriesPrefix(f, Done(Run(k, DataOps(a)).pkt), Done(Run(k, x).pkt));
    if a.fixed.Some? {
      ReadBackOne(k, Raw(a.fixed.value), f);
      RawHeld(k, a.fixed.value, f);
    }
    if a.target.Some? {
      ReadBackOne(Run(k, x).pkt, Name(a.target.value.ls, a.target.value.skip), f);
      if a.target.value.skip {
        PlainNameHeld(Run(k, x).pkt, a.target.value.ls, f);
      }
    }
  }

  /** The record read at `off` is the one intended, and `next` follows it. */
  ghost predicate RecordReads(f: seq<byte>, off: nat, a: Record, next: nat)
    requires off < U16_SIZE
  {
    var r := ReadAnswerAt(f, off);
    && r.Some?
    && r.value.domain == Encode(a.rr.name) && r.value.rtype == a.rr.rtype && r.value.klass == a.rr.klass
    && r.value.top == a.rr.top && r.value.ttl == a.ttl
    && r.value.next == next && r.value.rdOffset + r.value.rdLength == next
    && r.value.rdOffset < U16_SIZE && DataReads(f, r.value.rdOffset, a, next)
  }

  /** Both names of a record are written safely. */
  ghost predicate SafeAnswer(k: Pkt, a: Record)
    requires Inv(k) && RecordOk(a) && AddAnswer(k, a).status == Ok
  {
    Safe(k, a.rr.name, false) && (AnswerIsRun(k, a); AllSafe(k, AnswerOps(a, DataLen(k, a))))
  }

  lemma AnswerAppends(k: Pkt, a: Record)
    requires WellSized(k) && RecordOk(a) && AddAnswer(k, a).status == Ok
    ensures var k', q := AddAnswer(k, a).pkt, AddQuestion(k, a.rr);
            && q.status == Ok && WellSized(q.pkt) && WellSized(k') && |k'.bytes| == |k.bytes|
            && Done(q.pkt) <= Done(k') && Done(k) <= Done(k')
            && k'.writeOffset == q.pkt.writeOffset + 6 + DataLen(k, a)
  {
    hide Encode, WriteData, Run, Splice;
    AnswerSpace(k, a);
    OpenRecordFits(k, a);
    RunAppends(k, QuestionOps(a.rr));
    var q, head := AddQuestion(k, a.rr).pkt, OpenRecord(k, a).pkt;
    ApplyAppends(q, Raw(Be32(a.ttl)));
    var k3 := Skip(head, 2);
    DataFits(k3, a);
    DataIsRun(k3, a);
    RunAppends(k3, DataOps(a));
    var k5 := WriteData(k3, a).pkt;
    SpliceKeeps(k5.bytes, head.writeOffset, Be16(DataLen(k, a)));
    assert AddAnswer(k, a).pkt == Patch(k5, head.writeOffset, Be16(DataLen(k, a)));
    assert Done(q) <= Done(head) && Done(head) <= Done(k3) <= Done(k5);
    assert k5.bytes[..head.writeOffset] == Done(head);
  }

  /** An owner name that was not written safely does not read back. */
  lemma UnsafeOwner(k: Pkt, a: Record, f: seq<byte>, next: nat)
    requires Inv(k) && RecordOk(a) && AddAnswer(k, a).status == Ok && !Safe(k, a.rr.name, false)
    requires WellSized(AddAnswer(k, a).pkt) && Carries(f, Done(AddAnswer(k, a).pkt))
    ensures !RecordReads(f, k.writeOffset, a, next)
  {
    hide Encode, WriteDomain, AddAnswer, Safe, ReadName, DataReads, AddQuestion, TakeRaw, Carries;
    AnswerAppends(k, a);
    var k1, k2 := QuestionSteps(k, a.rr);
    CarriesPrefix(f, Done(AddAnswer(k, a).pkt), Done(AddQuestion(k, a.rr).pkt));
    CarriesPrefix(f, Done(AddQuestion(k, a.rr).pkt), Done(k1));
    WriteThenRead(k, a.rr.name, false, f);
  }

  /** The fields in front of the data, of a record with a safely written owner name. */
  lemma HeadReads(k: Pkt, a: Record, f: seq<byte>) returns (k3: Pkt)
    requires Inv(k) && RecordOk(a) && AddAnswer(k, a).status == Ok && Safe(k, a.rr.name, false)
    requires WellSized(AddAnswer(k, a).pkt) && Carries(f, Done(AddAnswer(k, a).pkt))
    ensures var next := AddAnswer(k, a).pkt.writeOffset;
            && WellSized(k3) && |k3.bytes| == |k.bytes| && k3.writeOffset + DataLen(k, a) == next
            && Run(k3, DataOps(a)) == AddAnswer(k, a)
            && Run(k, AnswerOps(a, DataLen(k, a))).status == Ok
            && (AllReadBack(k, AnswerOps(a, DataLen(k, a)), f) <==> AllReadBack(k3, DataOps(a), f))
            && ReadAnswerAt(f, k.writeOffset) ==
                 Some(Answer(Encode(a.rr.name), a.rr.rtype, a.rr.klass, a.rr.top, a.ttl,
                             DataLen(k, a), k3.writeOffset, next))
  {
    hide Encode, WriteDomain, AddAnswer, Safe, ReadName, TakeRaw, DataOps, WriteData, OpenRecord, Run;
    hide AllReadBack, DataLen, ReadAnswerAt, ReadQuestionAt, CopyAt, Carries;
    AnswerAppends(k, a);
    AnswerIsRun(k, a);
    var k1 := AddQuestion(k, a.rr).pkt;
    CarriesPrefix(f, Done(AddAnswer(k, a).pkt), Done(k1));
    var t, l := Raw(Be32(a.ttl)), Raw(Be16(DataLen(k, a)));
    QuestionReadsBack(k, a.rr, f);
    ReadBackConcat(k, QuestionOps(a.rr), [t, l] + DataOps(a), f);
    ReadBackConcat(k1, [t, l], DataOps(a), f);
    k3 := Run(k1, [t, l]).pkt;
    RunAppends(k1, [t, l]);
    RunAppends(k3, DataOps(a));
    CarriesPrefix(f, Done(AddAnswer(k, a).pkt), Done(k3));
    FieldsHeld(k1, a.ttl, DataLen(k, a), f);
    QuestionNameReads(k, a.rr, f);
    AnswerFromFields(f, k.writeOffset, a.rr, k1.writeOffset, a.ttl, DataLen(k, a));
  }

  /** A question, a time to live and a data length, one after the other, make the head of a record. */
  lemma AnswerFromFields(f: seq<byte>, off: nat, rr: Rr, n: nat, ttl: nat, len: nat)
    requires off < U16_SIZE && QuestionReads(f, off, rr, n)
    requires CopyAt(f, n, 4).Some? && FromBe32(CopyAt(f, n, 4).value) == ttl
    requires CopyAt(f, n + 4, 2).Some? && FromBe16(CopyAt(f, n + 4, 2).value) == len
    ensures ReadAnswerAt(f, off) ==
            Some(Answer(Encode(rr.name), rr.rtype, rr.klass, rr.top, ttl, len, n + 6, U16(n + 6 + len)))
  {
    hide Encode, ReadName;
  }

  /** The time to live and the data length are found behind the class. */
  lemma FieldsHeld(k: Pkt, ttl: nat, len: nat, f: seq<byte>)
    requires WellSized(k) && ttl < U32_SIZE && len < U16_SIZE
    requires var r := Run(k, [Raw(Be32(ttl)), Raw(Be16(len))]);
             r.status == Ok && WellSized(r.pkt) && Carries(f, Done(r.pkt))
    ensures var r, n := Run(k, [Raw(Be32(ttl)), Raw(Be16(len))]), k.writeOffset;
            && r.pkt.writeOffset == n + 6
            && CopyAt(f, n, 4).Some? && FromBe32(CopyAt(f, n, 4).value) == ttl
            && CopyAt(f, n + 4, 2).Some? && FromBe16(CopyAt(f, n + 4, 2).value) == len
            && forall g :: AllReadBack(k, [Raw(Be32(ttl)), Raw(Be16(len))], g)
  {
    hide TakeRaw, Carries;
    var t, l := Raw(Be32(ttl)), Raw(Be16(len));
    assert [t, l] == [t] + [l];
    RunOne(k, t, [l]);
    ApplyAppends(k, t);
    var k' := TakeRaw(k, Be32(ttl)).pkt;
    assert [l] == [l] + [];
    RunOne(k', l, []);
    ApplyAppends(k', l);
    CarriesPrefix(f, Done(TakeRaw(k', Be16(len)).pkt), Done(k'));
    RawHeld(k, Be32(ttl), f);
    RawHeld(k', Be16(len), f);
    CopyHeld(f, k.writeOffset, Be32(ttl));
    CopyHeld(f, k'.writeOffset, Be16(len));
    Be32RoundTrip(ttl);
    Be16RoundTrip(len);
    forall g ensures AllReadBack(k, [t, l], g) {
      ReadBackConcat(k, [t], [l], g);
      ReadBackOne(k, t, g);
      ReadBackOne(k', l, g);
    }
  }

  /** Within a question, the run's name is the only thing to read back. */
  lemma QuestionNameReads(k: Pkt, rr: Rr, f: seq<byte>)
    requires WellSized(k) && RrOk(rr) && AddQuestion(k, rr).status == Ok
    requires QuestionReads(f, k.writeOffset, rr, AddQuestion(k, rr).pkt.writeOffset)
    ensures AllReadBack(k, QuestionOps(rr), f)
  {
    hide Encode, ReadName, WriteDomain;
    var t, c, n := Raw(Be16(rr.rtype)), Raw(Be16(ClassField(rr))), Name(rr.name, false);
    assert QuestionOps(rr) == [n] + ([t] + [c]);
    var k1, k2 := QuestionSteps(k, rr);
    ReadBackConcat(k, [n], [t] + [c], f);
    ReadBackOne(k, n, f);
    ReadBackConcat(k1, [t], [c], f);
    ReadBackOne(k1, t, f);
    ReadBackOne(k2, c, f);
  }

  /**
    A record reads back whole, from any packet that goes on behind it, if and only if both its
    names were written safely.
   */
  lemma AnswerReadsBack(k: Pkt, a: Record, f: seq<byte>)
    requires Inv(k) && RecordOk(a) && AddAnswer(k, a).status == Ok
    requires var k' := AddAnswer(k, a).pkt; k'.writeOffset <= |k'.bytes| && Carries(f, Done(k'))
    ensures RecordReads(f, k.writeOffset, a, AddAnswer(k, a).pkt.writeOffset) <==> SafeAnswer(k, a)
    ensures forall next: nat :: RecordReads(f, k.writeOffset, a, next) ==> next == AddAnswer(k, a).pkt.writeOffset
  {
    hide Encode, AddAnswer, Safe, ReadAnswerAt, DataReads, DataOps, AllSafe, AllReadBack;
    AnswerAppends(k, a);
    if Safe(k, a.rr.name, false) {
      var k3 := HeadReads(k, a, f);
      AnswerIsRun(k, a);
      RunReadsBack(k, AnswerOps(a, DataLen(k, a)), f);
      DataReadsBack(k3, a, f);
    } else {
      forall next: nat ensures !RecordReads(f, k.writeOffset, a, next) {
        UnsafeOwner(k, a, f, next);
      }
    }
  }
}
