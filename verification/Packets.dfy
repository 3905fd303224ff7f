/**
  Whole packets: questions followed by records, built in order and read back with the section
  counts.
 */
module Packets {
  import opened Bytes
  import opened DomainNames
  import opened NameReader
  import opened NameWriter
  import opened NameRoundTrip
  import opened NameRuns
  import opened Records
  import opened RecordRuns
  import opened SelfParse

  function AddQuestions(k: Pkt, qs: seq<Rr>): (r: Written)
    requires WellSized(k) && forall q :: q in qs ==> RrOk(q)
    decreases |qs|
  {
    if qs == [] then Written(Ok, k)
    else
      var r := AddQuestion(k, qs[0]);
      if r.status != Ok then r
      else
        assert WellSized(r.pkt) by { RunAppends(k, QuestionOps(qs[0])); }
        AddQuestions(r.pkt, qs[1..])
  }

  function AddAnswers(k: Pkt, rs: seq<Record>): (r: Written)
    requires WellSized(k) && forall a :: a in rs ==> RecordOk(a)
    decreases |rs|
  {
    if rs == [] then Written(Ok, k)
    else
      var r := AddAnswer(k, rs[0]);
      if r.status != Ok then r
      else
        assert WellSized(r.pkt) by { AnswerAppends(k, rs[0]); }
        AddAnswers(r.pkt, rs[1..])
  }

  lemma QuestionAppends(k: Pkt, q: Rr)
    requires WellSized(k) && RrOk(q) && AddQuestion(k, q).status == Ok
    ensures var k' := AddQuestion(k, q).pkt; WellSized(k') && |k'.bytes| == |k.bytes| && Done(k) <= Done(k')
  {
    hide Run;
    RunAppends(k, QuestionOps(q));
  }

  lemma {:induction false} QuestionsAppend(k: Pkt, qs: seq<Rr>)
    requires WellSized(k) && (forall q :: q in qs ==> RrOk(q)) && AddQuestions(k, qs).status == Ok
    ensures var k' := AddQuestions(k, qs).pkt; WellSized(k') && |k'.bytes| == |k.bytes| && Done(k) <= Done(k')
    decreases |qs|
  {
    hide AddQuestion;
    if qs != [] {
      QuestionAppends(k, qs[0]);
      QuestionsAppend(AddQuestion(k, qs[0]).pkt, qs[1..]);
    }
  }

  lemma {:induction false} AnswersAppend(k: Pkt, rs: seq<Record>)
    requires WellSized(k) && (forall a :: a in rs ==> RecordOk(a)) && AddAnswers(k, rs).status == Ok
    ensures var k' := AddAnswers(k, rs).pkt; WellSized(k') && |k'.bytes| == |k.bytes| && Done(k) <= Done(k')
    decreases |rs|
  {
    hide AddAnswer;
    if rs != [] {
      AnswerAppends(k, rs[0]);
      AnswersAppend(AddAnswer(k, rs[0]).pkt, rs[1..]);
    }
  }

  // ----- Reading a section

  /** Reading `|qs|` questions from `off` on gives `qs` in order and ends at `next`. */
  ghost predicate QuestionsRead(f: seq<byte>, off: nat, qs: seq<Rr>, next: nat)
    decreases |qs|
  {
    if qs == [] then next == off
    else
      && off < U16_SIZE
      && var r := ReadQuestionAt(f, off);
      && r.Some? && QuestionReads(f, off, qs[0], r.value.next) && QuestionsRead(f, r.value.next, qs[1..], next)
  }

  /** Reading `|rs|` records from `off` on gives `rs` in order and ends at `next`. */
  ghost predicate RecordsRead(f: seq<byte>, off: nat, rs: seq<Record>, next: nat)
    decreases |rs|
  {
    if rs == [] then next == off
    else
      && off < U16_SIZE
      && var r := ReadAnswerAt(f, off);
      && r.Some? && RecordReads(f, off, rs[0], r.value.next) && RecordsRead(f, r.value.next, rs[1..], next)
  }

  /** Every name of the questions is written safely, each in the packet as it then is. */
  ghost predicate QuestionsSafe(k: Pkt, qs: seq<Rr>)
    requires Inv(k) && (forall q :: q in qs ==> RrOk(q)) && AddQuestions(k, qs).status == Ok
    decreases |qs|
  {
    qs != [] ==>
      && Safe(k, qs[0].name, false)
      && (QuestionKeepsInv(k, qs[0]); QuestionsSafe(AddQuestion(k, qs[0]).pkt, qs[1..]))
  }

  lemma AnswerKeepsInv(k: Pkt, a: Record)
    requires Inv(k) && RecordOk(a) && AddAnswer(k, a).status == Ok && SafeAnswer(k, a)
    ensures Inv(AddAnswer(k, a).pkt)
  {
    hide Encode, AddAnswer, Safe, Run, AllSafe;
    AnswerIsRun(k, a);
    RunKeepsInv(k, AnswerOps(a, DataLen(k, a)));
  }

  lemma {:induction false} RunKeepsInv(k: Pkt, ops: seq<Op>)
    requires Inv(k) && Writable(ops) && Run(k, ops).status == Ok && AllSafe(k, ops)
    ensures Inv(Run(k, ops).pkt)
    decreases |ops|
  {
    hide Encode, WriteDomain, Safe, TakeRaw;
    if ops != [] {
      match ops[0] {
        case Raw(data) => RawKeepsInv(k, data);
        case Name(ls, skip) => SafeWriteKeepsInv(k, ls, skip);
      }
      RunKeepsInv(Apply(k, ops[0]).pkt, ops[1..]);
    }
  }

  ghost predicate AnswersSafe(k: Pkt, rs: seq<Record>)
    requires Inv(k) && (forall a :: a in rs ==> RecordOk(a)) && AddAnswers(k, rs).status == Ok
    decreases |rs|
  {
    rs != [] ==>
      && SafeAnswer(k, rs[0])
      && (AnswerKeepsInv(k, rs[0]); AnswersSafe(AddAnswer(k, rs[0]).pkt, rs[1..]))
  }

  lemma {:induction false} QuestionsReadBack(k: Pkt, qs: seq<Rr>, f: seq<byte>)
    requires Inv(k) && (forall q :: q in qs ==> RrOk(q)) && AddQuestions(k, qs).status == Ok
    requires var k' := AddQuestions(k, qs).pkt; k'.writeOffset <= |k'.bytes| && Carries(f, Done(k'))
    ensures QuestionsRead(f, k.writeOffset, qs, AddQuestions(k, qs).pkt.writeOffset) <==> QuestionsSafe(k, qs)
    decreases |qs|
  {
    hide Encode, AddQuestion, Safe, ReadQuestionAt, Carries;
    if qs != [] {
      var k' := AddQuestion(k, qs[0]).pkt;
      QuestionAppends(k, qs[0]);
      QuestionsAppend(k', qs[1..]);
      CarriesPrefix(f, Done(AddQuestions(k, qs).pkt), Done(k'));
      QuestionReadsBack(k, qs[0], f);
      if Safe(k, qs[0].name, false) {
        QuestionKeepsInv(k, qs[0]);
        QuestionsReadBack(k', qs[1..], f);
      } else {
        UnsafeQuestion(k, qs[0], f);
      }
    }
  }

  lemma UnsafeQuestion(k: Pkt, q: Rr, f: seq<byte>)
    requires Inv(k) && RrOk(q) && AddQuestion(k, q).status == Ok && !Safe(k, q.name, false)
    requires WellSized(AddQuestion(k, q).pkt) && Carries(f, Done(AddQuestion(k, q).pkt))
    ensures var r := ReadQuestionAt(f, k.writeOffset); r.None? || r.value.domain != Encode(q.name)
  {
    hide Encode, WriteDomain, Safe, ReadName, AddQuestion, TakeRaw, Carries;
    var k1, k2 := QuestionSteps(k, q);
    CarriesPrefix(f, Done(AddQuestion(k, q).pkt), Done(k1));
    WriteThenRead(k, q.name, false, f);
  }

  lemma {:induction false} AnswersReadBack(k: Pkt, rs: seq<Record>, f: seq<byte>)
    requires Inv(k) && (forall a :: a in rs ==> RecordOk(a)) && AddAnswers(k, rs).status == Ok
    requires var k' := AddAnswers(k, rs).pkt; k'.writeOffset <= |k'.bytes| && Carries(f, Done(k'))
    ensures RecordsRead(f, k.writeOffset, rs, AddAnswers(k, rs).pkt.writeOffset) <==> AnswersSafe(k, rs)
    decreases |rs|
  {
    hide Encode, AddAnswer, SafeAnswer, ReadAnswerAt, Carries;
    if rs != [] {
      var k' := AddAnswer(k, rs[0]).pkt;
      AnswerAppends(k, rs[0]);
      AnswersAppend(k', rs[1..]);
      CarriesPrefix(f, Done(AddAnswers(k, rs).pkt), Done(k'));
      AnswerReadsBack(k, rs[0], f);
      if SafeAnswer(k, rs[0]) {
        AnswerKeepsInv(k, rs[0]);
        AnswersReadBack(k', rs[1..], f);
      }
    }
  }

  // ----- The packet

  /** What is to go into a packet: questions, then records, then additional records. */
  datatype Plan = Plan(questions: seq<Rr>, records: seq<Record>)

  predicate PlanOk(m: Plan) {
    (forall q :: q in m.questions ==> RrOk(q)) && (forall a :: a in m.records ==> RecordOk(a))
  }

  function Build(k: Pkt, m: Plan): (r: Written)
    requires WellSized(k) && PlanOk(m)
  {
    var r := AddQuestions(k, m.questions);
    if r.status != Ok then r
    else
      assert WellSized(r.pkt) by { QuestionsAppend(k, m.questions); }
      AddAnswers(r.pkt, m.records)
  }

  lemma BuildAppends(k: Pkt, m: Plan)
    requires WellSized(k) && PlanOk(m) && Build(k, m).status == Ok
    ensures var k' := Build(k, m).pkt;
            WellSized(k') && |k'.bytes| == |k.bytes| && Done(k) <= Done(k') && Carries(k'.bytes, Done(k'))
  {
    hide AddQuestions, AddAnswers;
    QuestionsAppend(k, m.questions);
    AnswersAppend(AddQuestions(k, m.questions).pkt, m.records);
  }

  /** The questions and then the records of `m` are read, one after the other, from `off` to `end`. */
  ghost predicate PlanReads(f: seq<byte>, off: nat, m: Plan, end: nat) {
    exists mid: nat :: QuestionsRead(f, off, m.questions, mid) && RecordsRead(f, mid, m.records, end)
  }

  /** Every name of the plan is written safely. */
  ghost predicate PlanSafe(k: Pkt, m: Plan)
    requires Inv(k) && PlanOk(m) && Build(k, m).status == Ok
  {
    && QuestionsSafe(k, m.questions)
    && (QuestionsKeepInv(k, m.questions); AnswersSafe(AddQuestions(k, m.questions).pkt, m.records))
  }

  lemma {:induction false} QuestionsKeepInv(k: Pkt, qs: seq<Rr>)
    requires Inv(k) && (forall q :: q in qs ==> RrOk(q)) && AddQuestions(k, qs).status == Ok && QuestionsSafe(k, qs)
    ensures Inv(AddQuestions(k, qs).pkt)
    decreases |qs|
  {
    hide AddQuestion, Safe;
    if qs != [] {
      QuestionKeepsInv(k, qs[0]);
      QuestionsKeepInv(AddQuestion(k, qs[0]).pkt, qs[1..]);
    }
  }

  /** A question section that reads at all ends where it was written to end. */
  lemma {:induction false} QuestionsReadEnd(k: Pkt, qs: seq<Rr>, f: seq<byte>, next: nat)
    requires Inv(k) && (forall q :: q in qs ==> RrOk(q)) && AddQuestions(k, qs).status == Ok
    requires var k' := AddQuestions(k, qs).pkt; k'.writeOffset <= |k'.bytes| && Carries(f, Done(k'))
    requires QuestionsRead(f, k.writeOffset, qs, next)
    ensures next == AddQuestions(k, qs).pkt.writeOffset
    decreases |qs|
  {
    hide Encode, AddQuestion, Safe, ReadQuestionAt, Carries;
    if qs != [] {
      var k' := AddQuestion(k, qs[0]).pkt;
      QuestionAppends(k, qs[0]);
      QuestionsAppend(k', qs[1..]);
      CarriesPrefix(f, Done(AddQuestions(k, qs).pkt), Done(k'));
      QuestionReadsBack(k, qs[0], f);
      if !Safe(k, qs[0].name, false) {
        UnsafeQuestion(k, qs[0], f);
      }
      QuestionKeepsInv(k, qs[0]);
      QuestionsReadEnd(k', qs[1..], f, next);
    }
  }

  /** The same for a record section. */
  lemma {:induction false} RecordsReadEnd(k: Pkt, rs: seq<Record>, f: seq<byte>, next: nat)
    requires Inv(k) && (forall a :: a in rs ==> RecordOk(a)) && AddAnswers(k, rs).status == Ok
    requires var k' := AddAnswers(k, rs).pkt; k'.writeOffset <= |k'.bytes| && Carries(f, Done(k'))
    requires RecordsRead(f, k.writeOffset, rs, next)
    ensures next == AddAnswers(k, rs).pkt.writeOffset
    decreases |rs|
  {
    hide Encode, AddAnswer, SafeAnswer, ReadAnswerAt, Carries, RecordReads;
    if rs != [] {
      var k' := AddAnswer(k, rs[0]).pkt;
      AnswerAppends(k, rs[0]);
      AnswersAppend(k', rs[1..]);
      CarriesPrefix(f, Done(AddAnswers(k, rs).pkt), Done(k'));
      AnswerReadsBack(k, rs[0], f);
      AnswerKeepsInv(k, rs[0]);
      RecordsReadEnd(k', rs[1..], f, next);
    }
  }

  /**
    The self-parse of a packet: reading as many questions and records as were counted gives back
    exactly the questions and records put in, in order, if and only if every name was written
    safely.
   */
  lemma PacketReadsBack(k: Pkt, m: Plan, f: seq<byte>)
    requires Inv(k) && PlanOk(m) && Build(k, m).status == Ok
    requires var k' := Build(k, m).pkt; k'.writeOffset <= |k'.bytes| && Carries(f, Done(k'))
    ensures PlanReads(f, k.writeOffset, m, Build(k, m).pkt.writeOffset) <==> PlanSafe(k, m)
    ensures forall end: nat :: PlanReads(f, k.writeOffset, m, end) ==> end == Build(k, m).pkt.writeOffset
  {
    hide AddQuestions, AddAnswers, QuestionsRead, RecordsRead, QuestionsSafe, AnswersSafe, Carries;
    var k1 := AddQuestions(k, m.questions).pkt;
    QuestionsAppend(k, m.questions);
    AnswersAppend(k1, m.records);
    CarriesPrefix(f, Done(Build(k, m).pkt), Done(k1));
    forall mid: nat | QuestionsRead(f, k.writeOffset, m.questions, mid) ensures mid == k1.writeOffset {
      QuestionsReadEnd(k, m.questions, f, mid);
    }
    QuestionsReadBack(k, m.questions, f);
    if QuestionsSafe(k, m.questions) {
      QuestionsKeepInv(k, m.questions);
      AnswersReadBack(k1, m.records, f);
      forall end: nat | RecordsRead(f, k1.writeOffset, m.records, end) ensures end == Build(k, m).pkt.writeOffset {
        RecordsReadEnd(k1, m.records, f, end);
      }
    }
  }
}
