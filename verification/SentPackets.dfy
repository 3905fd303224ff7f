/**
  Messages as they are sent and read: the records are written one by one and counted, the counts
  go into the header, and the reader takes its counts from there.
 */
module SentPackets {
  import opened Bytes
  import opened DomainNames
  import opened NameReader
  import opened NameWriter
  import opened NameRoundTrip
  import opened NameRuns
  import opened Records
  import opened SelfParse
  import opened Packets
  import opened Families
  import opened Outpackets

  // ----- Writing and counting

  /** The packet under construction with its number of questions. */
  datatype Made = Made(status: Status, pkt: Pkt, questions: nat)

  /** A record of a message; in a legacy reply without a question yet, its question goes first. */
  function AddRecord(k: Pkt, questions: nat, legacy: bool, a: Record): (r: Made)
    requires WellSized(k) && RecordOk(a)
  {
    if legacy && questions < 1 then
      var q := AddQuestion(k, a.rr.(top := false));
      if q.status != Ok then Made(q.status, q.pkt, questions)
      else
        assert WellSized(q.pkt) by { QuestionAppends(k, a.rr.(top := false)); }
        var r := AddAnswer(q.pkt, a);
        Made(r.status, r.pkt, 1)
    else
      var r := AddAnswer(k, a);
      Made(r.status, r.pkt, questions)
  }

  lemma RecordSized(k: Pkt, questions: nat, legacy: bool, a: Record)
    requires WellSized(k) && RecordOk(a) && AddRecord(k, questions, legacy, a).status == Ok
    ensures WellSized(AddRecord(k, questions, legacy, a).pkt)
  {
    hide AddQuestion, AddAnswer;
    var q := a.rr.(top := false);
    if legacy && questions < 1 {
      QuestionAppends(k, q);
      AnswerAppends(AddQuestion(k, q).pkt, a);
    } else {
      AnswerAppends(k, a);
    }
  }

  function AddRecords(k: Pkt, questions: nat, legacy: bool, rs: seq<Record>): (r: Made)
    requires WellSized(k) && AllOk(rs)
    decreases |rs|
  {
    if rs == [] then Made(Ok, k, questions)
    else
      var r := AddRecord(k, questions, legacy, rs[0]);
      if r.status != Ok then r
      else
        assert WellSized(r.pkt) by { RecordSized(k, questions, legacy, rs[0]); }
        AddRecords(r.pkt, r.questions, legacy, rs[1..])
  }

  lemma {:induction false} RecordsConcat(k: Pkt, questions: nat, legacy: bool, xs: seq<Record>, ys: seq<Record>)
    requires WellSized(k) && AllOk(xs) && AllOk(ys)
    ensures var r := AddRecords(k, questions, legacy, xs);
            && (r.status == Ok ==> WellSized(r.pkt))
            && AddRecords(k, questions, legacy, xs + ys)
               == if r.status != Ok then r else AddRecords(r.pkt, r.questions, legacy, ys)
    decreases |xs|
  {
    hide AddRecord, RecordOk;
    if xs == [] {
      assert xs + ys == ys;
    } else {
      assert (xs + ys)[1..] == xs[1..] + ys;
      var r := AddRecord(k, questions, legacy, xs[0]);
      if r.status == Ok {
        RecordSized(k, questions, legacy, xs[0]);
        RecordsConcat(r.pkt, r.questions, legacy, xs[1..], ys);
      }
    }
  }

  /** Once there is a question, or without need of one, records are only records. */
  lemma {:induction false} PlainRecords(k: Pkt, questions: nat, legacy: bool, rs: seq<Record>)
    requires WellSized(k) && AllOk(rs)
    requires legacy ==> questions > 0
    ensures var r := AddAnswers(k, rs); AddRecords(k, questions, legacy, rs) == Made(r.status, r.pkt, questions)
    decreases |rs|
  {
    hide AddAnswer, RecordOk;
    if rs != [] && AddAnswer(k, rs[0]).status == Ok {
      AnswerAppends(k, rs[0]);
      PlainRecords(AddAnswer(k, rs[0]).pkt, questions, legacy, rs[1..]);
    }
  }

  /** `mdns_create_outpacket`: the probe questions, the selected records, the additional ones. */
  function Create(k: Pkt, h: Host, m: Msg): (r: Made)
    requires WellSized(k) && MsgOk(h, m)
  {
    var q := AddQuestions(k, ProbeQuestions(h, m));
    if q.status != Ok then Made(q.status, q.pkt, 0)
    else
      QuestionsAppend(k, ProbeQuestions(h, m));
      var s := AddRecords(q.pkt, |ProbeQuestions(h, m)|, m.legacy, Selected(h, m));
      if s.status != Ok then s
      else
        RecordsConcat(q.pkt, |ProbeQuestions(h, m)|, m.legacy, Selected(h, m), []);
        AddRecords(s.pkt, s.questions, m.legacy, Additional(h, m, 0))
  }

  lemma OneQuestion(k: Pkt, q: Rr)
    requires WellSized(k) && RrOk(q)
    ensures AddQuestions(k, []) == Written(Ok, k) && AddQuestions(k, [q]) == AddQuestion(k, q)
  {
    hide AddQuestion;
    var qs := [q];
    assert qs[1..] == [];
    if AddQuestion(k, q).status == Ok {
      QuestionAppends(k, q);
      assert AddQuestions(AddQuestion(k, q).pkt, qs[1..]) == Written(Ok, AddQuestion(k, q).pkt);
    }
  }

  lemma QuestionOfRecord(a: Record)
    requires RecordOk(a)
    ensures RrOk(a.rr.(top := false))
  {
  }

  /** A legacy reply without probe questions: the first record brings its question. */
  lemma LegacyRecords(k: Pkt, rs: seq<Record>)
    requires WellSized(k) && rs != [] && AllOk(rs) && RrOk(rs[0].rr.(top := false))
    ensures var q, r := rs[0].rr.(top := false), AddRecords(k, 0, true, rs);
            Written(r.status, r.pkt) == Build(k, Plan([q], rs)) && (r.status == Ok ==> r.questions == 1)
  {
    hide AddQuestion, AddAnswer, RecordOk, RrOk;
    var q := rs[0].rr.(top := false);
    OneQuestion(k, q);
    if AddQuestion(k, q).status == Ok {
      QuestionAppends(k, q);
      var k1 := AddQuestion(k, q).pkt;
      if AddAnswer(k1, rs[0]).status == Ok {
        AnswerAppends(k1, rs[0]);
        PlainRecords(AddAnswer(k1, rs[0]).pkt, 1, true, rs[1..]);
      }
    }
  }

  /** Writing record by record and asking for a legacy question on the way is writing the plan. */
  lemma CreateIsPlan(k: Pkt, h: Host, m: Msg)
    requires WellSized(k) && MsgOk(h, m)
    ensures var r := Create(k, h, m);
            && Written(r.status, r.pkt) == Build(k, PlanOf(h, m))
            && (r.status == Ok ==> r.questions == |PlanOf(h, m).questions|)
  {
    hide AddQuestions, AddAnswers, AddRecords, Selected, Additional, Probes, RecordOk, RrOk;
    var qs, rs := ProbeQuestions(h, m), Selected(h, m) + Additional(h, m, 0);
    var q := AddQuestions(k, qs);
    if qs == [] {
      NoQuestions(k, qs);
    }
    if q.status == Ok {
      QuestionsAppend(k, qs);
      RecordsConcat(q.pkt, |qs|, m.legacy, Selected(h, m), Additional(h, m, 0));
      assert Create(k, h, m) == AddRecords(q.pkt, |qs|, m.legacy, rs);
      if m.legacy && qs == [] {
        if rs != [] {
          QuestionOfRecord(rs[0]);
          LegacyRecords(k, rs);
        } else {
          NoRecords(k, 0, m.legacy, rs);
        }
      } else {
        PlainRecords(q.pkt, |qs|, m.legacy, rs);
      }
    }
  }

  lemma NoQuestions(k: Pkt, qs: seq<Rr>)
    requires qs == [] && WellSized(k)
    ensures AddQuestions(k, qs) == Written(Ok, k)
  {
  }

  lemma NoRecords(k: Pkt, questions: nat, legacy: bool, rs: seq<Record>)
    requires rs == [] && WellSized(k)
    ensures AddRecords(k, questions, legacy, rs) == Made(Ok, k, questions) && AddAnswers(k, rs) == Written(Ok, k)
  {
  }

  // ----- The header

  datatype Counts = Counts(questions: nat, answers: nat, authoritative: nat, additional: nat)

  predicate CountsOk(c: Counts) {
    c.questions < U16_SIZE && c.answers < U16_SIZE && c.authoritative < U16_SIZE && c.additional < U16_SIZE
  }

  /** `struct dns_hdr`. */
  function Header(id: nat, flags: byte, c: Counts): (s: seq<byte>)
    requires id < U16_SIZE && CountsOk(c)
    ensures |s| == SIZEOF_DNS_HDR
  {
    Be16(id) + [flags, 0] + Be16(c.questions) + Be16(c.answers) + Be16(c.authoritative) + Be16(c.additional)
  }

  /** The datagram: the header filled in, and the buffer shortened to what was written. */
  function Datagram(k: Pkt, id: nat, flags: byte, c: Counts): (f: seq<byte>)
    requires WellSized(k) && id < U16_SIZE && CountsOk(c)
    ensures |f| == k.writeOffset
  {
    Header(id, flags, c) + k.bytes[SIZEOF_DNS_HDR..k.writeOffset]
  }

  lemma DatagramCarries(k: Pkt, id: nat, flags: byte, c: Counts)
    requires WellSized(k) && id < U16_SIZE && CountsOk(c)
    ensures Carries(Datagram(k, id, flags, c), Done(k))
  {
    var f, q := Datagram(k, id, flags, c), Done(k);
    assert f[SIZEOF_DNS_HDR..|q|] == k.bytes[SIZEOF_DNS_HDR..k.writeOffset];
    assert q[SIZEOF_DNS_HDR..] == k.bytes[SIZEOF_DNS_HDR..k.writeOffset];
  }

  /** A response, by the top bit of its flags. */
  predicate Response(flags: byte) {
    flags >= 0x80
  }

  function Opcode(flags: byte): (r: nat) {
    flags / 8 % 16
  }

  // ----- The reader

  datatype Parsed = Parsed(id: nat, flags: byte, questions: seq<Question>, answers: seq<Answer>,
                           authoritative: seq<Answer>, additional: seq<Answer>)

  /** The sections behind the header, as many items as `c` says. */
  function ReadSections(f: seq<byte>, id: nat, flags: byte, c: Counts): (r: Option<Parsed>)
    requires |f| <= UDP_PAYLOAD_MAX
  {
    var qs := ReadQuestions(f, SIZEOF_DNS_HDR, c.questions);
    if qs.None? then None
    else
      var an := ReadAnswers(f, qs.value.next, c.answers);
      if an.None? then None
      else
        var au := ReadAnswers(f, an.value.next, c.authoritative);
        if au.None? then None
        else
          var ad := ReadAnswers(f, au.value.next, c.additional);
          if ad.None? then None
          else Some(Parsed(id, flags, qs.value.items, an.value.items, au.value.items, ad.value.items))
  }

  /**
    A received packet: its header decides how many items each section has. Packets too short for
    a header and operations other than queries are dropped.
   */
  function ReadPacket(f: seq<byte>): (r: Option<Parsed>)
    requires |f| <= UDP_PAYLOAD_MAX
  {
    if |f| < SIZEOF_DNS_HDR || Opcode(f[2]) != 0 then None
    else
      ReadSections(f, FromBe16(f[0..2]), f[2],
                   Counts(FromBe16(f[4..6]), FromBe16(f[6..8]), FromBe16(f[8..10]), FromBe16(f[10..12])))
  }

  /**
    Only whole headers of standard queries and their responses are read on, and where they have the
    numbers of questions and records, in network order.
   */
  lemma HeaderFields(f: seq<byte>)
    requires |f| <= UDP_PAYLOAD_MAX && ReadPacket(f).Some?
    ensures |f| >= 12 && f[2] as int % 128 / 8 == 0
    ensures var p := ReadPacket(f).value;
            && p.id == 256 * f[0] as int + f[1] as int && p.flags == f[2]
            && |p.questions| == 256 * f[4] as int + f[5] as int
            && |p.answers| == 256 * f[6] as int + f[7] as int
            && |p.authoritative| == 256 * f[8] as int + f[9] as int
            && |p.additional| == 256 * f[10] as int + f[11] as int
  {
    hide ReadQuestions, ReadAnswers;
    QuestionsCounted(f, SIZEOF_DNS_HDR, FromBe16(f[4..6]));
    var an := ReadQuestions(f, SIZEOF_DNS_HDR, FromBe16(f[4..6])).value.next;
    RecordsCounted(f, an, FromBe16(f[6..8]));
    var au := ReadAnswers(f, an, FromBe16(f[6..8])).value.next;
    RecordsCounted(f, au, FromBe16(f[8..10]));
    RecordsCounted(f, ReadAnswers(f, au, FromBe16(f[8..10])).value.next, FromBe16(f[10..12]));
  }

  lemma {:induction false} QuestionsCounted(f: seq<byte>, off: nat, n: nat)
    requires |f| <= UDP_PAYLOAD_MAX && off < U16_SIZE
    ensures ReadQuestions(f, off, n).Some? ==> |ReadQuestions(f, off, n).value.items| == n
    decreases n
  {
    hide ReadQuestionAt;
    if n > 0 && ReadQuestionAt(f, off).Some? {
      QuestionsCounted(f, ReadQuestionAt(f, off).value.next, n - 1);
    }
  }

  lemma {:induction false} RecordsCounted(f: seq<byte>, off: nat, n: nat)
    requires |f| <= UDP_PAYLOAD_MAX && off < U16_SIZE
    ensures ReadAnswers(f, off, n).Some? ==> |ReadAnswers(f, off, n).value.items| == n
    decreases n
  {
    hide ReadAnswerAt;
    if n > 0 && ReadAnswerAt(f, off).Some? {
      RecordsCounted(f, ReadAnswerAt(f, off).value.next, n - 1);
    }
  }

  /** The header of a datagram is read as it was filled in. */
  lemma HeaderReads(k: Pkt, id: nat, flags: byte, c: Counts)
    requires WellSized(k) && id < U16_SIZE && CountsOk(c)
    ensures var f := Datagram(k, id, flags, c);
            ReadPacket(f) == if Opcode(flags) != 0 then None else ReadSections(f, id, flags, c)
  {
    hide ReadSections, Be16, FromBe16;
    var f, s := Datagram(k, id, flags, c), Header(id, flags, c);
    assert f[0..2] == s[0..2] == Be16(id) && f[2] == s[2] == flags;
    assert f[4..6] == s[4..6] == Be16(c.questions) && f[6..8] == s[6..8] == Be16(c.answers);
    assert f[8..10] == s[8..10] == Be16(c.authoritative) && f[10..12] == s[10..12] == Be16(c.additional);
    Be16RoundTrip(id);
    Be16RoundTrip(c.questions);
    Be16RoundTrip(c.answers);
    Be16RoundTrip(c.authoritative);
    Be16RoundTrip(c.additional);
  }

  // ----- What is read and what was meant

  ghost predicate QuestionIs(q: Question, rr: Rr) {
    q.domain == Encode(rr.name) && q.rtype == rr.rtype && q.klass == rr.klass && q.top == rr.top
  }

  /** A record as read, data included: its bytes and the name in it. */
  ghost predicate AnswerIs(f: seq<byte>, r: Answer, a: Record) {
    && r.domain == Encode(a.rr.name) && r.rtype == a.rr.rtype && r.klass == a.rr.klass && r.top == a.rr.top
    && r.ttl == a.ttl && r.rdOffset + r.rdLength == r.next
    && r.rdOffset < U16_SIZE && DataReads(f, r.rdOffset, a, r.next)
  }

  ghost predicate QuestionsAre(items: seq<Question>, qs: seq<Rr>) {
    |items| == |qs| && forall i :: 0 <= i < |qs| ==> QuestionIs(items[i], qs[i])
  }

  ghost predicate AnswersAre(f: seq<byte>, items: seq<Answer>, rs: seq<Record>) {
    |items| == |rs| && forall i :: 0 <= i < |rs| ==> AnswerIs(f, items[i], rs[i])
  }

  lemma {:induction false} QuestionsAsMeant(f: seq<byte>, off: nat, qs: seq<Rr>, next: nat)
    requires |f| <= UDP_PAYLOAD_MAX && off < U16_SIZE
    ensures var r := ReadQuestions(f, off, |qs|);
            QuestionsRead(f, off, qs, next) <==> r.Some? && r.value.next == next && QuestionsAre(r.value.items, qs)
    decreases |qs|
  {
    hide ReadQuestionAt, Encode;
    if qs != [] {
      var q := ReadQuestionAt(f, off);
      if q.Some? {
        QuestionsAsMeant(f, q.value.next, qs[1..], next);
        var rest := ReadQuestions(f, q.value.next, |qs| - 1);
        if rest.Some? {
          ItemsAre(q.value, rest.value.items, qs);
        }
      }
    }
  }

  lemma ItemsAre(q: Question, items: seq<Question>, qs: seq<Rr>)
    requires qs != []
    ensures QuestionsAre([q] + items, qs) <==> QuestionIs(q, qs[0]) && QuestionsAre(items, qs[1..])
  {
    hide QuestionIs;
    var all := [q] + items;
    assert all[0] == q && all[1..] == items;
    if QuestionsAre(all, qs) {
      assert forall i :: 0 <= i < |items| ==> items[i] == all[i + 1] && qs[1..][i] == qs[i + 1];
    }
  }

  lemma {:induction false} RecordsAsMeant(f: seq<byte>, off: nat, rs: seq<Record>, next: nat)
    requires |f| <= UDP_PAYLOAD_MAX && off < U16_SIZE
    ensures var r := ReadAnswers(f, off, |rs|);
            RecordsRead(f, off, rs, next) <==> r.Some? && r.value.next == next && AnswersAre(f, r.value.items, rs)
    decreases |rs|
  {
    hide ReadAnswerAt, Encode, DataReads;
    if rs != [] {
      var a := ReadAnswerAt(f, off);
      if a.Some? {
        RecordsAsMeant(f, a.value.next, rs[1..], next);
        var rest := ReadAnswers(f, a.value.next, |rs| - 1);
        if rest.Some? {
          AnswerItemsAre(f, a.value, rest.value.items, rs);
        }
      }
    }
  }

  lemma AnswerItemsAre(f: seq<byte>, a: Answer, items: seq<Answer>, rs: seq<Record>)
    requires rs != []
    ensures AnswersAre(f, [a] + items, rs) <==> AnswerIs(f, a, rs[0]) && AnswersAre(f, items, rs[1..])
  {
    hide AnswerIs;
    var all := [a] + items;
    assert all[0] == a && all[1..] == items;
    if AnswersAre(f, all, rs) {
      assert forall i :: 0 <= i < |items| ==> items[i] == all[i + 1] && rs[1..][i] == rs[i + 1];
    }
  }

  lemma {:induction false} RecordsReadConcat(f: seq<byte>, off: nat, xs: seq<Record>, ys: seq<Record>, next: nat)
    ensures RecordsRead(f, off, xs + ys, next)
        <==> exists mid: nat :: RecordsRead(f, off, xs, mid) && RecordsRead(f, mid, ys, next)
    decreases |xs|
  {
    hide ReadAnswerAt, RecordReads;
    if xs == [] {
      assert xs + ys == ys;
      assert RecordsRead(f, off, xs, off);
    } else {
      assert (xs + ys)[1..] == xs[1..] + ys && (xs + ys)[0] == xs[0];
      if off < U16_SIZE && ReadAnswerAt(f, off).Some? {
        RecordsReadConcat(f, ReadAnswerAt(f, off).value.next, xs[1..], ys, next);
      }
    }
  }

  // ----- The messages of a host

  /** The records of the three sections: a response answers with what is selected, a probe claims it. */
  function AnswerSection(h: Host, m: Msg): (rs: seq<Record>)
    requires MsgOk(h, m)
  {
    if Response(m.flags) then Selected(h, m) else []
  }

  function AuthoritySection(h: Host, m: Msg): (rs: seq<Record>)
    requires MsgOk(h, m)
  {
    if Response(m.flags) then [] else Selected(h, m)
  }

  /** What is read is the message: header fields and all four sections, in order and complete. */
  ghost predicate Shows(f: seq<byte>, p: Parsed, h: Host, m: Msg)
    requires MsgOk(h, m)
  {
    && p.id == m.id && p.flags == m.flags
    && QuestionsAre(p.questions, PlanOf(h, m).questions)
    && AnswersAre(f, p.answers, AnswerSection(h, m))
    && AnswersAre(f, p.authoritative, AuthoritySection(h, m))
    && AnswersAre(f, p.additional, Additional(h, m, 0))
  }

  function CountsOf(h: Host, m: Msg): (c: Counts)
    requires MsgOk(h, m)
  {
    Counts(|PlanOf(h, m).questions|, |AnswerSection(h, m)|, |AuthoritySection(h, m)|, |Additional(h, m, 0)|)
  }

  /** Reading the sections with the right counts is reading the plan. */
  lemma SectionsRead(f: seq<byte>, h: Host, m: Msg)
    requires MsgOk(h, m) && |f| <= UDP_PAYLOAD_MAX
    ensures var r := ReadSections(f, m.id, m.flags, CountsOf(h, m));
            r.Some? && Shows(f, r.value, h, m) <==> exists end: nat :: PlanReads(f, SIZEOF_DNS_HDR, PlanOf(h, m), end)
  {
    hide QuestionsRead, RecordsRead, ReadQuestions, ReadAnswers, QuestionsAre, AnswersAre, Selected, Additional;
    var plan := PlanOf(h, m);
    var r := ReadSections(f, m.id, m.flags, CountsOf(h, m));
    if r.Some? && Shows(f, r.value, h, m) {
      var end := ShownIsRead(f, h, m);
    }
    if exists end: nat :: PlanReads(f, SIZEOF_DNS_HDR, plan, end) {
      var end: nat :| PlanReads(f, SIZEOF_DNS_HDR, plan, end);
      ReadIsShown(f, h, m, end);
    }
  }

  lemma NothingRead(f: seq<byte>, off: nat, rs: seq<Record>)
    requires rs == [] && |f| <= UDP_PAYLOAD_MAX && off < U16_SIZE
    ensures ReadAnswers(f, off, |rs|) == Some(Section([], off)) && AnswersAre(f, [], rs)
  {
  }

  lemma ShownIsRead(f: seq<byte>, h: Host, m: Msg) returns (end: nat)
    requires MsgOk(h, m) && |f| <= UDP_PAYLOAD_MAX
    requires var r := ReadSections(f, m.id, m.flags, CountsOf(h, m)); r.Some? && Shows(f, r.value, h, m)
    ensures PlanReads(f, SIZEOF_DNS_HDR, PlanOf(h, m), end)
  {
    hide QuestionsRead, RecordsRead, ReadQuestions, ReadAnswers, QuestionsAre, AnswersAre, Selected, Additional, Probes;
    var plan, c := PlanOf(h, m), CountsOf(h, m);
    var mid := ReadQuestions(f, SIZEOF_DNS_HDR, c.questions).value.next;
    QuestionsAsMeant(f, SIZEOF_DNS_HDR, plan.questions, mid);
    var an := ReadAnswers(f, mid, c.answers).value.next;
    var au := ReadAnswers(f, an, c.authoritative).value.next;
    end := ReadAnswers(f, au, c.additional).value.next;
    NothingRead(f, mid, []);
    NothingRead(f, an, []);
    RecordsAsMeant(f, mid, Selected(h, m), au);
    RecordsAsMeant(f, au, Additional(h, m, 0), end);
    RecordsReadConcat(f, mid, Selected(h, m), Additional(h, m, 0), end);
  }

  lemma ReadIsShown(f: seq<byte>, h: Host, m: Msg, end: nat)
    requires MsgOk(h, m) && |f| <= UDP_PAYLOAD_MAX && PlanReads(f, SIZEOF_DNS_HDR, PlanOf(h, m), end)
    ensures var r := ReadSections(f, m.id, m.flags, CountsOf(h, m)); r.Some? && Shows(f, r.value, h, m)
  {
    hide QuestionsRead, RecordsRead, ReadQuestions, ReadAnswers, QuestionsAre, AnswersAre, Selected, Additional, Probes;
    var plan := PlanOf(h, m);
    var mid: nat :| QuestionsRead(f, SIZEOF_DNS_HDR, plan.questions, mid) && RecordsRead(f, mid, plan.records, end);
    QuestionsAsMeant(f, SIZEOF_DNS_HDR, plan.questions, mid);
    RecordsReadConcat(f, mid, Selected(h, m), Additional(h, m, 0), end);
    var au: nat :| RecordsRead(f, mid, Selected(h, m), au) && RecordsRead(f, au, Additional(h, m, 0), end);
    RecordsAsMeant(f, mid, Selected(h, m), au);
    NothingRead(f, mid, []);
    NothingRead(f, au, []);
    RecordsAsMeant(f, au, Additional(h, m, 0), end);
  }

  /** Every question and record takes space, so the counts fit their fields. */
  lemma {:induction false} QuestionsTakeSpace(k: Pkt, qs: seq<Rr>)
    requires WellSized(k) && (forall q :: q in qs ==> RrOk(q)) && AddQuestions(k, qs).status == Ok
    ensures k.writeOffset + |qs| <= AddQuestions(k, qs).pkt.writeOffset
    decreases |qs|
  {
    hide AddQuestion, Run, Encode;
    if qs != [] {
      QuestionAppends(k, qs[0]);
      assert k.writeOffset + 1 <= AddQuestion(k, qs[0]).pkt.writeOffset by { QuestionGrows(k, qs[0]); }
      QuestionsTakeSpace(AddQuestion(k, qs[0]).pkt, qs[1..]);
    }
  }

  lemma QuestionGrows(k: Pkt, q: Rr)
    requires WellSized(k) && RrOk(q) && AddQuestion(k, q).status == Ok
    ensures k.writeOffset + 4 < AddQuestion(k, q).pkt.writeOffset
  {
    hide Run, Encode;
    QuestionFits(k, q);
  }

  lemma {:induction false} AnswersTakeSpace(k: Pkt, rs: seq<Record>)
    requires WellSized(k) && (forall a :: a in rs ==> RecordOk(a)) && AddAnswers(k, rs).status == Ok
    ensures k.writeOffset + |rs| <= AddAnswers(k, rs).pkt.writeOffset
    decreases |rs|
  {
    hide AddAnswer, AddQuestion, Encode;
    if rs != [] {
      AnswerAppends(k, rs[0]);
      QuestionGrows(k, rs[0].rr);
      AnswersTakeSpace(AddAnswer(k, rs[0]).pkt, rs[1..]);
    }
  }

  lemma CountsFit(k: Pkt, h: Host, m: Msg)
    requires WellSized(k) && MsgOk(h, m) && Build(k, PlanOf(h, m)).status == Ok
    ensures CountsOk(CountsOf(h, m)) && WellSized(Build(k, PlanOf(h, m)).pkt)
  {
    hide AddQuestions, AddAnswers, PlanOf, Selected, Additional, RecordOk, RrOk;
    var plan := PlanOf(h, m);
    QuestionsAppend(k, plan.questions);
    QuestionsTakeSpace(k, plan.questions);
    AnswersTakeSpace(AddQuestions(k, plan.questions).pkt, plan.records);
    BuildAppends(k, plan);
  }

  /** The datagram that `mdns_send_outpacket` sends for a message. */
  ghost function SentFor(h: Host, m: Msg, bytes: seq<byte>): (f: seq<byte>)
    requires SIZEOF_DNS_HDR <= |bytes| <= JUMP_TARGET_LIMIT
    requires MsgOk(h, m) && Build(Fresh(bytes), PlanOf(h, m)).status == Ok
    ensures |f| <= JUMP_TARGET_LIMIT
  {
    CountsFit(Fresh(bytes), h, m);
    Datagram(Build(Fresh(bytes), PlanOf(h, m)).pkt, m.id, m.flags, CountsOf(h, m))
  }

  /** The datagram reads, with the counts in its own header, as the message. */
  ghost predicate SentReads(h: Host, m: Msg, bytes: seq<byte>)
    requires SIZEOF_DNS_HDR <= |bytes| <= JUMP_TARGET_LIMIT
    requires MsgOk(h, m) && Build(Fresh(bytes), PlanOf(h, m)).status == Ok
  {
    var f := SentFor(h, m, bytes);
    var r := ReadPacket(f);
    r.Some? && Shows(f, r.value, h, m)
  }

  lemma FreshInv(bytes: seq<byte>)
    requires SIZEOF_DNS_HDR <= |bytes| <= JUMP_TARGET_LIMIT
    ensures Inv(Fresh(bytes))
  {
  }

  /**
    What is sent is read: the datagram of a message, its header filled in and its end cut off,
    reads as exactly the message's questions and records in their sections if and only if every
    name was written safely.
   */
  lemma SentReadsBack(h: Host, m: Msg, bytes: seq<byte>)
    requires SIZEOF_DNS_HDR <= |bytes| <= JUMP_TARGET_LIMIT
    requires MsgOk(h, m) && Build(Fresh(bytes), PlanOf(h, m)).status == Ok
    ensures Inv(Fresh(bytes))
    ensures SentReads(h, m, bytes) <==> Opcode(m.flags) == 0 && PlanSafe(Fresh(bytes), PlanOf(h, m))
  {
    hide Build, PlanOf, PlanSafe, PlanReads, ReadSections, ReadPacket, Shows, CountsOf, Datagram, Carries;
    var k := Build(Fresh(bytes), PlanOf(h, m)).pkt;
    var f := SentFor(h, m, bytes);
    FreshInv(bytes);
    CountsFit(Fresh(bytes), h, m);
    HeaderReads(k, m.id, m.flags, CountsOf(h, m));
    DatagramCarries(k, m.id, m.flags, CountsOf(h, m));
    SectionsRead(f, h, m);
    PacketReadsBack(Fresh(bytes), PlanOf(h, m), f);
  }

  /**
    Every message completed for a host with at most six addresses and names that do not clash is
    read as it was meant, reverse lookups and legacy replies included.
   */
  lemma HostIsHeard(h: Host, m: Msg, bytes: seq<byte>)
    requires SIZEOF_DNS_HDR <= |bytes| <= JUMP_TARGET_LIMIT
    requires MsgOk(h, m) && Build(Fresh(bytes), PlanOf(h, m)).status == Ok
    requires ClashFree(h) && |h.addresses| <= MAX_JUMPS + 1 && Opcode(m.flags) == 0
    ensures SentReads(h, m, bytes)
  {
    hide Build, PlanOf, PlanSafe, SentReads, ClashFree, MsgOk;
    MessageSafe(h, m, bytes);
    SentReadsBack(h, m, bytes);
  }
}
