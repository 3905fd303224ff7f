/**
  Two hosts probing at the same time: each compares the probe in its own buffer with the datagram
  it receives from the other, and the outcome is a matter of the records alone.
 */
module SimultaneousProbes {
  import opened Bytes
  import opened DomainNames
  import opened NameReader
  import opened NameWriter
  import opened NameRoundTrip
  import opened NameRuns
  import opened Records
  import opened RecordRuns
  import opened SelfParse
  import opened Packets
  import opened Families
  import opened Outpackets
  import opened SentPackets
  import opened RecordOrder
  import opened DomainEquality
  import opened Tiebreak
  import opened ProbeTiebreak

  // ----- What a record is compared by

  /** Data that is compared as such: fixed bytes, and only in a service record a name behind six of them. */
  predicate Claim(a: Record) {
    && a.fixed.Some?
    && (if a.rr.rtype == TYPE_SRV then |a.fixed.value| == 6 && a.target.Some? else a.target.None?)
  }

  /** The key of a record, whatever packet it is in. */
  function KeyFor(a: Record): (k: Key)
    requires Claim(a)
  {
    Key(a.rr.klass, a.rr.rtype, a.fixed.value + if a.target.Some? then Encode(a.target.value.ls) else [])
  }

  lemma RawHolds(f: seq<byte>, off: nat, s: seq<byte>)
    requires |f| <= JUMP_TARGET_LIMIT && Holds(f, off, s)
    ensures RawData(f, off, |s|) == s
  {
    var r := RawData(f, off, |s|);
    forall i | 0 <= i < |s| ensures r[i] == s[i] {
      assert s[i] == f[off..off + |s|][i] == f[off + i];
    }
  }

  /** A record that is read as `a` has the key of `a`. */
  lemma RecordKey(f: seq<byte>, off: nat, a: Record, next: nat)
    requires |f| <= JUMP_TARGET_LIMIT && off < U16_SIZE && Claim(a)
    requires RecordReads(f, off, a, next) && next <= |f|
    ensures KeyAt(f, off) == Some(KeyFor(a))
  {
    hide ReadName, ReadAnswerAt, Encode, RawData;
    var r := ReadAnswerAt(f, off).value;
    RawHolds(f, r.rdOffset, a.fixed.value);
    assert a.target.None? ==> a.fixed.value + [] == a.fixed.value;
  }

  predicate AllClaims(rs: seq<Record>) {
    forall i :: 0 <= i < |rs| ==> Claim(rs[i])
  }

  /** The keys of the records for a name, in order. */
  function ClaimsFor(rs: seq<Record>, name: seq<byte>): (ks: seq<Key>)
    requires AllClaims(rs)
    decreases |rs|
  {
    if rs == [] then []
    else (if DomainEq(name, Encode(rs[0].rr.name)) then [KeyFor(rs[0])] else []) + ClaimsFor(rs[1..], name)
  }

  /** The records found in a packet that reads as `rs` have the keys of `rs`. */
  lemma {:induction false} MatchingKeys(f: seq<byte>, off: nat, rs: seq<Record>, end: nat, q: Question)
    requires |f| <= JUMP_TARGET_LIMIT && off < U16_SIZE && end <= |f| && AllClaims(rs)
    requires RecordsRead(f, off, rs, end) && q.rtype == TYPE_ANY
    ensures var m := Matching(f, off, |rs|, q);
            && m.Some? && Decodable(f, m.value) && Keys(f, m.value) == ClaimsFor(rs, q.domain)
    decreases |rs|
  {
    hide ReadAnswerAt, Encode, DomainEq, KeyFor, KeyAt, RecordReads, RecordsRead, Matching, ClaimsFor, Decodable, Keys;
    if rs == [] {
      NothingMatches(f, off, rs, q);
    } else {
      var r := RecordsStep(f, off, rs, end);
      ReadsName(f, off, rs[0], r.next);
      NextInside(f, r.next, rs[1..], end);
      RecordKey(f, off, rs[0], r.next);
      MatchingKeys(f, r.next, rs[1..], end, q);
      var rest := Matching(f, r.next, |rs| - 1, q).value;
      MatchingStep(f, off, |rs|, q, r);
      ClaimsStep(rs, q.domain);
      if Answers(q, r) {
        KeysCons(f, off, rest);
      }
    }
  }

  lemma NothingMatches(f: seq<byte>, off: nat, rs: seq<Record>, q: Question)
    requires rs == [] && off < U16_SIZE
    ensures Matching(f, off, |rs|, q) == Some([]) && Decodable(f, []) && Keys(f, []) == [] == ClaimsFor(rs, q.domain)
  {
    NoKeys(f, []);
  }

  lemma RecordsStep(f: seq<byte>, off: nat, rs: seq<Record>, end: nat) returns (r: Answer)
    requires RecordsRead(f, off, rs, end) && rs != []
    ensures off < U16_SIZE && ReadAnswerAt(f, off) == Some(r)
    ensures RecordReads(f, off, rs[0], r.next) && RecordsRead(f, r.next, rs[1..], end)
  {
    hide ReadAnswerAt, RecordReads;
    r := ReadAnswerAt(f, off).value;
  }

  lemma MatchingStep(f: seq<byte>, off: nat, n: nat, q: Question, r: Answer)
    requires n > 0 && off < U16_SIZE && ReadAnswerAt(f, off) == Some(r) && Matching(f, r.next, n - 1, q).Some?
    ensures var rest := Matching(f, r.next, n - 1, q).value;
            Matching(f, off, n, q) == Some(if Answers(q, r) then [off] + rest else rest)
  {
    hide ReadAnswerAt, Answers;
    var rest := Matching(f, r.next, n - 1, q).value;
    assert [] + rest == rest;
  }

  lemma ClaimsStep(rs: seq<Record>, name: seq<byte>)
    requires rs != [] && AllClaims(rs)
    ensures Claim(rs[0]) && AllClaims(rs[1..])
    ensures var rest := ClaimsFor(rs[1..], name);
            ClaimsFor(rs, name) == if DomainEq(name, Encode(rs[0].rr.name)) then [KeyFor(rs[0])] + rest else rest
  {
    hide DomainEq, Encode, KeyFor, Claim;
    var rest := ClaimsFor(rs[1..], name);
    assert [] + rest == rest;
  }

  lemma ReadsName(f: seq<byte>, off: nat, a: Record, next: nat)
    requires off < U16_SIZE && RecordReads(f, off, a, next)
    ensures ReadAnswerAt(f, off).value.domain == Encode(a.rr.name)
  {
    hide ReadAnswerAt, Encode, DataReads;
  }

  lemma NextInside(f: seq<byte>, off: nat, rs: seq<Record>, end: nat)
    requires RecordsRead(f, off, rs, end) && end <= |f|
    ensures off <= |f|
  {
    hide RecordReads, ReadRrInfo;
  }

  lemma KeysCons(p: seq<byte>, off: nat, rest: seq<nat>)
    requires KeyAt(p, off).Some? && Decodable(p, rest)
    ensures Decodable(p, [off] + rest) && Keys(p, [off] + rest) == [KeyAt(p, off).value] + Keys(p, rest)
  {
    hide KeyAt;
    var all := [off] + rest;
    forall i | 0 <= i < |all| ensures KeyAt(p, all[i]).Some? {
      if i > 0 {
        assert all[i] == rest[i - 1];
      }
    }
    hide Keys;
    var ks, ks' := Keys(p, all), [KeyAt(p, off).value] + Keys(p, rest);
    forall i | 0 <= i < |all| ensures ks[i] == ks'[i] {
      if i > 0 {
        assert all[i] == rest[i - 1] && ks'[i] == Keys(p, rest)[i - 1];
      }
    }
  }

  // ----- The outcome, by what the probes say

  /** What a probe asks and claims. */
  predicate ProbePlan(m: Plan) {
    && AllClaims(m.records)
    && forall i :: 0 <= i < |m.questions| ==> m.questions[i].rtype == TYPE_ANY && m.questions[i].klass == CLASS_IN
  }

  /** The verdict on one name. */
  function NameVerdict(mine: Plan, theirs: Plan, name: seq<byte>): (v: Outcome)
    requires ProbePlan(mine) && ProbePlan(theirs)
  {
    OutcomeOf(Verdict(ClaimsFor(mine.records, name), ClaimsFor(theirs.records, name)))
  }

  predicate AsksFor(qs: seq<Rr>, name: seq<byte>) {
    exists i :: 0 <= i < |qs| && DomainEq(Encode(qs[i].name), name)
  }

  /** The names among `qs` that the others ask for, too. */
  function CommonNames(qs: seq<Rr>, others: seq<Rr>): (names: seq<seq<byte>>)
    decreases |qs|
  {
    if qs == [] then []
    else
      (if AsksFor(others, Encode(qs[0].name)) then [Encode(qs[0].name)] else []) + CommonNames(qs[1..], others)
  }

  /** The first verdict other than a tie. */
  function FirstVerdict(mine: Plan, theirs: Plan, names: seq<seq<byte>>): (v: Outcome)
    requires ProbePlan(mine) && ProbePlan(theirs)
    decreases |names|
  {
    if names == [] then NoConflict
    else
      var v := NameVerdict(mine, theirs, names[0]);
      if v != NoConflict then v else FirstVerdict(mine, theirs, names[1..])
  }

  /** The outcome for the host with the probe `mine`: the first common name that is decided, in its own order. */
  function PlanOutcome(mine: Plan, theirs: Plan): (v: Outcome)
    requires ProbePlan(mine) && ProbePlan(theirs)
  {
    FirstVerdict(mine, theirs, CommonNames(mine.questions, theirs.questions))
  }

  /** At most four records on either side for each of the names. */
  predicate FewClaims(mine: Plan, theirs: Plan, names: seq<seq<byte>>)
    requires ProbePlan(mine) && ProbePlan(theirs)
  {
    forall i :: 0 <= i < |names| ==>
      |ClaimsFor(mine.records, names[i])| < MAX_ANSWERS && |ClaimsFor(theirs.records, names[i])| < MAX_ANSWERS
  }

  function ProbeOf(f: seq<byte>, m: Plan): (p: Probe) {
    Probe(f, |m.questions|, |m.records|)
  }

  /** A packet that reads as a probe. */
  ghost predicate Shown(f: seq<byte>, m: Plan, end: nat) {
    |f| <= JUMP_TARGET_LIMIT && end <= |f| && ProbePlan(m) && PlanReads(f, SIZEOF_DNS_HDR, m, end)
  }

  /** Its questions can be read, and its records start behind them. */
  lemma ShownOpens(f: seq<byte>, m: Plan, end: nat) returns (qs: Section<Question>)
    requires Shown(f, m, end)
    ensures Opened(ProbeOf(f, m), qs) && QuestionsAre(qs.items, m.questions)
    ensures qs.next < U16_SIZE && RecordsRead(f, qs.next, m.records, end)
  {
    hide QuestionsRead, RecordsRead, ReadQuestions, AllClaims, Encode;
    var mid: nat :| QuestionsRead(f, SIZEOF_DNS_HDR, m.questions, mid) && RecordsRead(f, mid, m.records, end);
    QuestionsAsMeant(f, SIZEOF_DNS_HDR, m.questions, mid);
    qs := ReadQuestions(f, SIZEOF_DNS_HDR, |m.questions|).value;
    forall i | 0 <= i < |qs.items| ensures Supported(qs.items[i].klass) {
      assert QuestionIs(qs.items[i], m.questions[i]);
    }
  }

  /** The common questions as read are the common names. */
  lemma {:induction false} CommonAre(items: seq<Question>, qs: seq<Rr>, others: seq<Question>, others': seq<Rr>)
    requires QuestionsAre(items, qs) && QuestionsAre(others, others')
    ensures var common, names := Common(items, others), CommonNames(qs, others');
            |common| == |names| && forall i :: 0 <= i < |common| ==> common[i].domain == names[i] && common[i] in items
    decreases |items|
  {
    hide Encode, Asks, AsksFor;
    if items != [] {
      assert QuestionIs(items[0], qs[0]);
      AsksSame(others, others', items[0].domain);
      ItemsTail(items, qs);
      CommonAre(items[1..], qs[1..], others, others');
    }
  }

  lemma ItemsTail(items: seq<Question>, qs: seq<Rr>)
    requires QuestionsAre(items, qs) && items != []
    ensures QuestionsAre(items[1..], qs[1..])
  {
    hide QuestionIs;
    forall i | 0 <= i < |items| - 1 ensures QuestionIs(items[1..][i], qs[1..][i]) {
      assert QuestionIs(items[i + 1], qs[i + 1]);
    }
  }

  lemma AsksSame(items: seq<Question>, qs: seq<Rr>, name: seq<byte>)
    requires QuestionsAre(items, qs)
    ensures Asks(items, name) <==> AsksFor(qs, name)
  {
    hide Encode, DomainEq;
    forall i | 0 <= i < |items| ensures items[i].domain == Encode(qs[i].name) {
      assert QuestionIs(items[i], qs[i]);
    }
    if AsksFor(qs, name) {
      var i :| 0 <= i < |qs| && DomainEq(Encode(qs[i].name), name);
      assert DomainEq(items[i].domain, name);
    }
    if Asks(items, name) {
      var i :| 0 <= i < |items| && DomainEq(items[i].domain, name);
      assert DomainEq(Encode(qs[i].name), name);
    }
  }

  lemma {:induction false} FirstByPlans(f: seq<byte>, m: Plan, a: nat, end: nat, f': seq<byte>, m': Plan, b: nat, end': nat,
                                        common: seq<Question>, names: seq<seq<byte>>)
    requires Shown(f, m, end) && Shown(f', m', end') && a < U16_SIZE && b < U16_SIZE
    requires RecordsRead(f, a, m.records, end) && RecordsRead(f', b, m'.records, end')
    requires |common| == |names|
    requires forall i :: 0 <= i < |common| ==> common[i].domain == names[i] && common[i].rtype == TYPE_ANY
    requires FewClaims(m, m', names)
    ensures FirstDecided(ProbeOf(f, m), a, ProbeOf(f', m'), b, common) == FirstVerdict(m, m', names)
    decreases |common|
  {
    hide Judge, RecordsRead, Matching, Keys, Verdict, ClaimsFor, Decodable, PlanReads, AllClaims;
    if common != [] {
      var q := common[0];
      assert |ClaimsFor(m.records, names[0])| < MAX_ANSWERS && |ClaimsFor(m'.records, names[0])| < MAX_ANSWERS;
      MatchingKeys(f, a, m.records, end, q);
      MatchingKeys(f', b, m'.records, end', q);
      JudgeIsVerdict(f, a, |m.records|, f', b, |m'.records|, q);
      FewTail(m, m', names);
      FirstByPlans(f, m, a, end, f', m', b, end', common[1..], names[1..]);
    }
  }

  lemma FewTail(m: Plan, m': Plan, names: seq<seq<byte>>)
    requires ProbePlan(m) && ProbePlan(m') && FewClaims(m, m', names) && names != []
    ensures FewClaims(m, m', names[1..])
  {
    hide ClaimsFor;
  }

  /** The outcome of the tiebreak depends on what the two packets say, not on how they say it. */
  lemma TiebreakByPlans(f: seq<byte>, m: Plan, end: nat, f': seq<byte>, m': Plan, end': nat)
    requires Shown(f, m, end) && Shown(f', m', end')
    requires FewClaims(m, m', CommonNames(m.questions, m'.questions))
    ensures TiebreakOf(ProbeOf(f, m), ProbeOf(f', m')) == PlanOutcome(m, m')
  {
    hide RecordsRead, ReadQuestions, FirstDecided, FirstVerdict, Common, CommonNames, FewClaims, PlanReads, AllClaims;
    var ps := ShownOpens(f, m, end);
    var qs := ShownOpens(f', m', end');
    TiebreakIs(ProbeOf(f, m), SIZEOF_DNS_HDR, |m.questions|, ProbeOf(f', m'), qs);
    CommonAre(ps.items, m.questions, qs.items, m'.questions);
    var common := Common(ps.items, qs.items);
    forall i | 0 <= i < |common| ensures common[i].rtype == TYPE_ANY {
      var k :| 0 <= k < |ps.items| && ps.items[k] == common[i];
      assert QuestionIs(ps.items[k], m.questions[k]);
    }
    FirstByPlans(f, m, ps.next, end, f', m', qs.next, end', common, CommonNames(m.questions, m'.questions));
  }

  // ----- Opposite outcomes

  /** The same names in the same order, up to case. */
  predicate SameNames(xs: seq<seq<byte>>, ys: seq<seq<byte>>) {
    |xs| == |ys| && forall i :: 0 <= i < |xs| ==> DomainEq(xs[i], ys[i])
  }

  lemma {:induction false} SameClaims(rs: seq<Record>, x: seq<byte>, y: seq<byte>)
    requires AllClaims(rs) && DomainEq(x, y)
    ensures ClaimsFor(rs, x) == ClaimsFor(rs, y)
    decreases |rs|
  {
    hide DomainEq, Encode, KeyFor;
    if rs != [] {
      DomainEqSwap(x, y, Encode(rs[0].rr.name));
      DomainEqSwap(y, x, Encode(rs[0].rr.name));
      SameClaims(rs[1..], x, y);
    }
  }

  lemma VerdictOpposite(m: Plan, m': Plan, x: seq<byte>, y: seq<byte>)
    requires ProbePlan(m) && ProbePlan(m') && DomainEq(x, y)
    ensures NameVerdict(m', m, y) == Opposite(NameVerdict(m, m', x))
  {
    hide ClaimsFor, Verdict, DomainEq;
    SameClaims(m.records, x, y);
    SameClaims(m'.records, x, y);
    var a, b := ClaimsFor(m.records, x), ClaimsFor(m'.records, x);
    VerdictIsFair(a, b, a, b);
  }

  lemma {:induction false} FirstOpposite(m: Plan, m': Plan, xs: seq<seq<byte>>, ys: seq<seq<byte>>)
    requires ProbePlan(m) && ProbePlan(m') && SameNames(xs, ys)
    ensures FirstVerdict(m', m, ys) == Opposite(FirstVerdict(m, m', xs))
    decreases |xs|
  {
    hide NameVerdict, DomainEq, ProbePlan;
    if xs != [] {
      VerdictOpposite(m, m', xs[0], ys[0]);
      FirstOpposite(m, m', xs[1..], ys[1..]);
    }
  }

  /** A tie exactly when the hosts claim the same records for every name they have in common. */
  lemma {:induction false} TieExactly(m: Plan, m': Plan, names: seq<seq<byte>>)
    requires ProbePlan(m) && ProbePlan(m')
    ensures FirstVerdict(m, m', names) == NoConflict <==>
            forall i :: 0 <= i < |names| ==>
              multiset(ClaimsFor(m.records, names[i])) == multiset(ClaimsFor(m'.records, names[i]))
    decreases |names|
  {
    hide ClaimsFor, Verdict, AllClaims;
    if names != [] {
      var a, b := ClaimsFor(m.records, names[0]), ClaimsFor(m'.records, names[0]);
      VerdictIsFair(a, b, a, b);
      TieExactly(m, m', names[1..]);
      assert forall i :: 0 <= i < |names| - 1 ==> names[1..][i] == names[i + 1];
      assert forall i :: 0 < i < |names| ==> names[i] == names[1..][i - 1];
    }
  }

  /** The first of the names for which the hosts claim different records. */
  function FirstDisputed(mine: Plan, theirs: Plan, names: seq<seq<byte>>): (name: Option<seq<byte>>)
    requires ProbePlan(mine) && ProbePlan(theirs)
    decreases |names|
  {
    if names == [] then None
    else if multiset(ClaimsFor(mine.records, names[0])) != multiset(ClaimsFor(theirs.records, names[0])) then Some(names[0])
    else FirstDisputed(mine, theirs, names[1..])
  }

  lemma {:induction false} DisputeDecides(m: Plan, m': Plan, names: seq<seq<byte>>)
    requires ProbePlan(m) && ProbePlan(m')
    ensures var x := FirstDisputed(m, m', names);
            && FirstVerdict(m, m', names) == (if x.None? then NoConflict else NameVerdict(m, m', x.value))
            && FirstVerdict(m', m, names) == (if x.None? then NoConflict else Opposite(NameVerdict(m, m', x.value)))
            && (x.Some? ==> NameVerdict(m, m', x.value) == Win || NameVerdict(m, m', x.value) == Lose)
    decreases |names|
  {
    hide ClaimsFor, Verdict, AllClaims;
    if names != [] {
      var a, b := ClaimsFor(m.records, names[0]), ClaimsFor(m'.records, names[0]);
      VerdictIsFair(a, b, a, b);
      DisputeDecides(m, m', names[1..]);
    }
  }

  /** The first disputed names, in the two orders, are decided for the same host, or there is no dispute. */
  predicate SameWinner(m: Plan, m': Plan)
    requires ProbePlan(m) && ProbePlan(m')
  {
    var x := FirstDisputed(m, m', CommonNames(m.questions, m'.questions));
    var y := FirstDisputed(m, m', CommonNames(m'.questions, m.questions));
    if x.Some? && y.Some? then NameVerdict(m, m', x.value) == NameVerdict(m, m', y.value) else x.None? && y.None?
  }

  /** When the outcomes are opposite. */
  lemma OppositeExactly(m: Plan, m': Plan)
    requires ProbePlan(m) && ProbePlan(m')
    ensures PlanOutcome(m', m) == Opposite(PlanOutcome(m, m')) <==> SameWinner(m, m')
  {
    hide ClaimsFor, CommonNames, FirstVerdict, FirstDisputed, NameVerdict, ProbePlan;
    DisputeDecides(m, m', CommonNames(m.questions, m'.questions));
    DisputeDecides(m, m', CommonNames(m'.questions, m.questions));
  }

  // ----- The probes of two hosts

  lemma ProbeMsgOk(h: Host)
    requires HostOk(h)
    ensures MsgOk(h, ProbeMsg(h))
  {
  }

  lemma {:induction false} AddressClaims(h: Host, m: Msg, i: nat)
    requires HostOk(h) && i <= |h.addresses|
    ensures AllClaims(Addresses(h, m, i))
    decreases |h.addresses| - i
  {
    hide Encode, HostName;
    if i < |h.addresses| {
      AddressClaims(h, m, i + 1);
    }
  }

  lemma {:induction false} ServiceClaims(h: Host, i: nat)
    requires MsgOk(h, ProbeMsg(h)) && i <= |h.services|
    ensures AllClaims(Services(h, ProbeMsg(h), i))
    decreases |h.services| - i
  {
    hide Encode, Instance, Be16;
    if i < |h.services| {
      ServiceClaims(h, i + 1);
      var m := ProbeMsg(h);
      assert m.replies[i] == Reply(false, false, h.services[i].Some?, false);
      if h.services[i].Some? {
        var rs := OwnRecords(h, m, i);
        assert rs == [Srv(h, m, h.services[i].value)];
      }
    }
  }

  lemma {:induction false} QuestionTypes(h: Host, m: Msg, i: nat)
    requires MsgOk(h, m) && i <= |h.services|
    ensures forall n :: 0 <= n < |Probes(h, m, i)| ==>
              Probes(h, m, i)[n].rtype == TYPE_ANY && Probes(h, m, i)[n].klass == CLASS_IN
    decreases |h.services| - i
  {
    hide Encode, Instance;
    if i < |h.services| {
      QuestionTypes(h, m, i + 1);
    }
  }

  /** A probe asks for records of any type, and claims addresses and services. */
  lemma HostProbePlan(h: Host)
    requires MsgOk(h, ProbeMsg(h))
    ensures ProbePlan(PlanOf(h, ProbeMsg(h)))
  {
    hide Encode, Addresses, Services, Additional, Probes, HostName;
    var m := ProbeMsg(h);
    AddressClaims(h, m, 0);
    ServiceClaims(h, 0);
    QuestionTypes(h, m, 0);
    NoAdditional(h, 0);
    assert PlanOf(h, m).records == Selected(h, m) + [];
  }

  /** What a host probes for and claims. */
  function HostProbe(h: Host): (m: Plan)
    requires HostOk(h)
    ensures PlanOk(m) && ProbePlan(m)
  {
    ProbeMsgOk(h);
    HostProbePlan(h);
    PlanOf(h, ProbeMsg(h))
  }

  /** A host whose names do not clash, with its probe completed in its buffer. */
  ghost predicate Prepared(h: Host, bytes: seq<byte>) {
    && SIZEOF_DNS_HDR <= |bytes| <= JUMP_TARGET_LIMIT
    && HostOk(h) && ClashFree(h) && |h.addresses| <= MAX_JUMPS + 1
    && Build(Fresh(bytes), HostProbe(h)).status == Ok
  }

  lemma PreparedHost(h: Host, bytes: seq<byte>)
    requires Prepared(h, bytes)
    ensures HostOk(h)
  {
  }

  /** The own probe: the buffer it was built in, with the counters (`mdns_convert_out_to_in_pkt`). */
  ghost function Own(h: Host, bytes: seq<byte>): (p: Probe)
    requires Prepared(h, bytes)
  {
    ProbeOf(Build(Fresh(bytes), HostProbe(h)).pkt.bytes, HostProbe(h))
  }

  /** A received probe: the datagram, with the counts of its header. */
  function Received(f: seq<byte>): (p: Probe)
    requires |f| >= SIZEOF_DNS_HDR
  {
    Probe(f, FromBe16(f[4..6]), FromBe16(f[8..10]))
  }

  ghost function SentProbe(h: Host, bytes: seq<byte>): (f: seq<byte>)
    requires Prepared(h, bytes)
    ensures SIZEOF_DNS_HDR <= |f| <= JUMP_TARGET_LIMIT
  {
    ProbeMsgOk(h);
    BuildAppends(Fresh(bytes), HostProbe(h));
    CountsFit(Fresh(bytes), h, ProbeMsg(h));
    SentFor(h, ProbeMsg(h), bytes)
  }

  lemma OwnShown(h: Host, bytes: seq<byte>)
    requires Prepared(h, bytes)
    ensures exists end: nat :: Shown(Own(h, bytes).bytes, HostProbe(h), end)
  {
    hide Build, PlanOf, PlanReads, ClashFree, ProbePlan, HostOk;
    ProbeMsgOk(h);
    ProbeReadsBack(h, bytes);
    BuildAppends(Fresh(bytes), HostProbe(h));
    var k := Build(Fresh(bytes), HostProbe(h)).pkt;
    assert Shown(Own(h, bytes).bytes, HostProbe(h), k.writeOffset);
  }

  lemma SentShown(h: Host, bytes: seq<byte>)
    requires Prepared(h, bytes)
    ensures exists end: nat :: Shown(SentProbe(h, bytes), HostProbe(h), end)
    ensures Received(SentProbe(h, bytes)) == ProbeOf(SentProbe(h, bytes), HostProbe(h))
  {
    hide Build, PlanOf, PlanReads, ClashFree, ProbePlan, HostOk, Datagram, Carries, Selected, Additional;
    ProbeMsgOk(h);
    NoAdditional(h, 0);
    var m, k := ProbeMsg(h), Build(Fresh(bytes), HostProbe(h)).pkt;
    BuildAppends(Fresh(bytes), HostProbe(h));
    CountsFit(Fresh(bytes), h, m);
    DatagramCarries(k, m.id, m.flags, CountsOf(h, m));
    MessageReadsBack(h, m, bytes, SentProbe(h, bytes));
    HeaderCounts(k, m.id, m.flags, CountsOf(h, m));
    assert Shown(SentProbe(h, bytes), HostProbe(h), k.writeOffset);
  }

  lemma HeaderCounts(k: Pkt, id: nat, flags: byte, c: Counts)
    requires WellSized(k) && id < U16_SIZE && CountsOk(c)
    ensures var f := Datagram(k, id, flags, c);
            FromBe16(f[4..6]) == c.questions && FromBe16(f[8..10]) == c.authoritative
  {
    hide Be16, FromBe16;
    var f, s := Datagram(k, id, flags, c), Header(id, flags, c);
    assert f[4..6] == s[4..6] == Be16(c.questions) && f[8..10] == s[8..10] == Be16(c.authoritative);
    Be16RoundTrip(c.questions);
    Be16RoundTrip(c.authoritative);
  }

  lemma FewSame(m: Plan, m': Plan, xs: seq<seq<byte>>, ys: seq<seq<byte>>)
    requires ProbePlan(m) && ProbePlan(m') && SameNames(xs, ys) && FewClaims(m, m', xs)
    ensures FewClaims(m', m, ys)
  {
    hide ClaimsFor, DomainEq;
    forall i | 0 <= i < |ys|
      ensures |ClaimsFor(m.records, ys[i])| < MAX_ANSWERS && |ClaimsFor(m'.records, ys[i])| < MAX_ANSWERS
    {
      assert DomainEq(xs[i], ys[i]);
      SameClaims(m.records, xs[i], ys[i]);
      SameClaims(m'.records, xs[i], ys[i]);
    }
  }

  /** The outcome for one host, from its own buffer and the datagram of the other. */
  lemma OutcomeByPlans(h: Host, bytes: seq<byte>, h': Host, bytes': seq<byte>)
    requires Prepared(h, bytes) && Prepared(h', bytes')
    requires FewClaims(HostProbe(h), HostProbe(h'), CommonNames(HostProbe(h).questions, HostProbe(h').questions))
    ensures Sized(Own(h, bytes)) && Sized(Received(SentProbe(h', bytes')))
    ensures TiebreakOf(Own(h, bytes), Received(SentProbe(h', bytes'))) == PlanOutcome(HostProbe(h), HostProbe(h'))
  {
    hide Prepared, HostProbe, PlanReads, ProbePlan, FewClaims, CommonNames, TiebreakOf, PlanOutcome, SentFor;
    PreparedHost(h, bytes);
    PreparedHost(h', bytes');
    OwnShown(h, bytes);
    SentShown(h', bytes');
    var end: nat :| Shown(Own(h, bytes).bytes, HostProbe(h), end);
    var end': nat :| Shown(SentProbe(h', bytes'), HostProbe(h'), end');
    TiebreakByPlans(Own(h, bytes).bytes, HostProbe(h), end, SentProbe(h', bytes'), HostProbe(h'), end');
  }

  /**
    Simultaneous probes: two hosts receive each other's probe, and each compares it with the one
    in its own buffer. If the names they have in common come in the same order for both, and each
    has at most four records for any of them, then one of them wins and the other one yields,
    unless both claim the same records for all of these names; then there is no conflict.
   */
  lemma OneYields(h: Host, bytes: seq<byte>, h': Host, bytes': seq<byte>)
    requires Prepared(h, bytes) && Prepared(h', bytes')
    requires var names := CommonNames(HostProbe(h).questions, HostProbe(h').questions);
             && SameNames(names, CommonNames(HostProbe(h').questions, HostProbe(h).questions))
             && FewClaims(HostProbe(h), HostProbe(h'), names)
    ensures Sized(Own(h, bytes)) && Sized(Received(SentProbe(h', bytes')))
    ensures Sized(Own(h', bytes')) && Sized(Received(SentProbe(h, bytes)))
    ensures var here := TiebreakOf(Own(h, bytes), Received(SentProbe(h', bytes')));
            var there := TiebreakOf(Own(h', bytes'), Received(SentProbe(h, bytes)));
            var names := CommonNames(HostProbe(h).questions, HostProbe(h').questions);
            && there == Opposite(here) && here != Skipped
            && (here == NoConflict <==>
                forall i :: 0 <= i < |names| ==>
                  multiset(ClaimsFor(HostProbe(h).records, names[i])) == multiset(ClaimsFor(HostProbe(h').records, names[i])))
  {
    hide Prepared, HostProbe, FewClaims, CommonNames, TiebreakOf, FirstVerdict, SameNames, Own, SentProbe;
    hide Received, ClaimsFor, AllClaims;
    PreparedHost(h, bytes);
    PreparedHost(h', bytes');
    var m, m' := HostProbe(h), HostProbe(h');
    var xs, ys := CommonNames(m.questions, m'.questions), CommonNames(m'.questions, m.questions);
    FewSame(m, m', xs, ys);
    OutcomeByPlans(h, bytes, h', bytes');
    OutcomeByPlans(h', bytes', h, bytes);
    FirstOpposite(m, m', xs, ys);
    TieExactly(m, m', xs);
    NeverSkipped(m, m', xs);
  }

  /** Exactly when two hosts come to opposite outcomes, whatever the order of their names. */
  lemma OppositeHosts(h: Host, bytes: seq<byte>, h': Host, bytes': seq<byte>)
    requires Prepared(h, bytes) && Prepared(h', bytes')
    requires FewClaims(HostProbe(h), HostProbe(h'), CommonNames(HostProbe(h).questions, HostProbe(h').questions))
    requires FewClaims(HostProbe(h'), HostProbe(h), CommonNames(HostProbe(h').questions, HostProbe(h).questions))
    ensures Sized(Own(h, bytes)) && Sized(Received(SentProbe(h', bytes')))
    ensures Sized(Own(h', bytes')) && Sized(Received(SentProbe(h, bytes)))
    ensures TiebreakOf(Own(h', bytes'), Received(SentProbe(h, bytes)))
            == Opposite(TiebreakOf(Own(h, bytes), Received(SentProbe(h', bytes'))))
            <==> SameWinner(HostProbe(h), HostProbe(h'))
  {
    hide Prepared, HostProbe, FewClaims, CommonNames, TiebreakOf, PlanOutcome, Own, SentProbe, Received, SameWinner;
    PreparedHost(h, bytes);
    PreparedHost(h', bytes');
    OutcomeByPlans(h, bytes, h', bytes');
    OutcomeByPlans(h', bytes', h, bytes);
    OppositeExactly(HostProbe(h), HostProbe(h'));
  }

  lemma {:induction false} NeverSkipped(m: Plan, m': Plan, names: seq<seq<byte>>)
    requires ProbePlan(m) && ProbePlan(m')
    ensures FirstVerdict(m, m', names) != Skipped
    decreases |names|
  {
    hide ClaimsFor, Verdict, ProbePlan;
    if names != [] {
      NeverSkipped(m, m', names[1..]);
    }
  }

  // ----- Two winners

  /** A host with two services, the first on port 2 and the second on port 1. */
  function Rival(name: byte, first: byte, second: byte): (h: Host)
    ensures HostOk(h)
  {
    Host([name], [Some(Service([first], [95, 120], false, 2, [])), Some(Service([second], [95, 120], false, 1, []))], [])
  }

  function InstanceName(name: byte): (ls: seq<Label>) { [[name], [95, 120], UDP, LOCAL] }

  function RivalName(name: byte): (ls: seq<Label>) { [[name], LOCAL] }

  /** The claim of such a host for a service. */
  function PortKey(host: byte, port: nat): (k: Key)
    requires port < 256
  {
    Key(CLASS_IN, TYPE_SRV, [0, 0, 0, 0, 0, port] + Encode(RivalName(host)))
  }

  lemma OneByte(x: byte, y: byte)
    requires x != 0 && y != 0
    ensures SameText([x], [y]) <==> Lower(x) == Lower(y)
  {
    AllVisible([x]);
    AllVisible([y]);
    assert Visible([x])[0] == x && Visible([y])[0] == y;
  }

  lemma SameTextSelf(x: Label)
    ensures SameText(x, x)
  {
  }

  lemma InstancesDiffer(x: byte, y: byte)
    requires x != 0 && y != 0
    ensures DomainEq(Encode(InstanceName(x)), Encode(InstanceName(y))) <==> Lower(x) == Lower(y)
  {
    hide Encode, DomainEq, SameText;
    var a, b := InstanceName(x), InstanceName(y);
    DomainEqExact(a, b);
    OneByte(x, y);
    assert a[0] == [x] && b[0] == [y];
    forall i | 1 <= i < 4 ensures SameText(a[i], b[i]) {
      assert a[1..] == b[1..] && a[i] == a[1..][i - 1] && b[i] == b[1..][i - 1];
      SameTextSelf(a[i]);
    }
    if SameText([x], [y]) {
      assert forall i :: 0 <= i < 4 ==> SameText(a[i], b[i]);
    }
  }

  lemma HostsDiffer(x: byte, y: byte, z: byte)
    requires x != 0 && y != 0 && Lower(x) != Lower(y)
    ensures !DomainEq(Encode(RivalName(y)), Encode(RivalName(x)))
    ensures !DomainEq(Encode(InstanceName(z)), Encode(RivalName(x)))
  {
    hide Encode, DomainEq, SameText;
    OneByte(y, x);
    assert RivalName(y)[0] == [y] && RivalName(x)[0] == [x];
    DomainEqExact(RivalName(y), RivalName(x));
    DomainEqExact(InstanceName(z), RivalName(x));
  }

  /** The probe of such a host. */
  lemma RivalProbe(name: byte, first: byte, second: byte)
    ensures var m := HostProbe(Rival(name, first, second));
            && |m.questions| == 3 && |m.records| == 2
            && m.questions[0].name == RivalName(name)
            && m.questions[1].name == m.records[0].rr.name == InstanceName(first)
            && m.questions[2].name == m.records[1].rr.name == InstanceName(second)
            && KeyFor(m.records[0]) == PortKey(name, 2) && KeyFor(m.records[1]) == PortKey(name, 1)
            && m.records[0].target == m.records[1].target == Some(DataName(RivalName(name), false))
            && |m.records[0].fixed.value| == |m.records[1].fixed.value| == 6
  {
    hide Encode, Additional;
    var h := Rival(name, first, second);
    ProbeMsgOk(h);
    var m := ProbeMsg(h);
    NoAdditional(h, 0);
    assert ServiceType(h.services[0].value) == [[95, 120], UDP, LOCAL] == ServiceType(h.services[1].value);
    assert Instance(h.services[0].value) == InstanceName(first) && Instance(h.services[1].value) == InstanceName(second);
    FixedNamesFit(h);
    InstanceFits(h.services[0].value);
    InstanceFits(h.services[1].value);
    RivalQuestions(h, m);
    RivalRecords(h, m);
  }

  lemma RivalQuestions(h: Host, m: Msg)
    requires MsgOk(h, m) && |h.services| == 2 && h.services[0].Some? && h.services[1].Some?
    requires m.probeHost && m.probeService[0] && m.probeService[1]
    requires |Encode(HostName(h))| < DOMAIN_MAXLEN && |Encode(Instance(h.services[0].value))| < DOMAIN_MAXLEN
    requires |Encode(Instance(h.services[1].value))| < DOMAIN_MAXLEN
    ensures ProbeQuestions(h, m) == [AnyQuestion(HostName(h)), AnyQuestion(Instance(h.services[0].value)),
                                     AnyQuestion(Instance(h.services[1].value))]
  {
    hide Encode, Instance, HostName;
    assert Probes(h, m, 2) == [];
    assert Probes(h, m, 1) == [AnyQuestion(Instance(h.services[1].value))];
  }

  lemma RivalRecords(h: Host, m: Msg)
    requires MsgOk(h, m) && |h.services| == 2 && h.services[0].Some? && h.services[1].Some?
    requires m.replies == [Reply(false, false, true, false), Reply(false, false, true, false)]
    requires h.addresses == [] && !m.ptrV6
    ensures Selected(h, m) == [Srv(h, m, h.services[0].value), Srv(h, m, h.services[1].value)]
  {
    hide Srv;
    assert Services(h, m, 2) == [];
    assert OwnRecords(h, m, 1) == [Srv(h, m, h.services[1].value)];
    assert OwnRecords(h, m, 0) == [Srv(h, m, h.services[0].value)];
    assert Services(h, m, 1) == [Srv(h, m, h.services[1].value)];
  }

  /** The claims of such a host for its two services. */
  lemma RivalClaims(name: byte, first: byte, second: byte)
    requires first != 0 && second != 0 && Lower(first) != Lower(second)
    ensures var m := HostProbe(Rival(name, first, second));
            && ClaimsFor(m.records, Encode(InstanceName(first))) == [PortKey(name, 2)]
            && ClaimsFor(m.records, Encode(InstanceName(second))) == [PortKey(name, 1)]
  {
    hide Encode, DomainEq, HostProbe, KeyFor, PortKey, InstanceName, RivalName;
    var rs := HostProbe(Rival(name, first, second)).records;
    RivalProbe(name, first, second);
    InstancesDiffer(first, first);
    InstancesDiffer(first, second);
    InstancesDiffer(second, first);
    InstancesDiffer(second, second);
    forall x: seq<byte> ensures ClaimsFor(rs, x)
      == (if DomainEq(x, Encode(InstanceName(first))) then [PortKey(name, 2)] else [])
         + (if DomainEq(x, Encode(InstanceName(second))) then [PortKey(name, 1)] else [])
    {
      TwoClaims(rs, x);
    }
  }

  lemma TwoClaims(rs: seq<Record>, x: seq<byte>)
    requires |rs| == 2 && AllClaims(rs)
    ensures ClaimsFor(rs, x) == (if DomainEq(x, Encode(rs[0].rr.name)) then [KeyFor(rs[0])] else [])
                                + (if DomainEq(x, Encode(rs[1].rr.name)) then [KeyFor(rs[1])] else [])
  {
    hide Encode, DomainEq, KeyFor, Claim;
    assert rs[1..][1..] == [];
    assert ClaimsFor(rs[1..][1..], x) == [];
    assert rs[1..][0] == rs[1];
  }

  /** The higher port wins. */
  lemma PortWins(a: byte, b: byte)
    ensures OutcomeOf(Verdict([PortKey(a, 2)], [PortKey(b, 1)])) == Win
  {
    hide Encode;
    var x, y := PortKey(a, 2), PortKey(b, 1);
    assert SortFrom([], [x]) == [x] && SortFrom([], [y]) == [y] by {
      OneSorted(x);
      OneSorted(y);
    }
    CompareConcat([0, 0, 0, 0, 0, 2], [0, 0, 0, 0, 0, 1], Encode(RivalName(a)), Encode(RivalName(b)));
    LastByteDecides();
  }

  lemma OneSorted(k: Key)
    ensures SortFrom([], [k]) == [k]
  {
    assert [k][1..] == [];
  }

  lemma LastByteDecides()
    ensures CompareBytes([0, 0, 0, 0, 0, 2], [0, 0, 0, 0, 0, 1]) == Later
  {
    var x: seq<byte>, y: seq<byte> := [0, 0, 0, 0, 0], [2];
    var z: seq<byte> := [1];
    assert x + y == [0, 0, 0, 0, 0, 2] && x + z == [0, 0, 0, 0, 0, 1];
    CompareConcat(x, x, y, z);
  }

  /** The host that asks for its stronger service first wins. */
  lemma RivalWins(a: byte, b: byte, first: byte, second: byte)
    requires a != 0 && b != 0 && Lower(a) != Lower(b)
    requires first != 0 && second != 0 && Lower(first) != Lower(second)
    ensures PlanOutcome(HostProbe(Rival(a, first, second)), HostProbe(Rival(b, second, first))) == Win
  {
    hide Encode, DomainEq, HostProbe, ClaimsFor, InstanceName, RivalName, Verdict, PortKey, ProbePlan;
    var m, m' := HostProbe(Rival(a, first, second)), HostProbe(Rival(b, second, first));
    RivalProbe(a, first, second);
    RivalProbe(b, second, first);
    HostsDiffer(a, b, first);
    HostsDiffer(a, b, second);
    InstancesDiffer(first, first);
    assert DomainEq(Encode(m'.questions[2].name), Encode(InstanceName(first)));
    var names := CommonNames(m.questions, m'.questions);
    assert m.questions[1..][0] == m.questions[1];
    assert !AsksFor(m'.questions, Encode(m.questions[0].name));
    assert AsksFor(m'.questions, Encode(m.questions[1].name));
    assert names == [] + CommonNames(m.questions[1..], m'.questions);
    assert names[0] == Encode(InstanceName(first));
    RivalClaims(a, first, second);
    RivalClaims(b, second, first);
    PortWins(a, b);
  }

  // ----- Their probes are completed

  lemma RivalLengths(name: byte)
    ensures |Encode(RivalName(name))| == 9 && |Encode(InstanceName(name))| == 17
  {
    hide Encode;
    var ls, top := InstanceName(name), RivalName(name);
    EncodeCons(top);
    assert top[1..] == [LOCAL];
    EncodeCons([LOCAL]);
    RootLength([LOCAL][1..]);
    EncodeCons(ls);
    EncodeCons(ls[1..]);
    EncodeCons(ls[1..][1..]);
    assert ls[1..][1..][1..] == [LOCAL];
  }

  lemma RivalFits(name: byte, first: byte, second: byte, bytes: seq<byte>)
    requires 512 <= |bytes| <= JUMP_TARGET_LIMIT
    ensures Build(Fresh(bytes), HostProbe(Rival(name, first, second))).status == Ok
  {
    hide Encode, HostProbe, AddQuestion, AddAnswer, InstanceName, RivalName, KeyFor, RrOk, RecordOk, WellSized;
    var m, k := HostProbe(Rival(name, first, second)), Fresh(bytes);
    RivalProbe(name, first, second);
    RivalLengths(name);
    RivalLengths(first);
    RivalLengths(second);
    assert WellSized(k) by { FreshInv(bytes); InvSized(k); }
    forall q | q in m.questions ensures |Encode(q.name)| <= 17 {
      var i :| 0 <= i < |m.questions| && m.questions[i] == q;
    }
    forall a | a in m.records ensures AnswerLen(a) <= 42 && |Encode(a.rr.name)| == 17 && a.fixed != Some([]) {
      assert a == m.records[0] || a == m.records[1];
    }
    QuestionsFit(k, m.questions);
    AnswersFit(AddQuestions(k, m.questions).pkt, m.records);
  }

  lemma {:induction false} QuestionsFit(k: Pkt, qs: seq<Rr>)
    requires WellSized(k) && (forall q :: q in qs ==> RrOk(q) && |Encode(q.name)| <= 17)
    requires k.writeOffset + 21 * |qs| <= |k.bytes|
    ensures var r := AddQuestions(k, qs);
            && r.status == Ok && WellSized(r.pkt) && |r.pkt.bytes| == |k.bytes|
            && r.pkt.writeOffset <= k.writeOffset + 21 * |qs|
    decreases |qs|
  {
    hide Encode, AddQuestion, RrOk, WellSized;
    if qs != [] {
      QuestionFitsHere(k, qs[0]);
      QuestionsFit(AddQuestion(k, qs[0]).pkt, qs[1..]);
    }
  }

  lemma QuestionFitsHere(k: Pkt, q: Rr)
    requires WellSized(k) && RrOk(q) && |Encode(q.name)| <= 17 && k.writeOffset + 21 <= |k.bytes|
    ensures var r := AddQuestion(k, q);
            && r.status == Ok && WellSized(r.pkt) && |r.pkt.bytes| == |k.bytes|
            && r.pkt.writeOffset <= k.writeOffset + 21
  {
    hide Encode, Run;
    QuestionFits(k, q);
  }

  lemma {:induction false} AnswersFit(k: Pkt, rs: seq<Record>)
    requires WellSized(k) && AllOk(rs) && k.writeOffset + 100 * |rs| <= |k.bytes|
    requires forall a :: a in rs ==> AnswerLen(a) <= 42 && |Encode(a.rr.name)| == 17 && a.fixed != Some([])
    ensures AddAnswers(k, rs).status == Ok
    decreases |rs|
  {
    hide Encode, AddAnswer, RecordOk, WellSized, AnswerLen;
    if rs != [] {
      AnswerFitsHere(k, rs[0]);
      AnswersFit(AddAnswer(k, rs[0]).pkt, rs[1..]);
    }
  }

  lemma AnswerFitsHere(k: Pkt, a: Record)
    requires WellSized(k) && RecordOk(a) && AnswerLen(a) <= 42 && |Encode(a.rr.name)| == 17 && a.fixed != Some([])
    requires k.writeOffset + 100 <= |k.bytes|
    ensures var r := AddAnswer(k, a);
            && r.status == Ok && WellSized(r.pkt) && |r.pkt.bytes| == |k.bytes|
            && r.pkt.writeOffset <= k.writeOffset + 69
  {
    hide Encode, AddAnswer, AddQuestion, AnswerLen;
    AnswerSpace(k, a);
    AnswerAppends(k, a);
    AnswerEnd(k, a);
  }

  /**
    The order of the names matters: of two hosts that list the same two services in different
    order, each stronger in the one it lists first, both win, and both go on to claim both names.
   */
  lemma BothWin(bytes: seq<byte>)
    requires 512 <= |bytes| <= JUMP_TARGET_LIMIT
    ensures var h, h' := Rival(97, 115, 116), Rival(98, 116, 115);
            && Prepared(h, bytes) && Prepared(h', bytes)
            && Sized(Own(h, bytes)) && Sized(Received(SentProbe(h', bytes)))
            && Sized(Own(h', bytes)) && Sized(Received(SentProbe(h, bytes)))
            && TiebreakOf(Own(h, bytes), Received(SentProbe(h', bytes))) == Win
            && TiebreakOf(Own(h', bytes), Received(SentProbe(h, bytes))) == Win
  {
    hide HostProbe, Build, ClashFree, TiebreakOf, PlanOutcome, CommonNames, Own, SentProbe, Received, FewClaims;
    RivalPrepared(97, 115, 116, bytes);
    RivalPrepared(98, 116, 115, bytes);
    FewRivalClaims(97, 115, 116, 98, 116, 115);
    FewRivalClaims(98, 116, 115, 97, 115, 116);
    OutcomeByPlans(Rival(97, 115, 116), bytes, Rival(98, 116, 115), bytes);
    OutcomeByPlans(Rival(98, 116, 115), bytes, Rival(97, 115, 116), bytes);
    RivalWins(97, 98, 115, 116);
    RivalWins(98, 97, 116, 115);
  }

  lemma RivalPrepared(name: byte, first: byte, second: byte, bytes: seq<byte>)
    requires 512 <= |bytes| <= JUMP_TARGET_LIMIT && name >= 45 && first >= 45 && second >= 45
    ensures Prepared(Rival(name, first, second), bytes)
  {
    hide HostProbe, Build, ClashFree;
    var h := Rival(name, first, second);
    assert Printable([name]) && Printable([first]) && Printable([second]) && Printable([95, 120]);
    assert PrintableHost(h);
    PrintableClashFree(h);
    RivalFits(name, first, second, bytes);
  }

  lemma {:induction false} FewerClaims(rs: seq<Record>, name: seq<byte>)
    requires AllClaims(rs)
    ensures |ClaimsFor(rs, name)| <= |rs|
    decreases |rs|
  {
    hide DomainEq, Encode, KeyFor;
    if rs != [] {
      FewerClaims(rs[1..], name);
    }
  }

  lemma FewRivalClaims(a: byte, x: byte, y: byte, b: byte, x': byte, y': byte)
    ensures var m, m' := HostProbe(Rival(a, x, y)), HostProbe(Rival(b, x', y'));
            FewClaims(m, m', CommonNames(m.questions, m'.questions))
  {
    hide HostProbe, ClaimsFor, CommonNames, KeyFor, PortKey, Encode;
    var m, m' := HostProbe(Rival(a, x, y)), HostProbe(Rival(b, x', y'));
    RivalProbe(a, x, y);
    RivalProbe(b, x', y');
    forall name: seq<byte> ensures |ClaimsFor(m.records, name)| <= 2 && |ClaimsFor(m'.records, name)| <= 2 {
      FewerClaims(m.records, name);
      FewerClaims(m'.records, name);
    }
  }
}
