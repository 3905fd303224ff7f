/**
  Families of names without clashes: packets that always read back, as long as no name of more
  than five labels follows more than five others.
 */
module Families {
  import opened Bytes
  import opened DomainNames
  import opened NameReader
  import opened NameWriter
  import opened NameRoundTrip
  import opened NameRuns
  import opened NameLists
  import opened Records
  import opened RecordRuns
  import opened SelfParse
  import opened Packets

  /** A name whose labels alone do not bound the jumps of reading it. */
  predicate Long(ls: seq<Label>) {
    |ls| > MAX_JUMPS
  }

  /** Names that do not clash, and of which the long ones have top labels of their own. */
  ghost predicate Family(names: set<seq<Label>>) {
    && (forall ls :: ls in names ==> ls != [] && |Encode(ls)| < DOMAIN_MAXLEN)
    && (forall t, ls :: t in names && ls in names ==> NoClash(t, ls))
    && (forall t, ls :: t in names && ls in names && Long(t) && !Long(ls) ==> t[|t| - 1] != ls[|ls| - 1])
  }

  /** The number of long names in a list of stored names. */
  function Longs(l: seq<Entry>): (n: nat) {
    if l == [] then 0 else Longs(l[..|l| - 1]) + if Long(l[|l| - 1].ls) then 1 else 0
  }

  lemma {:induction false} LongsGrow(l: seq<Entry>, n: nat)
    requires n < |l|
    ensures Longs(l[..n]) + (if Long(l[n].ls) then 1 else 0) <= Longs(l)
  {
    if n < |l| - 1 {
      LongsGrow(l[..|l| - 1], n);
      assert l[..|l| - 1][..n] == l[..n];
    }
  }

  /**
    A list of names of the family: a long name takes no more jumps than there are long names in
    front of it, is stored once, and is among `written`.
   */
  ghost predicate Fine(l: seq<Entry>, names: set<seq<Label>>, written: set<seq<Label>>) {
    && (forall n :: 0 <= n < |l| ==> l[n].ls in names)
    && (forall n :: 0 <= n < |l| && Long(l[n].ls) ==> l[n].ls in written && l[n].j <= Longs(l[..n]))
    && (forall m, n :: 0 <= m < n < |l| && Long(l[n].ls) ==> l[m].ls != l[n].ls)
  }

  lemma {:induction false} LongsBound(l: seq<Entry>, names: set<seq<Label>>, written: set<seq<Label>>)
    requires Fine(l, names, written)
    ensures Longs(l) <= |written|
  {
    if l != [] {
      var front, last := l[..|l| - 1], l[|l| - 1];
      assert forall n :: 0 <= n < |front| ==> front[..n] == l[..n];
      LongsBound(front, names, if Long(last.ls) then written - {last.ls} else written);
    }
  }

  /** A match within the family: long names match long ones only. */
  lemma SameTop(names: set<seq<Label>>, tls: seq<Label>, b: nat, ls: seq<Label>, i: nat)
    requires Family(names) && tls in names && ls in names
    requires b < |tls| && i < |ls| && tls[b..] == ls[i..]
    ensures Long(tls) <==> Long(ls)
  {
    hide Encode, NoClash;
    assert tls[|tls| - 1] == tls[b..][|tls| - b - 1];
    assert ls[|ls| - 1] == ls[i..][|ls| - i - 1];
  }

  lemma FamilyNoClash(l: seq<Entry>, names: set<seq<Label>>, written: set<seq<Label>>, ls: seq<Label>)
    requires Family(names) && Fine(l, names, written) && ls in names
    ensures ls != [] && |Encode(ls)| < DOMAIN_MAXLEN
    ensures forall e :: e in l ==> NoClash(e.ls, ls)
  {
    hide Encode, NoClash, Longs;
  }

  /** The jumps behind a match: fewer than the labels, or than the long names stored. */
  lemma FamilyWriteSafe(k: Pkt, l: seq<Entry>, names: set<seq<Label>>, written: set<seq<Label>>,
                        ls: seq<Label>, skip: bool)
    requires Family(names) && Lists(k, l) && Fine(l, names, written) && ls in names && |Encode(ls)| < DOMAIN_MAXLEN
    requires Long(ls) ==> |written| <= MAX_JUMPS
    ensures Safe(k, ls, skip)
    ensures var m := Chosen(k, Encode(ls), skip);
            Long(ls) && m.At? ==> Jumps(k.bytes, m.from, 0) + 1 <= Longs(l)
  {
    hide Encode, Chosen, Aligned, Jumps, Start, NoClash, Family, Lists;
    FamilyNoClash(l, names, written, ls);
    ListsInv(k, l);
    JumpBound(k, ls, skip);
    var n, i, b := ChosenEntry(k, l, ls, skip);
    if Chosen(k, Encode(ls), skip) != NoMatch {
      SameTop(names, l[n].ls, b, ls, i);
      if Long(ls) {
        LongsGrow(l, n);
        LongsBound(l, names, written);
      }
    }
  }

  /** A long name that is already stored is found whole. */
  lemma LongFoundWhole(k: Pkt, l: seq<Entry>, names: set<seq<Label>>, written: set<seq<Label>>, e: Entry, n: nat)
    requires Family(names) && Lists(k, l) && Fine(l, names, written) && |written| <= MAX_JUMPS
    requires n < |l| && l[n].ls == e.ls && Long(e.ls) && |Encode(e.ls)| < DOMAIN_MAXLEN
    requires WrittenAs(k, e, false)
    ensures e.a == 0
  {
    hide Encode, Chosen, Jumps, Start, Family, StoredName, Lists;
    EntryBounds(k, l, n);
    LongsGrow(l, n);
    LongsBound(l, names, written);
    ChosenIsBest(k, l, e.ls, n, 0, 0);
    StartZero(e.ls);
    StartPositive(e.ls, e.a);
  }

  lemma EntryBounds(k: Pkt, l: seq<Entry>, n: nat)
    requires Lists(k, l) && n < |l| && l[n].ls != []
    ensures 0 < l[n].a <= |l[n].ls|
  {
    hide StoredName;
    assert Stored(k, k.offsets[n], l[n]);
    StoredBounds(Done(k), k.offsets[n], l[n].ls, l[n].j, l[n].a);
  }

  function Marked(written: set<seq<Label>>, ls: seq<Label>): (w: set<seq<Label>>) {
    if Long(ls) then written + {ls} else written
  }

  /** Writing a name of the family is safe and keeps the list fine. */
  lemma FamilyWrite(k: Pkt, l: seq<Entry>, names: set<seq<Label>>, written: set<seq<Label>>, ls: seq<Label>, skip: bool)
    returns (l': seq<Entry>)
    requires Family(names) && Lists(k, l) && Fine(l, names, written) && ls in names && |Encode(ls)| < DOMAIN_MAXLEN
    requires Long(ls) ==> !skip && |written| <= MAX_JUMPS
    requires WriteDomain(k, Encode(ls), skip).status == Ok
    ensures Safe(k, ls, skip)
    ensures Lists(WriteDomain(k, Encode(ls), skip).pkt, l') && Fine(l', names, Marked(written, ls))
  {
    hide Encode, WriteDomain, Safe, Chosen, Jumps, Start, Family, Lists, Longs, NoClash;
    FamilyNoClash(l, names, written, ls);
    FamilyWriteSafe(k, l, names, written, ls, skip);
    var e: Entry;
    e, l' := WriteListed(k, l, ls, skip);
    if l' != l {
      assert forall n :: 0 <= n < |l| ==> l'[..n] == l[..n];
      assert l'[..|l|] == l;
      forall n | 0 <= n < |l| && Long(ls) ensures l[n].ls != ls {
        if l[n].ls == ls {
          LongFoundWhole(k, l, names, written, e, n);
        }
      }
    }
  }

  // ----- Runs, questions and records

  /** The stores behind the first name of a question or record: only short names. */
  ghost predicate ShortNames(ops: seq<Op>, names: set<seq<Label>>) {
    forall n :: 0 <= n < |ops| && ops[n].Name? ==> ops[n].ls in names && !Long(ops[n].ls)
  }

  lemma FamilyStep(k: Pkt, l: seq<Entry>, names: set<seq<Label>>, written: set<seq<Label>>, op: Op)
    returns (l': seq<Entry>)
    requires Family(names) && Lists(k, l) && Fine(l, names, written) && WellSized(k)
    requires op.Name? ==> op.ls in names && !Long(op.ls) && |Encode(op.ls)| < DOMAIN_MAXLEN
    requires Apply(k, op).status == Ok
    ensures op.Name? ==> Safe(k, op.ls, op.skip)
    ensures Lists(Apply(k, op).pkt, l') && Fine(l', names, written)
  {
    hide Encode, WriteDomain, Safe, Family, Lists, Fine, TakeRaw;
    if op.Raw? {
      RawKeepsLists(k, l, op.data);
      l' := l;
    } else {
      l' := FamilyWrite(k, l, names, written, op.ls, op.skip);
    }
  }

  lemma AllSafeStep(k: Pkt, ops: seq<Op>)
    requires ops != [] && WellSized(k) && Writable(ops) && Run(k, ops).status == Ok
    ensures var r := Apply(k, ops[0]);
            && r.status == Ok && WellSized(r.pkt) && Writable(ops[1..]) && Run(r.pkt, ops[1..]) == Run(k, ops)
            && (AllSafe(k, ops) <==> (ops[0].Name? ==> Safe(k, ops[0].ls, ops[0].skip)) && AllSafe(r.pkt, ops[1..]))
  {
    hide Apply, Encode, Safe;
    ApplyAppends(k, ops[0]);
  }

  lemma ShortStep(ops: seq<Op>, names: set<seq<Label>>)
    requires ops != [] && ShortNames(ops, names) && Writable(ops)
    ensures ShortNames(ops[1..], names)
    ensures var op := ops[0]; op.Name? ==> op.ls in names && !Long(op.ls) && |Encode(op.ls)| < DOMAIN_MAXLEN
  {
    hide Encode;
  }

  lemma NoOps(k: Pkt, ops: seq<Op>)
    requires ops == [] && WellSized(k)
    ensures Writable(ops) && Run(k, ops) == Written(Ok, k) && AllSafe(k, ops)
  {
  }

  lemma {:induction false} FamilyRun(k: Pkt, l: seq<Entry>, names: set<seq<Label>>, written: set<seq<Label>>,
                                     ops: seq<Op>) returns (l': seq<Entry>)
    requires Family(names) && Lists(k, l) && Fine(l, names, written) && ShortNames(ops, names)
    requires WellSized(k) && Writable(ops) && Run(k, ops).status == Ok
    ensures AllSafe(k, ops)
    ensures Lists(Run(k, ops).pkt, l') && Fine(l', names, written)
    decreases |ops|
  {
    hide Encode, Apply, Safe, Family, Lists, Fine, Run, AllSafe, Writable, ShortNames, Long;
    l' := l;
    if ops == [] {
      NoOps(k, ops);
    } else {
      AllSafeStep(k, ops);
      ShortStep(ops, names);
      var l1 := FamilyStep(k, l, names, written, ops[0]);
      l' := FamilyRun(Apply(k, ops[0]).pkt, l1, names, written, ops[1..]);
    }
  }

  /** A name that may be long, and short ones behind it. */
  lemma FamilyOwnerRun(k: Pkt, l: seq<Entry>, names: set<seq<Label>>, written: set<seq<Label>>,
                       ls: seq<Label>, rest: seq<Op>) returns (l': seq<Entry>)
    requires Family(names) && Lists(k, l) && Fine(l, names, written)
    requires ls in names && (Long(ls) ==> |written| <= MAX_JUMPS) && ShortNames(rest, names)
    requires WellSized(k) && |Encode(ls)| < DOMAIN_MAXLEN
    requires Writable([Name(ls, false)] + rest) && Run(k, [Name(ls, false)] + rest).status == Ok
    ensures Safe(k, ls, false) && AllSafe(k, [Name(ls, false)] + rest)
    ensures Lists(Run(k, [Name(ls, false)] + rest).pkt, l') && Fine(l', names, Marked(written, ls))
  {
    hide Encode, WriteDomain, Safe, Family, Lists, Fine;
    var op := Name(ls, false);
    assert ([op] + rest)[1..] == rest;
    ApplyAppends(k, op);
    var l1 := FamilyWrite(k, l, names, written, ls, false);
    l' := FamilyRun(Apply(k, op).pkt, l1, names, Marked(written, ls), rest);
  }

  lemma FamilyQuestion(k: Pkt, l: seq<Entry>, names: set<seq<Label>>, written: set<seq<Label>>, q: Rr)
    returns (l': seq<Entry>)
    requires Family(names) && Lists(k, l) && Fine(l, names, written)
    requires WellSized(k) && RrOk(q) && q.name in names && (Long(q.name) ==> |written| <= MAX_JUMPS)
    requires AddQuestion(k, q).status == Ok
    ensures Safe(k, q.name, false)
    ensures Lists(AddQuestion(k, q).pkt, l') && Fine(l', names, Marked(written, q.name))
  {
    hide Encode, Safe, Family, Lists, Fine, Run;
    var rest := [Raw(Be16(q.rtype)), Raw(Be16(ClassField(q)))];
    assert QuestionOps(q) == [Name(q.name, false)] + rest;
    l' := FamilyOwnerRun(k, l, names, written, q.name, rest);
  }

  /** The names of a record belong to the family; only its owner may be long. */
  ghost predicate RecordUses(a: Record, names: set<seq<Label>>) {
    a.rr.name in names && (a.target.Some? ==> a.target.value.ls in names && !Long(a.target.value.ls))
  }

  lemma FamilyAnswer(k: Pkt, l: seq<Entry>, names: set<seq<Label>>, written: set<seq<Label>>, a: Record)
    returns (l': seq<Entry>)
    requires Family(names) && Lists(k, l) && Fine(l, names, written)
    requires Inv(k) && RecordOk(a) && RecordUses(a, names) && (Long(a.rr.name) ==> |written| <= MAX_JUMPS)
    requires AddAnswer(k, a).status == Ok
    ensures SafeAnswer(k, a)
    ensures Lists(AddAnswer(k, a).pkt, l') && Fine(l', names, Marked(written, a.rr.name))
  {
    hide Encode, Safe, Family, Lists, Fine, Run, AddAnswer, AllSafe;
    FamilyWriteSafe(k, l, names, written, a.rr.name, false);
    AnswerIsRun(k, a);
    var len := DataLen(k, a);
    var rest := [Raw(Be16(a.rr.rtype)), Raw(Be16(ClassField(a.rr)))] + ([Raw(Be32(a.ttl)), Raw(Be16(len))] + DataOps(a));
    assert AnswerOps(a, len) == [Name(a.rr.name, false)] + rest;
    l' := FamilyOwnerRun(k, l, names, written, a.rr.name, rest);
  }

  // ----- Whole packets

  /** The owner names of a packet in order: no long one follows more than five others. */
  ghost predicate Sparse(written: set<seq<Label>>, owners: seq<seq<Label>>)
    decreases |owners|
  {
    owners != [] ==>
      (Long(owners[0]) ==> |written| <= MAX_JUMPS) && Sparse(Marked(written, owners[0]), owners[1..])
  }

  /** The long names among the owners, and those written before them. */
  function AllMarked(written: set<seq<Label>>, owners: seq<seq<Label>>): (w: set<seq<Label>>)
    decreases |owners|
  {
    if owners == [] then written else AllMarked(Marked(written, owners[0]), owners[1..])
  }

  lemma {:induction false} SparseConcat(written: set<seq<Label>>, xs: seq<seq<Label>>, ys: seq<seq<Label>>)
    ensures Sparse(written, xs + ys) <==> Sparse(written, xs) && Sparse(AllMarked(written, xs), ys)
    ensures AllMarked(written, xs + ys) == AllMarked(AllMarked(written, xs), ys)
    decreases |xs|
  {
    if xs == [] {
      assert xs + ys == ys;
    } else {
      assert (xs + ys)[1..] == xs[1..] + ys;
      SparseConcat(Marked(written, xs[0]), xs[1..], ys);
    }
  }

  function QuestionOwners(qs: seq<Rr>): (owners: seq<seq<Label>>)
    decreases |qs|
  {
    if qs == [] then [] else [qs[0].name] + QuestionOwners(qs[1..])
  }

  function Owners(rs: seq<Record>): (owners: seq<seq<Label>>)
    decreases |rs|
  {
    if rs == [] then [] else [rs[0].rr.name] + Owners(rs[1..])
  }

  lemma {:induction false} FamilyQuestions(k: Pkt, l: seq<Entry>, names: set<seq<Label>>, written: set<seq<Label>>,
                                           qs: seq<Rr>) returns (l': seq<Entry>)
    requires Family(names) && Lists(k, l) && Fine(l, names, written) && Inv(k)
    requires (forall q :: q in qs ==> RrOk(q) && q.name in names) && Sparse(written, QuestionOwners(qs))
    requires AddQuestions(k, qs).status == Ok
    ensures QuestionsSafe(k, qs)
    ensures Lists(AddQuestions(k, qs).pkt, l') && Fine(l', names, AllMarked(written, QuestionOwners(qs)))
    decreases |qs|
  {
    l' := l;
    hide Encode, Safe, Family, Lists, Fine, AddQuestion;
    if qs != [] {
      var l1 := FamilyQuestion(k, l, names, written, qs[0]);
      QuestionKeepsInv(k, qs[0]);
      assert QuestionOwners(qs)[1..] == QuestionOwners(qs[1..]);
      l' := FamilyQuestions(AddQuestion(k, qs[0]).pkt, l1, names, Marked(written, qs[0].name), qs[1..]);
    }
  }

  lemma {:induction false} FamilyAnswers(k: Pkt, l: seq<Entry>, names: set<seq<Label>>, written: set<seq<Label>>,
                                         rs: seq<Record>)
    requires Family(names) && Lists(k, l) && Fine(l, names, written) && Inv(k)
    requires (forall a :: a in rs ==> RecordOk(a) && RecordUses(a, names)) && Sparse(written, Owners(rs))
    requires AddAnswers(k, rs).status == Ok
    ensures AnswersSafe(k, rs)
    decreases |rs|
  {
    hide Encode, Safe, SafeAnswer, Family, Lists, Fine, AddAnswer;
    if rs != [] {
      var l1 := FamilyAnswer(k, l, names, written, rs[0]);
      AnswerKeepsInv(k, rs[0]);
      assert Owners(rs)[1..] == Owners(rs[1..]);
      FamilyAnswers(AddAnswer(k, rs[0]).pkt, l1, names, Marked(written, rs[0].rr.name), rs[1..]);
    }
  }

  /** All names of the plan belong to the family. */
  ghost predicate PlanUses(m: Plan, names: set<seq<Label>>) {
    (forall q :: q in m.questions ==> q.name in names) && (forall a :: a in m.records ==> RecordUses(a, names))
  }

  function PlanOwners(m: Plan): (owners: seq<seq<Label>>) {
    QuestionOwners(m.questions) + Owners(m.records)
  }

  /** A packet with nothing behind its header yet. */
  function Fresh(bytes: seq<byte>): (k: Pkt) {
    Pkt(bytes, SIZEOF_DNS_HDR, seq(NUM_DOMAIN_OFFSETS, _ => 0))
  }

  /**
    Packets of names that do not clash are safe throughout, as long as no name of more than five
    labels follows more than five others.
   */
  lemma FamilyPacketSafe(bytes: seq<byte>, names: set<seq<Label>>, m: Plan)
    requires SIZEOF_DNS_HDR <= |bytes| <= JUMP_TARGET_LIMIT
    requires Family(names) && PlanOk(m) && PlanUses(m, names) && Sparse({}, PlanOwners(m))
    requires Build(Fresh(bytes), m).status == Ok
    ensures Inv(Fresh(bytes)) && PlanSafe(Fresh(bytes), m)
  {
    hide AddQuestions, AddAnswers, QuestionsSafe, AnswersSafe, Encode, Family, Sparse, AllMarked;
    var k := Fresh(bytes);
    assert Lists(k, []);
    ListsInv(k, []);
    SparseConcat({}, QuestionOwners(m.questions), Owners(m.records));
    var l := FamilyQuestions(k, [], names, {}, m.questions);
    QuestionsKeepInv(k, m.questions);
    FamilyAnswers(AddQuestions(k, m.questions).pkt, l, names, AllMarked({}, QuestionOwners(m.questions)), m.records);
  }
}
