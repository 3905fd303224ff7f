/**
  What becomes of every packet that arrives: handled at once, stored and handled later, or freed
  without an answer.
 */
module TcFates {
  import opened TcStore

  // ----- Kinds of packets

  /** A query that comes from the link. */
  predicate IsQuery(p: Packet) {
    p.ours && !p.response
  }

  /** A question whose known answers are still to come. */
  predicate IsTruncated(p: Packet) {
    IsQuery(p) && p.questions > 0 && p.truncated
  }

  /** Question `i` is the first of the list to come from `source`. */
  predicate NewestFrom(qs: seq<Question>, source: nat, i: nat) {
    i < |qs| && qs[i].source == source && forall k :: 0 <= k < i ==> qs[k].source != source
  }

  ghost predicate HasFrom(qs: seq<Question>, source: nat) {
    exists i :: 0 <= i < |qs| && qs[i].source == source
  }

  /** Known answers and nothing else, for a question that is stored. */
  ghost predicate IsKnownAnswer(s: Store, p: Packet) {
    IsQuery(p) && p.questions == 0 && p.answers > 0 && HasFrom(s.pending, p.source)
  }

  lemma FindIsNewest(qs: seq<Question>, source: nat)
    ensures HasFrom(qs, source) <==> FindSource(qs, source) < |qs|
    ensures HasFrom(qs, source) ==> NewestFrom(qs, source, FindSource(qs, source))
  {
    hide FindSource;
  }

  // ----- Arrivals

  /** What is left of the store as it was: nothing is taken out, handled or forgotten. */
  ghost predicate Undisturbed(s: Store, s': Store) {
    s'.pending == s.pending && s'.timers == s.timers
  }

  /** The question is answered without further answers, and its packet freed. */
  ghost predicate HandledAtOnce(s: Store, s': Store, id: nat, source: nat) {
    Undisturbed(s, s') && s'.handled == s.handled + [Question(id, source, [])] && s'.freed == s.freed + [id]
  }

  ghost predicate FreedUnanswered(s: Store, s': Store, id: nat) {
    Undisturbed(s, s') && s'.handled == s.handled && s'.freed == s.freed + [id]
  }

  /** The question waits at the head of the list, with a timer of its own. */
  ghost predicate StoredAsQuestion(s: Store, s': Store, id: nat, source: nat) {
    && s'.pending == [Question(id, source, [])] + s.pending && s'.timers == s.timers + [id]
    && s'.handled == s.handled && s'.freed == s.freed
  }

  /** The answers wait with question `i`, in front of those that came before. */
  ghost predicate StoredWith(s: Store, s': Store, id: nat, i: nat) {
    && i < |s.pending| && |s'.pending| == |s.pending| && s'.timers == s.timers
    && s'.pending[i] == Question(s.pending[i].pbuf, s.pending[i].source, [id] + s.pending[i].answers)
    && (forall k :: 0 <= k < |s.pending| && k != i ==> s'.pending[k] == s.pending[k])
    && s'.handled == s.handled && s'.freed == s.freed
  }

  /**
    The fate of a packet in any run. It is handled at once if and only if it is a query and neither
    truncated nor known answers for a stored question; it is stored if and only if it is one of
    these two and fewer than four packets are stored: a truncated question in front of all others,
    known answers with the newest question of their source. All others are freed unanswered.
   */
  lemma ArrivalFate(es: seq<Event>, p: Packet)
    ensures var s := Run(EMPTY, es);
            var s', id := Step(s, Arrive(p)), |s.sources|;
            && s'.sources == s.sources + [p.source]
            && (HandledAtOnce(s, s', id, p.source) <==> IsQuery(p) && !IsTruncated(p) && !IsKnownAnswer(s, p))
            && (StoredAsQuestion(s, s', id, p.source) <==> IsTruncated(p) && |Stored(s.pending)| < 4)
            && ((exists i :: NewestFrom(s.pending, p.source, i) && StoredWith(s, s', id, i))
                <==> IsKnownAnswer(s, p) && |Stored(s.pending)| < 4)
            && (FreedUnanswered(s, s', id)
                <==> !IsQuery(p) || ((IsTruncated(p) || IsKnownAnswer(s, p)) && |Stored(s.pending)| >= 4))
  {
    hide Run, FindSource, Stored;
    EmptyOwned();
    RunKeeps(EMPTY, es);
    var s := Run(EMPTY, es);
    var s', id, i := Step(s, Arrive(p)), |s.sources|, FindSource(s.pending, p.source);
    FindIsNewest(s.pending, p.source);
    assert s.used == |Stored(s.pending)|;
    if IsKnownAnswer(s, p) && s.used < 4 {
      assert StoredWith(s, s', id, i);
    }
    assert s.handled + [Question(id, p.source, [])] != s.handled && s.freed + [id] != s.freed;
    assert |[Question(id, p.source, [])] + s.pending| == |s.pending| + 1;
  }

  // ----- Timers

  /** The one question `id` of the list is taken out. */
  ghost predicate TakenOut(qs: seq<Question>, qs': seq<Question>, id: nat, i: nat) {
    && i < |qs| && qs[i].pbuf == id && qs' == qs[..i] + qs[i + 1..]
    && forall k :: 0 <= k < |qs'| ==> qs'[k].pbuf != id
  }

  /**
    A timer that fires handles its own question, with all known answers that wait with it, and
    frees its packets; every other question keeps its place and its timer.
   */
  lemma TimerFate(es: seq<Event>, k: nat)
    requires k < |Run(EMPTY, es).timers|
    ensures var s := Run(EMPTY, es);
            var s' := Step(s, TimerFires(k));
            && s'.timers == s.timers[..k] + s.timers[k + 1..] && s'.sources == s.sources
            && exists i: nat :: TakenOut(s.pending, s'.pending, s.timers[k], i)
                 && s'.handled == s.handled + [s.pending[i]]
                 && s'.freed == s.freed + s.pending[i].answers + [s.pending[i].pbuf]
  {
    hide Run, FindPacket, Owned;
    EmptyOwned();
    RunKeeps(EMPTY, es);
    var s := Run(EMPTY, es);
    var s', i := Expire(s, k), FindPacket(s.pending, s.timers[k]);
    ExpireKeepsOthers(s, k);
    assert TakenOut(s.pending, s'.pending, s.timers[k], i);
  }

  // ----- Handled once

  /** How often question `id` is in the store or has been handled. */
  function Times(s: Store, id: nat): (n: nat) {
    multiset(Questions(s.pending))[id] + multiset(Questions(s.handled))[id]
  }

  lemma {:induction false} QuestionsConcat(a: seq<Question>, b: seq<Question>)
    ensures Questions(a + b) == Questions(a) + Questions(b)
    decreases |a|
  {
    if a == [] {
      assert a + b == b;
    } else {
      assert (a + b)[1..] == a[1..] + b;
      QuestionsConcat(a[1..], b);
    }
  }

  lemma OneQuestion(q: Question)
    ensures Questions([q]) == [q.pbuf]
  {
    assert [q][1..] == [];
  }

  lemma ArriveTimes(s: Store, p: Packet, id: nat)
    requires Owned(s) && id < |s.sources|
    ensures Times(Step(s, Arrive(p)), id) == Times(s, id)
  {
    hide Questions, FindSource, Stored, Arrived, Owned;
    var q, i := Question(|s.sources|, p.source, []), FindSource(s.pending, p.source);
    QuestionsConcat(s.handled, [q]);
    QuestionsConcat([q], s.pending);
    OneQuestion(q);
    if i < |s.pending| {
      ReceiveAnswer(s.pending, i, |s.sources|);
    }
  }

  lemma FireTimes(s: Store, k: nat, id: nat)
    requires Owned(s) && k < |s.timers|
    ensures Times(Step(s, TimerFires(k)), id) == Times(s, id)
  {
    hide Questions, FindPacket, Stored, Arrived, Owned, Remove;
    ExpireKeeps(s, k);
    var i := FindPacket(s.pending, s.timers[k]);
    StoredAround(s.pending, i);
    QuestionsConcat(s.handled, [s.pending[i]]);
    OneQuestion(s.pending[i]);
  }

  /** A question in the store stays there or is handled, and a question handled is not seen again. */
  lemma StepTimes(s: Store, e: Event, id: nat)
    requires Owned(s) && id < |s.sources|
    ensures Times(Step(s, e), id) == Times(s, id)
  {
    hide Times, Owned;
    match e
    case Arrive(p) => ArriveTimes(s, p, id);
    case TimerFires(k) =>
      if k < |s.timers| {
        FireTimes(s, k, id);
      }
  }

  lemma {:induction false} RunTimes(s: Store, es: seq<Event>, id: nat)
    requires Owned(s) && id < |s.sources|
    ensures Owned(Run(s, es)) && Times(Run(s, es), id) == Times(s, id)
    decreases |es|
  {
    hide Owned, Step, Times;
    if es != [] {
      var s1 := Step(s, es[0]);
      StepTimes(s, es[0], id);
      assert s1 == Run(s, [es[0]]) by { OneStep(s, es[0]); }
      RunKeeps(s, [es[0]]);
      SourcesGrow(s, es[0]);
      RunTimes(s1, es[1..], id);
    }
  }

  lemma OneStep(s: Store, e: Event)
    ensures Run(s, [e]) == Step(s, e)
  {
    hide Step;
    var es := [e];
    assert es[1..] == [];
  }

  lemma SourcesGrow(s: Store, e: Event)
    ensures s.sources <= Step(s, e).sources
  {
  }

  lemma {:induction false} NotHandled(handled: seq<Question>, sources: seq<nat>, id: nat)
    requires (forall q :: q in handled ==> ChainOk(sources, q)) && id >= |sources|
    ensures multiset(Questions(handled))[id] == 0
  {
    hide ChainOk;
    if handled != [] {
      NotHandled(handled[1..], sources, id);
      ChainBound(sources, handled[0]);
      assert multiset([handled[0].pbuf] + Questions(handled[1..]))
          == multiset([handled[0].pbuf]) + multiset(Questions(handled[1..]));
    }
  }

  /** A packet that has not arrived is not there. */
  lemma NotYet(es: seq<Event>)
    ensures var s := Run(EMPTY, es); Owned(s) && Times(s, |s.sources|) == 0
  {
    hide Run, Stored, Questions, Arrived;
    EmptyOwned();
    RunKeeps(EMPTY, es);
    RunChains(EMPTY, es);
    var s := Run(EMPTY, es);
    NotHandled(s.handled, s.sources, |s.sources|);
    ArrivedOnce(|s.sources|, |s.sources|);
    StoredQuestions(s.pending);
  }

  lemma ArrivalTimes(s: Store, p: Packet)
    requires Owned(s) && Times(s, |s.sources|) == 0
    ensures Owned(Step(s, Arrive(p)))
    ensures Times(Step(s, Arrive(p)), |s.sources|)
         == if (IsQuery(p) && !IsTruncated(p) && !IsKnownAnswer(s, p)) || (IsTruncated(p) && |Stored(s.pending)| < 4)
            then 1 else 0
  {
    hide Questions, FindSource, Stored, Arrived;
    var q, i := Question(|s.sources|, p.source, []), FindSource(s.pending, p.source);
    ReceiveKeeps(s, p);
    FindIsNewest(s.pending, p.source);
    QuestionsConcat(s.handled, [q]);
    QuestionsConcat([q], s.pending);
    OneQuestion(q);
    if i < |s.pending| {
      ReceiveAnswer(s.pending, i, |s.sources|);
    }
  }

  lemma SourcesLonger(s: Store, p: Packet)
    ensures |Step(s, Arrive(p)).sources| == |s.sources| + 1
  {
  }

  /** A question is in the list as long as its timer is pending. */
  lemma StillPending(t: Store, id: nat)
    requires Owned(t)
    ensures multiset(Questions(t.pending))[id] == if id in t.timers then 1 else 0
  {
    hide Stored, Questions, Arrived;
    QuestionOnce(t, id);
    assert id in t.timers <==> id in multiset(t.timers);
  }

  lemma HandledGrows(s: Store, e: Event)
    ensures s.handled <= Step(s, e).handled
  {
  }

  lemma {:induction false} HandledStays(s: Store, es: seq<Event>, id: nat)
    ensures multiset(Questions(Run(s, es).handled))[id] >= multiset(Questions(s.handled))[id]
    decreases |es|
  {
    hide Step, Questions;
    if es != [] {
      var s1 := Step(s, es[0]);
      HandledGrows(s, es[0]);
      QuestionsConcat(s.handled, s1.handled[|s.handled|..]);
      assert s1.handled == s.handled + s1.handled[|s.handled|..];
      HandledStays(s1, es[1..], id);
    }
  }

  lemma HandledNow(s: Store, p: Packet)
    requires IsQuery(p) && !IsTruncated(p) && !IsKnownAnswer(s, p)
    ensures multiset(Questions(Step(s, Arrive(p)).handled))[|s.sources|] >= 1
  {
    hide Questions, FindSource;
    var q := Question(|s.sources|, p.source, []);
    FindIsNewest(s.pending, p.source);
    QuestionsConcat(s.handled, [q]);
    OneQuestion(q);
    assert Step(s, Arrive(p)).handled == s.handled + [q];
  }

  lemma TruncatedIsQuery(p: Packet)
    ensures IsTruncated(p) ==> IsQuery(p)
  {
  }

  /**
    How often a packet is handled as a question, in any run that goes on behind its arrival: one
    that is handled at once is so once and for all; a truncated one that was stored is handled
    exactly once, and that when its timer is no longer pending; no other packet ever is.
   */
  lemma HandledOnce(es: seq<Event>, p: Packet, later: seq<Event>)
    ensures var s := Run(EMPTY, es);
            var t, id := Run(Step(s, Arrive(p)), later), |s.sources|;
            multiset(Questions(t.handled))[id]
            == if IsTruncated(p) then (if |Stored(s.pending)| < 4 && id !in t.timers then 1 else 0)
               else if IsQuery(p) && !IsKnownAnswer(s, p) then 1
               else 0
  {
    hide Run, Stored, Questions, Arrived, Step, IsTruncated, IsKnownAnswer, FindPacket;
    var s := Run(EMPTY, es);
    var s1, id := Step(s, Arrive(p)), |s.sources|;
    NotYet(es);
    ArrivalTimes(s, p);
    SourcesLonger(s, p);
    RunTimes(s1, later, id);
    var t := Run(s1, later);
    StillPending(t, id);
    if IsQuery(p) && !IsTruncated(p) && !IsKnownAnswer(s, p) {
      HandledNow(s, p);
      HandledStays(s1, later, id);
    }
    assert IsTruncated(p) ==> IsQuery(p) by { TruncatedIsQuery(p); }
  }

  // ----- Known answers

  predicate Carries(q: Question, question: nat, id: nat) {
    q.pbuf == question && id in q.answers
  }

  /** Packet `id` is with question `question`, stored or handled. */
  predicate IsWith(s: Store, question: nat, id: nat) {
    || (exists k :: 0 <= k < |s.pending| && Carries(s.pending[k], question, id))
    || (exists k :: 0 <= k < |s.handled| && Carries(s.handled[k], question, id))
  }

  lemma ArrivalKeepsWith(s: Store, p: Packet, question: nat, id: nat)
    requires IsWith(s, question, id)
    ensures IsWith(Step(s, Arrive(p)), question, id)
  {
    hide FindSource;
    var s' := Step(s, Arrive(p));
    if k :| 0 <= k < |s.pending| && Carries(s.pending[k], question, id) {
      if |s'.pending| > |s.pending| {
        assert s'.pending[k + 1] == s.pending[k];
      } else {
        assert Carries(s'.pending[k], question, id);
      }
    } else {
      var k :| 0 <= k < |s.handled| && Carries(s.handled[k], question, id);
      assert s'.handled[k] == s.handled[k];
    }
  }

  lemma TimerKeepsWith(s: Store, n: nat, question: nat, id: nat)
    requires IsWith(s, question, id)
    ensures IsWith(Step(s, TimerFires(n)), question, id)
  {
    hide FindPacket;
    var s' := Step(s, TimerFires(n));
    if s' != s {
      var i := FindPacket(s.pending, s.timers[n]);
      if k :| 0 <= k < |s.pending| && Carries(s.pending[k], question, id) {
        if k == i {
          assert s'.handled[|s.handled|] == s.pending[k];
        } else {
          assert s'.pending[if k < i then k else k - 1] == s.pending[k];
        }
      } else {
        var k :| 0 <= k < |s.handled| && Carries(s.handled[k], question, id);
        assert s'.handled[k] == s.handled[k];
      }
    }
  }

  lemma {:induction false} RunKeepsWith(s: Store, es: seq<Event>, question: nat, id: nat)
    requires IsWith(s, question, id)
    ensures IsWith(Run(s, es), question, id)
    decreases |es|
  {
    hide Step, IsWith;
    if es != [] {
      match es[0] {
        case Arrive(p) => ArrivalKeepsWith(s, p, question, id);
        case TimerFires(k) => TimerKeepsWith(s, k, question, id);
      }
      RunKeepsWith(Step(s, es[0]), es[1..], question, id);
    }
  }

  /** Known answers that were stored stay with the newest question of their source, and are handled with it. */
  lemma AnswersStayWith(es: seq<Event>, p: Packet, later: seq<Event>)
    requires var s := Run(EMPTY, es); IsKnownAnswer(s, p) && |Stored(s.pending)| < 4
    ensures var s := Run(EMPTY, es);
            exists i: nat :: NewestFrom(s.pending, p.source, i)
                             && IsWith(Run(Step(s, Arrive(p)), later), s.pending[i].pbuf, |s.sources|)
  {
    hide Run, Step, Stored, IsWith, IsKnownAnswer, NewestFrom, FindSource;
    var s := Run(EMPTY, es);
    var s' := Step(s, Arrive(p));
    ArrivalFate(es, p);
    var i: nat :| NewestFrom(s.pending, p.source, i) && StoredWith(s, s', |s.sources|, i);
    JoinedWith(s, s', |s.sources|, i);
    RunKeepsWith(s', later, s.pending[i].pbuf, |s.sources|);
  }

  lemma JoinedWith(s: Store, s': Store, id: nat, i: nat)
    requires StoredWith(s, s', id, i)
    ensures IsWith(s', s.pending[i].pbuf, id)
  {
    assert Carries(s'.pending[i], s.pending[i].pbuf, id);
  }
}
