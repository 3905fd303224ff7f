/**
  The tiebreak over whole probes (`mdns_handle_probe_tiebreaking`): every name of the own probe is
  searched among the questions of the other one, and the first name that is decided ends it.
 */
module ProbeTiebreak {
  import opened Bytes
  import opened NameReader
  import opened Records
  import opened SelfParse
  import opened DomainEquality
  import opened RecordOrder
  import opened Tiebreak

  /** A probe with its counts of questions and of records in the authority section. */
  datatype Probe = Probe(bytes: seq<byte>, questions: nat, claims: nat)

  predicate Sized(p: Probe) {
    |p.bytes| <= UDP_PAYLOAD_MAX
  }

  predicate Supported(klass: nat) {
    klass == CLASS_IN || klass == CLASS_ANY
  }

  /** How the search for a name ends: at a question, with `left` more behind it, or not. */
  datatype Search = Found(next: nat, left: nat) | NotFound | Broken

  function Find(p: seq<byte>, off: nat, left: nat, name: seq<byte>): (r: Search)
    requires |p| <= UDP_PAYLOAD_MAX && off < U16_SIZE
    ensures r.Found? ==> r.next < U16_SIZE
    decreases left
  {
    if left == 0 then NotFound
    else
      var q := ReadQuestionAt(p, off);
      if q.None? || !Supported(q.value.klass) then Broken
      else if DomainEq(q.value.domain, name) then Found(q.value.next, left - 1)
      else Find(p, q.value.next, left - 1, name)
  }

  /** One name: `off` and `left` are where the own questions go on behind `q`. */
  function JudgeName(mine: Probe, off: nat, left: nat, theirs: Probe, q: Question): (v: Outcome)
    requires Sized(mine) && Sized(theirs) && off < U16_SIZE
  {
    match Find(theirs.bytes, SIZEOF_DNS_HDR, theirs.questions, q.domain)
    case Broken => Skipped
    case NotFound => NoConflict
    case Found(next, more) =>
      var a, b := ReadQuestions(theirs.bytes, next, more), ReadQuestions(mine.bytes, off, left);
      if a.None? || b.None? then Skipped
      else Judge(mine.bytes, b.value.next, mine.claims, theirs.bytes, a.value.next, theirs.claims, q)
  }

  function TiebreakFrom(mine: Probe, off: nat, left: nat, theirs: Probe): (v: Outcome)
    requires Sized(mine) && Sized(theirs) && off < U16_SIZE
    decreases left
  {
    if left == 0 then NoConflict
    else
      var q := ReadQuestionAt(mine.bytes, off);
      if q.None? then Skipped
      else
        var v := JudgeName(mine, q.value.next, left - 1, theirs, q.value);
        if v != NoConflict then v else TiebreakFrom(mine, q.value.next, left - 1, theirs)
  }

  /** The outcome for the host that sent `mine`. */
  function TiebreakOf(mine: Probe, theirs: Probe): (v: Outcome)
    requires Sized(mine) && Sized(theirs)
  {
    TiebreakFrom(mine, SIZEOF_DNS_HDR, mine.questions, theirs)
  }

  /** The loops that read over the questions left. */
  method SkipQuestions(p: seq<byte>, start: nat, n: nat) returns (next: Option<nat>)
    requires |p| <= UDP_PAYLOAD_MAX && start < U16_SIZE
    ensures var r := ReadQuestions(p, start, n); next == if r.None? then None else Some(r.value.next)
  {
    hide ReadQuestionAt;
    var off: nat := start;
    for i := 0 to n
      invariant off < U16_SIZE
      invariant ReadQuestions(p, start, n).Some? <==> ReadQuestions(p, off, n - i).Some?
      invariant ReadQuestions(p, off, n - i).Some? ==>
                  ReadQuestions(p, start, n).value.next == ReadQuestions(p, off, n - i).value.next
    {
      var q := ReadQuestionAt(p, off);
      if q.None? {
        return None;
      }
      off := q.value.next;
    }
    return Some(off);
  }

  /** The loop that searches the other probe for a name. */
  method FindQuestion(p: seq<byte>, n: nat, name: seq<byte>) returns (r: Search)
    requires |p| <= UDP_PAYLOAD_MAX
    ensures r == Find(p, SIZEOF_DNS_HDR, n, name)
  {
    hide ReadQuestionAt, DomainEq;
    var off: nat, left: nat := SIZEOF_DNS_HDR, n;
    while left > 0
      invariant off < U16_SIZE && Find(p, SIZEOF_DNS_HDR, n, name) == Find(p, off, left, name)
    {
      var q := ReadQuestionAt(p, off);
      if q.None? {
        return Broken;
      }
      if q.value.klass != CLASS_IN && q.value.klass != CLASS_ANY {
        return Broken;
      }
      off, left := q.value.next, left - 1;
      if DomainEq(q.value.domain, name) {
        return Found(off, left);
      }
    }
    return NotFound;
  }

  // ----- What the search finds

  /** The first `i` questions can be read, are of class Internet or any, and are for other names. */
  predicate Passes(p: seq<byte>, off: nat, i: nat, name: seq<byte>)
    requires |p| <= UDP_PAYLOAD_MAX && off < U16_SIZE
  {
    var r := ReadQuestions(p, off, i);
    r.Some? && forall k :: 0 <= k < |r.value.items| ==>
      (r.value.items[k].klass == 1 || r.value.items[k].klass == 255) && !DomainEq(r.value.items[k].domain, name)
  }

  /** Question `i` is the first for the name. */
  predicate FoundAt(p: seq<byte>, off: nat, n: nat, name: seq<byte>, i: nat)
    requires |p| <= UDP_PAYLOAD_MAX && off < U16_SIZE
  {
    && i < n && Passes(p, off, i, name)
    && var r := ReadQuestions(p, off, i + 1);
    r.Some? && |r.value.items| == i + 1
    && (r.value.items[i].klass == 1 || r.value.items[i].klass == 255) && DomainEq(r.value.items[i].domain, name)
  }

  /** Question `i`, in front of any for the name, cannot be read or is of another class. */
  predicate BreaksAt(p: seq<byte>, off: nat, n: nat, name: seq<byte>, i: nat)
    requires |p| <= UDP_PAYLOAD_MAX && off < U16_SIZE
  {
    && i < n && Passes(p, off, i, name)
    && var r := ReadQuestions(p, off, i + 1);
    r.Some? ==> |r.value.items| == i + 1 && r.value.items[i].klass != 1 && r.value.items[i].klass != 255
  }

  lemma PassesNone(p: seq<byte>, off: nat, name: seq<byte>)
    requires |p| <= UDP_PAYLOAD_MAX && off < U16_SIZE
    ensures Passes(p, off, 0, name) && ReadQuestions(p, off, 0) == Some(Section([], off))
  {
  }

  /** The first question and the ones behind it. */
  lemma QuestionsCons(p: seq<byte>, off: nat, i: nat, name: seq<byte>)
    requires |p| <= UDP_PAYLOAD_MAX && off < U16_SIZE && ReadQuestionAt(p, off).Some?
    ensures var q := ReadQuestionAt(p, off).value;
            var r, rest := ReadQuestions(p, off, i + 1), ReadQuestions(p, q.next, i);
            && (r.Some? <==> rest.Some?)
            && (r.Some? ==> r.value == Section([q] + rest.value.items, rest.value.next))
            && (Passes(p, off, i + 1, name) <==>
                  (q.klass == 1 || q.klass == 255) && !DomainEq(q.domain, name) && Passes(p, q.next, i, name))
  {
    hide ReadQuestionAt, DomainEq;
    var q := ReadQuestionAt(p, off).value;
    var rest := ReadQuestions(p, q.next, i);
    if rest.Some? {
      var all := [q] + rest.value.items;
      assert all[0] == q && forall k :: 0 <= k < |rest.value.items| ==> all[k + 1] == rest.value.items[k];
      assert forall k :: 0 < k < |all| ==> all[k] == rest.value.items[k - 1];
    }
  }

  lemma StopsCons(p: seq<byte>, off: nat, n: nat, name: seq<byte>, i: nat)
    requires |p| <= UDP_PAYLOAD_MAX && off < U16_SIZE && ReadQuestionAt(p, off).Some? && n > 0
    ensures var q := ReadQuestionAt(p, off).value;
            var on := (q.klass == 1 || q.klass == 255) && !DomainEq(q.domain, name);
            && (FoundAt(p, off, n, name, i + 1) <==> on && FoundAt(p, q.next, n - 1, name, i))
            && (BreaksAt(p, off, n, name, i + 1) <==> on && BreaksAt(p, q.next, n - 1, name, i))
  {
    hide ReadQuestionAt, DomainEq, ReadQuestions, Passes;
    QuestionsCons(p, off, i, name);
    QuestionsCons(p, off, i + 1, name);
  }

  lemma StopsFirst(p: seq<byte>, off: nat, n: nat, name: seq<byte>)
    requires |p| <= UDP_PAYLOAD_MAX && off < U16_SIZE && n > 0
    ensures var q := ReadQuestionAt(p, off);
            var on := q.Some? && (q.value.klass == 1 || q.value.klass == 255);
            && (FoundAt(p, off, n, name, 0) <==> on && DomainEq(q.value.domain, name))
            && (BreaksAt(p, off, n, name, 0) <==> !on)
            && (q.Some? ==> ReadQuestions(p, off, 1) == Some(Section([q.value], q.value.next)))
            && (q.None? ==> forall i: nat :: i > 0 ==> ReadQuestions(p, off, i).None? && !Passes(p, off, i, name))
  {
    hide ReadQuestionAt, DomainEq;
    PassesNone(p, off, name);
    if ReadQuestionAt(p, off).Some? {
      PassesNone(p, ReadQuestionAt(p, off).value.next, name);
      QuestionsCons(p, off, 0, name);
      assert [ReadQuestionAt(p, off).value] + [] == [ReadQuestionAt(p, off).value];
    }
  }

  /** The search `r` ends at the first question for the name, or gives up in front of it. */
  ghost predicate FindSays(p: seq<byte>, off: nat, n: nat, name: seq<byte>, r: Search)
    requires |p| <= UDP_PAYLOAD_MAX && off < U16_SIZE
  {
    && (r.Found? <==> exists i :: FoundAt(p, off, n, name, i))
    && (r.Broken? <==> exists i :: BreaksAt(p, off, n, name, i))
    && (forall i: nat :: r.Found? && FoundAt(p, off, n, name, i) ==>
          r.left == n - i - 1 && ReadQuestions(p, off, i + 1).value.next == r.next)
  }

  /** It ends, or gives up, at the first question. */
  lemma FindNow(p: seq<byte>, off: nat, n: nat, name: seq<byte>)
    requires |p| <= UDP_PAYLOAD_MAX && off < U16_SIZE && n > 0
    requires var q := ReadQuestionAt(p, off);
             q.None? || !(q.value.klass == 1 || q.value.klass == 255) || DomainEq(q.value.domain, name)
    ensures FindSays(p, off, n, name, Find(p, off, n, name))
  {
    hide ReadQuestionAt, DomainEq, ReadQuestions, BreaksAt, Passes;
    StopsFirst(p, off, n, name);
    forall i: nat | i > 0 ensures !FoundAt(p, off, n, name, i) {
      if ReadQuestionAt(p, off).Some? {
        StopsCons(p, off, n, name, i - 1);
      }
    }
    forall i: nat | i > 0 ensures BreaksAt(p, off, n, name, i) ==> BreaksAt(p, off, n, name, 0) {
      if ReadQuestionAt(p, off).Some? {
        StopsCons(p, off, n, name, i - 1);
      }
    }
    assert BreaksAt(p, off, n, name, 0) || FoundAt(p, off, n, name, 0);
  }

  /** It goes on behind the first question. */
  lemma FindOn(p: seq<byte>, off: nat, n: nat, name: seq<byte>)
    requires |p| <= UDP_PAYLOAD_MAX && off < U16_SIZE && n > 0
    requires var q := ReadQuestionAt(p, off);
             && q.Some? && (q.value.klass == 1 || q.value.klass == 255) && !DomainEq(q.value.domain, name)
             && FindSays(p, q.value.next, n - 1, name, Find(p, q.value.next, n - 1, name))
    ensures FindSays(p, off, n, name, Find(p, off, n, name))
  {
    hide ReadQuestionAt, DomainEq, ReadQuestions, FoundAt, BreaksAt, Passes;
    var next, left: nat := ReadQuestionAt(p, off).value.next, n - 1;
    StopsFirst(p, off, n, name);
    forall i: nat
      ensures FoundAt(p, next, left, name, i) ==> FoundAt(p, off, n, name, i + 1)
      ensures BreaksAt(p, next, left, name, i) ==> BreaksAt(p, off, n, name, i + 1)
    {
      StopsCons(p, off, n, name, i);
    }
    forall i: nat | i > 0 ensures BreaksAt(p, off, n, name, i) ==> BreaksAt(p, next, left, name, i - 1) {
      StopsCons(p, off, n, name, i - 1);
    }
    FoundReads(p, off, n, name);
    forall i: nat | i > 0 && FoundAt(p, off, n, name, i)
      ensures FoundAt(p, next, left, name, i - 1)
      ensures ReadQuestions(p, next, i).Some? && ReadQuestions(p, off, i + 1).value.next == ReadQuestions(p, next, i).value.next
    {
      StopsCons(p, off, n, name, i - 1);
      QuestionsCons(p, off, i, name);
    }
  }

  lemma FoundReads(p: seq<byte>, off: nat, n: nat, name: seq<byte>)
    requires |p| <= UDP_PAYLOAD_MAX && off < U16_SIZE
    ensures forall i: nat :: FoundAt(p, off, n, name, i) ==> ReadQuestions(p, off, i + 1).Some?
  {
    hide ReadQuestions, Passes, DomainEq;
  }

  /**
    The search ends at the first question for the name, with what is behind it still to come; it
    gives up at a question in front of that which cannot be read or is of another class.
   */
  lemma {:induction false} FindMeans(p: seq<byte>, off: nat, n: nat, name: seq<byte>)
    requires |p| <= UDP_PAYLOAD_MAX && off < U16_SIZE
    ensures FindSays(p, off, n, name, Find(p, off, n, name))
    decreases n
  {
    hide ReadQuestionAt, DomainEq, ReadQuestions, FindSays, Find;
    if n == 0 {
      NothingToFind(p, off, n, name);
    } else {
      var q := ReadQuestionAt(p, off);
      if q.Some? && (q.value.klass == 1 || q.value.klass == 255) && !DomainEq(q.value.domain, name) {
        FindMeans(p, q.value.next, n - 1, name);
        FindOn(p, off, n, name);
      } else {
        FindNow(p, off, n, name);
      }
    }
  }

  lemma NothingToFind(p: seq<byte>, off: nat, n: nat, name: seq<byte>)
    requires |p| <= UDP_PAYLOAD_MAX && off < U16_SIZE && n == 0
    ensures FindSays(p, off, n, name, Find(p, off, n, name))
  {
  }

  // ----- In terms of the questions and records

  /** One of the questions is for the name. */
  predicate Asks(qs: seq<Question>, name: seq<byte>) {
    exists i :: 0 <= i < |qs| && DomainEq(qs[i].domain, name)
  }

  /** The questions whose names the others ask for, too. */
  function Common(items: seq<Question>, others: seq<Question>): (qs: seq<Question>)
    decreases |items|
  {
    if items == [] then []
    else (if Asks(others, items[0].domain) then [items[0]] else []) + Common(items[1..], others)
  }

  predicate AllSupported(qs: seq<Question>) {
    forall i :: 0 <= i < |qs| ==> Supported(qs[i].klass)
  }

  /** A probe whose questions can be read, and where its records start. */
  predicate Opened(p: Probe, qs: Section<Question>) {
    Sized(p) && ReadQuestions(p.bytes, SIZEOF_DNS_HDR, p.questions) == Some(qs) && AllSupported(qs.items)
  }

  /** The first verdict other than a tie, name by name. */
  function FirstDecided(mine: Probe, mOff: nat, theirs: Probe, tOff: nat, qs: seq<Question>): (v: Outcome)
    requires mOff < U16_SIZE && tOff < U16_SIZE
    decreases |qs|
  {
    if qs == [] then NoConflict
    else
      var v := Judge(mine.bytes, mOff, mine.claims, theirs.bytes, tOff, theirs.claims, qs[0]);
      if v != NoConflict then v else FirstDecided(mine, mOff, theirs, tOff, qs[1..])
  }

  lemma {:induction false} FindExact(p: seq<byte>, off: nat, n: nat, name: seq<byte>)
    requires |p| <= UDP_PAYLOAD_MAX && off < U16_SIZE
    requires ReadQuestions(p, off, n).Some? && AllSupported(ReadQuestions(p, off, n).value.items)
    ensures var r, qs := Find(p, off, n, name), ReadQuestions(p, off, n).value;
            && !r.Broken? && (r.Found? <==> Asks(qs.items, name))
            && (r.Found? ==> ReadQuestions(p, r.next, r.left).Some?
                             && ReadQuestions(p, r.next, r.left).value.next == qs.next)
    decreases n
  {
    hide ReadQuestionAt, DomainEq, Supported;
    if n > 0 {
      var q, qs := ReadQuestionAt(p, off).value, ReadQuestions(p, off, n).value.items;
      var rest := ReadQuestions(p, q.next, n - 1).value;
      assert qs == [q] + rest.items;
      assert qs[0] == q && forall i :: 0 <= i < |rest.items| ==> rest.items[i] == qs[i + 1];
      FindExact(p, q.next, n - 1, name);
      AsksCons(q, rest.items, name);
    }
  }

  lemma AsksCons(q: Question, rest: seq<Question>, name: seq<byte>)
    ensures Asks([q] + rest, name) <==> DomainEq(q.domain, name) || Asks(rest, name)
  {
    hide DomainEq;
    var qs := [q] + rest;
    if DomainEq(q.domain, name) {
      assert DomainEq(qs[0].domain, name);
    }
    if Asks(rest, name) {
      var i :| 0 <= i < |rest| && DomainEq(rest[i].domain, name);
      assert DomainEq(qs[i + 1].domain, name);
    }
    if Asks(qs, name) {
      var i :| 0 <= i < |qs| && DomainEq(qs[i].domain, name);
      assert i > 0 ==> DomainEq(rest[i - 1].domain, name);
    }
  }

  /** The tiebreak goes through the common names in the order of the own questions. */
  lemma {:induction false} TiebreakIs(mine: Probe, off: nat, left: nat, theirs: Probe, qs: Section<Question>)
    requires Sized(mine) && off < U16_SIZE && Opened(theirs, qs)
    requires ReadQuestions(mine.bytes, off, left).Some?
    ensures var ps := ReadQuestions(mine.bytes, off, left).value;
            TiebreakFrom(mine, off, left, theirs)
            == FirstDecided(mine, ps.next, theirs, qs.next, Common(ps.items, qs.items))
    decreases left
  {
    hide ReadQuestionAt, Find, Judge, Asks;
    if left > 0 {
      var q, ps := ReadQuestionAt(mine.bytes, off).value, ReadQuestions(mine.bytes, off, left).value;
      var rest := ReadQuestions(mine.bytes, q.next, left - 1).value;
      assert ps.items == [q] + rest.items && ps.items[1..] == rest.items && ps.next == rest.next;
      TiebreakIs(mine, q.next, left - 1, theirs, qs);
      FindExact(theirs.bytes, SIZEOF_DNS_HDR, theirs.questions, q.domain);
      var common := Common(rest.items, qs.items);
      assert Common(ps.items, qs.items) == (if Asks(qs.items, q.domain) then [q] else []) + common;
      assert ([q] + common)[1..] == common && [] + common == common;
    }
  }

  // ----- In the words of the standard

  /** The records of both sides for the name of a question can be compared, and `v` is what comes of it. */
  ghost predicate SettlesName(v: Outcome, mine: Probe, mOff: nat, theirs: Probe, tOff: nat, q: Question)
    requires mOff < U16_SIZE && tOff < U16_SIZE
  {
    && Comparable(mine.bytes, mOff, mine.claims, q) && Comparable(theirs.bytes, tOff, theirs.claims, q)
    && Settles(v, Keys(mine.bytes, Matching(mine.bytes, mOff, mine.claims, q).value),
               Keys(theirs.bytes, Matching(theirs.bytes, tOff, theirs.claims, q).value))
  }

  predicate Shared(ps: seq<Question>, others: seq<Question>, i: nat) {
    i < |ps| && Asks(others, ps[i].domain)
  }

  /** The tiebreak ends with shared name `i`: there it comes to `v`, and before it to ties only. */
  ghost predicate DecidedAt(v: Outcome, mine: Probe, mOff: nat, theirs: Probe, tOff: nat,
                            ps: seq<Question>, others: seq<Question>, i: nat)
    requires mOff < U16_SIZE && tOff < U16_SIZE
  {
    && Shared(ps, others, i) && SettlesName(v, mine, mOff, theirs, tOff, ps[i])
    && forall j: nat :: j < i && Shared(ps, others, j) ==> SettlesName(NoConflict, mine, mOff, theirs, tOff, ps[j])
  }

  ghost predicate SharedComparable(mine: Probe, mOff: nat, theirs: Probe, tOff: nat,
                                   ps: seq<Question>, others: seq<Question>)
    requires mOff < U16_SIZE && tOff < U16_SIZE
  {
    forall i: nat :: Shared(ps, others, i) ==>
      Comparable(mine.bytes, mOff, mine.claims, ps[i]) && Comparable(theirs.bytes, tOff, theirs.claims, ps[i])
  }

  /** The first shared name that is no tie decides; without one there is no conflict. */
  ghost predicate FirstDecides(v: Outcome, mine: Probe, mOff: nat, theirs: Probe, tOff: nat,
                               ps: seq<Question>, others: seq<Question>)
    requires mOff < U16_SIZE && tOff < U16_SIZE
  {
    && (v == Win <==> exists i :: DecidedAt(Win, mine, mOff, theirs, tOff, ps, others, i))
    && (v == Lose <==> exists i :: DecidedAt(Lose, mine, mOff, theirs, tOff, ps, others, i))
    && (v == NoConflict <==>
          forall i: nat :: Shared(ps, others, i) ==> SettlesName(NoConflict, mine, mOff, theirs, tOff, ps[i]))
  }

  /** Two probes whose questions and shared records can be read: the outcome is that of the standard. */
  ghost predicate TiebreakSays(v: Outcome, mine: Probe, theirs: Probe)
    requires Sized(mine) && Sized(theirs)
  {
    var ps := ReadQuestions(mine.bytes, SIZEOF_DNS_HDR, mine.questions);
    var qs := ReadQuestions(theirs.bytes, SIZEOF_DNS_HDR, theirs.questions);
    ps.Some? && qs.Some? && AllSupported(qs.value.items)
    && SharedComparable(mine, ps.value.next, theirs, qs.value.next, ps.value.items, qs.value.items)
    ==> FirstDecides(v, mine, ps.value.next, theirs, qs.value.next, ps.value.items, qs.value.items)
  }

  lemma SettledOnce(v: Outcome, w: Outcome, mine: seq<Key>, theirs: seq<Key>)
    requires Settles(v, mine, theirs) && Settles(w, mine, theirs)
    ensures v == w
  {
    hide Arrangement, ListLater;
    var a, b := VerdictMeans(mine, theirs);
  }

  /** The first name is judged, and the others follow. */
  lemma DecidedCons(v: Outcome, mine: Probe, mOff: nat, theirs: Probe, tOff: nat,
                    ps: seq<Question>, others: seq<Question>, i: nat)
    requires mOff < U16_SIZE && tOff < U16_SIZE && ps != []
    requires Shared(ps, others, 0) ==> SettlesName(NoConflict, mine, mOff, theirs, tOff, ps[0])
    ensures DecidedAt(v, mine, mOff, theirs, tOff, ps, others, i + 1)
       <==> DecidedAt(v, mine, mOff, theirs, tOff, ps[1..], others, i)
  {
    hide SettlesName, Asks;
    assert forall j: nat :: Shared(ps[1..], others, j) <==> Shared(ps, others, j + 1);
    assert forall j: nat :: j > 0 ==> (Shared(ps, others, j) <==> Shared(ps[1..], others, j - 1));
  }

  lemma SettledNameOnce(v: Outcome, w: Outcome, mine: Probe, mOff: nat, theirs: Probe, tOff: nat, q: Question)
    requires mOff < U16_SIZE && tOff < U16_SIZE
    requires SettlesName(v, mine, mOff, theirs, tOff, q) && SettlesName(w, mine, mOff, theirs, tOff, q)
    ensures v == w
  {
    hide Settles, Matching, Keys;
    SettledOnce(v, w, Keys(mine.bytes, Matching(mine.bytes, mOff, mine.claims, q).value),
                Keys(theirs.bytes, Matching(theirs.bytes, tOff, theirs.claims, q).value));
  }

  /** The first name decides. */
  lemma FirstJudged(v: Outcome, mine: Probe, mOff: nat, theirs: Probe, tOff: nat,
                    ps: seq<Question>, others: seq<Question>)
    requires mOff < U16_SIZE && tOff < U16_SIZE && Shared(ps, others, 0)
    requires SettlesName(v, mine, mOff, theirs, tOff, ps[0]) && (v == Win || v == Lose)
    ensures FirstDecides(v, mine, mOff, theirs, tOff, ps, others)
  {
    hide SettlesName, Asks;
    forall w: Outcome | SettlesName(w, mine, mOff, theirs, tOff, ps[0]) ensures w == v {
      SettledNameOnce(v, w, mine, mOff, theirs, tOff, ps[0]);
    }
    assert DecidedAt(v, mine, mOff, theirs, tOff, ps, others, 0);
  }

  /** The first name does not decide, and what the others come to stands. */
  lemma FirstFollows(v: Outcome, mine: Probe, mOff: nat, theirs: Probe, tOff: nat,
                     ps: seq<Question>, others: seq<Question>)
    requires mOff < U16_SIZE && tOff < U16_SIZE && ps != []
    requires Shared(ps, others, 0) ==> SettlesName(NoConflict, mine, mOff, theirs, tOff, ps[0])
    requires FirstDecides(v, mine, mOff, theirs, tOff, ps[1..], others)
    ensures FirstDecides(v, mine, mOff, theirs, tOff, ps, others)
  {
    hide SettlesName, Asks, DecidedAt;
    var rest := ps[1..];
    DecidedShift(Win, mine, mOff, theirs, tOff, ps, others);
    DecidedShift(Lose, mine, mOff, theirs, tOff, ps, others);
    assert forall j: nat :: Shared(rest, others, j) <==> Shared(ps, others, j + 1);
    assert forall j: nat :: j > 0 ==> (Shared(ps, others, j) <==> Shared(rest, others, j - 1));
  }

  lemma DecidedShift(v: Outcome, mine: Probe, mOff: nat, theirs: Probe, tOff: nat,
                     ps: seq<Question>, others: seq<Question>)
    requires mOff < U16_SIZE && tOff < U16_SIZE && ps != [] && v != NoConflict
    requires Shared(ps, others, 0) ==> SettlesName(NoConflict, mine, mOff, theirs, tOff, ps[0])
    ensures (exists i :: DecidedAt(v, mine, mOff, theirs, tOff, ps, others, i))
       <==> (exists i :: DecidedAt(v, mine, mOff, theirs, tOff, ps[1..], others, i))
  {
    hide SettlesName, Asks;
    if i: nat :| DecidedAt(v, mine, mOff, theirs, tOff, ps, others, i) {
      if i == 0 {
        SettledNameOnce(v, NoConflict, mine, mOff, theirs, tOff, ps[0]);
      } else {
        DecidedCons(v, mine, mOff, theirs, tOff, ps, others, i - 1);
      }
    }
    if i: nat :| DecidedAt(v, mine, mOff, theirs, tOff, ps[1..], others, i) {
      DecidedCons(v, mine, mOff, theirs, tOff, ps, others, i);
    }
  }

  lemma {:induction false} FirstMeans(mine: Probe, mOff: nat, theirs: Probe, tOff: nat,
                                      ps: seq<Question>, others: seq<Question>)
    requires mOff < U16_SIZE && tOff < U16_SIZE && SharedComparable(mine, mOff, theirs, tOff, ps, others)
    ensures FirstDecides(FirstDecided(mine, mOff, theirs, tOff, Common(ps, others)), mine, mOff, theirs, tOff, ps, others)
    decreases |ps|
  {
    hide SettlesName, Asks, Judge, FirstDecides, Comparable;
    if ps == [] {
      NothingShared(mine, mOff, theirs, tOff, ps, others);
    } else {
      var rest := ps[1..];
      assert forall j: nat :: Shared(rest, others, j) <==> Shared(ps, others, j + 1);
      FirstMeans(mine, mOff, theirs, tOff, rest, others);
      var common := Common(rest, others);
      assert Common(ps, others) == (if Asks(others, ps[0].domain) then [ps[0]] else []) + common;
      assert ([ps[0]] + common)[1..] == common && [] + common == common;
      if Asks(others, ps[0].domain) {
        assert Shared(ps, others, 0);
        var v := Judge(mine.bytes, mOff, mine.claims, theirs.bytes, tOff, theirs.claims, ps[0]);
        JudgeSettles(mine, mOff, theirs, tOff, ps[0]);
        if v == Win || v == Lose {
          FirstJudged(v, mine, mOff, theirs, tOff, ps, others);
        } else {
          FirstFollows(FirstDecided(mine, mOff, theirs, tOff, common), mine, mOff, theirs, tOff, ps, others);
        }
      } else {
        FirstFollows(FirstDecided(mine, mOff, theirs, tOff, common), mine, mOff, theirs, tOff, ps, others);
      }
    }
  }

  lemma NothingShared(mine: Probe, mOff: nat, theirs: Probe, tOff: nat, ps: seq<Question>, others: seq<Question>)
    requires mOff < U16_SIZE && tOff < U16_SIZE && ps == []
    ensures FirstDecides(FirstDecided(mine, mOff, theirs, tOff, Common(ps, others)), mine, mOff, theirs, tOff, ps, others)
  {
  }

  lemma JudgeSettles(mine: Probe, mOff: nat, theirs: Probe, tOff: nat, q: Question)
    requires mOff < U16_SIZE && tOff < U16_SIZE
    requires Comparable(mine.bytes, mOff, mine.claims, q) && Comparable(theirs.bytes, tOff, theirs.claims, q)
    ensures var v := Judge(mine.bytes, mOff, mine.claims, theirs.bytes, tOff, theirs.claims, q);
            SettlesName(v, mine, mOff, theirs, tOff, q) && v != Skipped
  {
    hide Judge, Matching, Keys, Decodable, Arrangement, ListLater;
    JudgeMeans(mine.bytes, mOff, mine.claims, theirs.bytes, tOff, theirs.claims, q);
  }

  /**
    The tiebreak in the words of the standard: the host wins or yields by the first name shared
    with the other probe whose two sorted lists of records differ, and by which of them is later.
   */
  lemma TiebreakMeans(mine: Probe, theirs: Probe)
    requires Sized(mine) && Sized(theirs)
    ensures TiebreakSays(TiebreakOf(mine, theirs), mine, theirs)
  {
    hide ReadQuestions, FirstDecided, FirstDecides, Common, SharedComparable, TiebreakFrom;
    var ps := ReadQuestions(mine.bytes, SIZEOF_DNS_HDR, mine.questions);
    var qs := ReadQuestions(theirs.bytes, SIZEOF_DNS_HDR, theirs.questions);
    if ps.Some? && qs.Some? && AllSupported(qs.value.items)
       && SharedComparable(mine, ps.value.next, theirs, qs.value.next, ps.value.items, qs.value.items) {
      TiebreakIs(mine, SIZEOF_DNS_HDR, mine.questions, theirs, qs.value);
      FirstMeans(mine, ps.value.next, theirs, qs.value.next, ps.value.items, qs.value.items);
    }
  }

  /** `mdns_handle_probe_tiebreaking`, on the own probe and the one received. */
  method HandleTiebreak(mine: Probe, theirs: Probe) returns (v: Outcome)
    requires Sized(mine) && Sized(theirs)
    ensures v == TiebreakOf(mine, theirs) && TiebreakSays(v, mine, theirs)
  {
    hide ReadQuestionAt, ReadQuestions, Find, Judge, TiebreakSays;
    TiebreakMeans(mine, theirs);
    var off: nat, left: nat := SIZEOF_DNS_HDR, mine.questions;
    while left > 0
      invariant off < U16_SIZE && TiebreakOf(mine, theirs) == TiebreakFrom(mine, off, left, theirs)
    {
      var q := ReadQuestionAt(mine.bytes, off);
      if q.None? {
        return Skipped;
      }
      off, left := q.value.next, left - 1;
      var found := FindQuestion(theirs.bytes, theirs.questions, q.value.domain);
      if found.Broken? {
        return Skipped;
      }
      if found.Found? {
        var a := SkipQuestions(theirs.bytes, found.next, found.left);
        if a.None? {
          return Skipped;
        }
        var b := SkipQuestions(mine.bytes, off, left);
        if b.None? {
          return Skipped;
        }
        v := JudgeProbe(mine.bytes, b.value, mine.claims, theirs.bytes, a.value, theirs.claims, q.value);
        if v != NoConflict {
          return;
        }
      }
    }
    return NoConflict;
  }

  // ----- Every outcome

  /** Reading on behind the first `i` questions is reading all of them. */
  lemma {:induction false} QuestionsSplit(p: seq<byte>, off: nat, i: nat, n: nat)
    requires |p| <= UDP_PAYLOAD_MAX && off < U16_SIZE && i <= n && ReadQuestions(p, off, i).Some?
    ensures var mid := ReadQuestions(p, off, i).value.next;
            && (ReadQuestions(p, off, n).Some? <==> ReadQuestions(p, mid, n - i).Some?)
            && (ReadQuestions(p, off, n).Some? ==>
                  ReadQuestions(p, off, n).value.next == ReadQuestions(p, mid, n - i).value.next)
    decreases i
  {
    hide ReadQuestionAt;
    if i > 0 {
      QuestionsSplit(p, ReadQuestionAt(p, off).value.next, i - 1, n - 1);
    }
  }

  ghost predicate Finds(theirs: Probe, q: Question)
    requires Sized(theirs)
  {
    exists k :: FoundAt(theirs.bytes, SIZEOF_DNS_HDR, theirs.questions, q.domain, k)
  }

  ghost predicate Breaks(theirs: Probe, q: Question)
    requires Sized(theirs)
  {
    exists k :: BreaksAt(theirs.bytes, SIZEOF_DNS_HDR, theirs.questions, q.domain, k)
  }

  /** The questions of both probes can all be read, the own ones from `off` on. */
  predicate Readable(mine: Probe, off: nat, left: nat, theirs: Probe)
    requires Sized(mine) && Sized(theirs) && off < U16_SIZE
  {
    ReadQuestions(mine.bytes, off, left).Some? && ReadQuestions(theirs.bytes, SIZEOF_DNS_HDR, theirs.questions).Some?
  }

  function JudgeAll(mine: Probe, off: nat, left: nat, theirs: Probe, q: Question): (v: Outcome)
    requires Sized(mine) && Sized(theirs) && off < U16_SIZE && Readable(mine, off, left, theirs)
  {
    Judge(mine.bytes, ReadQuestions(mine.bytes, off, left).value.next, mine.claims,
          theirs.bytes, ReadQuestions(theirs.bytes, SIZEOF_DNS_HDR, theirs.questions).value.next, theirs.claims, q)
  }

  /** What comes of one name that can be read. */
  ghost predicate NameComesTo(v: Outcome, mine: Probe, off: nat, left: nat, theirs: Probe, q: Question)
    requires Sized(mine) && Sized(theirs) && off < U16_SIZE
  {
    if Breaks(theirs, q) then v == Skipped
    else if !Finds(theirs, q) then v == NoConflict
    else if !Readable(mine, off, left, theirs) then v == Skipped
    else v == JudgeAll(mine, off, left, theirs, q)
  }

  lemma NameOutcome(mine: Probe, off: nat, left: nat, theirs: Probe, q: Question)
    requires Sized(mine) && Sized(theirs) && off < U16_SIZE
    ensures NameComesTo(JudgeName(mine, off, left, theirs, q), mine, off, left, theirs, q)
  {
    hide ReadQuestions, DomainEq, Judge, Find, FoundAt, BreaksAt;
    FindMeans(theirs.bytes, SIZEOF_DNS_HDR, theirs.questions, q.domain);
    if Finds(theirs, q) && !Breaks(theirs, q) {
      var k: nat :| FoundAt(theirs.bytes, SIZEOF_DNS_HDR, theirs.questions, q.domain, k);
      FoundReads(theirs.bytes, SIZEOF_DNS_HDR, theirs.questions, q.domain);
      FoundInside(theirs.bytes, SIZEOF_DNS_HDR, theirs.questions, q.domain, k);
      QuestionsSplit(theirs.bytes, SIZEOF_DNS_HDR, k + 1, theirs.questions);
    }
  }

  lemma FoundInside(p: seq<byte>, off: nat, n: nat, name: seq<byte>, i: nat)
    requires |p| <= UDP_PAYLOAD_MAX && off < U16_SIZE && FoundAt(p, off, n, name, i)
    ensures i < n
  {
    hide ReadQuestions, Passes, DomainEq;
  }

  /** Own question `i` from `off` on can be read. */
  predicate HasOwn(mine: Probe, off: nat, left: nat, i: nat)
    requires Sized(mine) && off < U16_SIZE
  {
    i < left && ReadQuestions(mine.bytes, off, i + 1).Some? && |ReadQuestions(mine.bytes, off, i + 1).value.items| == i + 1
  }

  /** Own name `i` comes to `v`; one that cannot be read is skipped. */
  ghost predicate OwnComesTo(v: Outcome, mine: Probe, off: nat, left: nat, theirs: Probe, i: nat)
    requires Sized(mine) && Sized(theirs) && off < U16_SIZE
  {
    && i < left
    && if !HasOwn(mine, off, left, i) then v == Skipped
       else NameComesTo(v, mine, off, left, theirs, ReadQuestions(mine.bytes, off, i + 1).value.items[i])
  }

  /** Own name `i` comes to `v`, and all in front of it to a tie. */
  ghost predicate EndsAt(v: Outcome, mine: Probe, off: nat, left: nat, theirs: Probe, i: nat)
    requires Sized(mine) && Sized(theirs) && off < U16_SIZE
  {
    && OwnComesTo(v, mine, off, left, theirs, i)
    && forall j: nat :: j < i ==> OwnComesTo(NoConflict, mine, off, left, theirs, j)
  }

  /** The first own name that is no tie ends the tiebreak with what it comes to. */
  ghost predicate EndsWith(v: Outcome, mine: Probe, off: nat, left: nat, theirs: Probe)
    requires Sized(mine) && Sized(theirs) && off < U16_SIZE
  {
    if v == NoConflict then forall j: nat :: j < left ==> OwnComesTo(NoConflict, mine, off, left, theirs, j)
    else exists i :: EndsAt(v, mine, off, left, theirs, i)
  }

  lemma OwnFirst(v: Outcome, mine: Probe, off: nat, left: nat, theirs: Probe)
    requires Sized(mine) && Sized(theirs) && off < U16_SIZE && left > 0
    ensures var q := ReadQuestionAt(mine.bytes, off);
            OwnComesTo(v, mine, off, left, theirs, 0) <==>
            if q.None? then v == Skipped else NameComesTo(v, mine, q.value.next, left - 1, theirs, q.value)
  {
    hide ReadQuestionAt, DomainEq, Judge, Finds, Breaks;
    PassesNone(mine.bytes, off, []);
    if ReadQuestionAt(mine.bytes, off).Some? {
      var q := ReadQuestionAt(mine.bytes, off).value;
      QuestionsCons(mine.bytes, off, 0, []);
      QuestionsCons(mine.bytes, off, left - 1, []);
      PassesNone(mine.bytes, q.next, []);
      assert [q] + [] == [q];
    }
  }

  lemma OwnLater(v: Outcome, mine: Probe, off: nat, left: nat, theirs: Probe, i: nat)
    requires Sized(mine) && Sized(theirs) && off < U16_SIZE && left > 0 && ReadQuestionAt(mine.bytes, off).Some?
    ensures OwnComesTo(v, mine, off, left, theirs, i + 1)
       <==> OwnComesTo(v, mine, ReadQuestionAt(mine.bytes, off).value.next, left - 1, theirs, i)
  {
    hide ReadQuestionAt, ReadQuestions, DomainEq, Judge, Finds, Breaks;
    QuestionsCons(mine.bytes, off, i + 1, []);
    QuestionsCons(mine.bytes, off, left - 1, []);
  }

  /** The first name ends it. */
  lemma EndsNow(v: Outcome, mine: Probe, off: nat, left: nat, theirs: Probe)
    requires Sized(mine) && Sized(theirs) && off < U16_SIZE && left > 0
    requires v != NoConflict && OwnComesTo(v, mine, off, left, theirs, 0)
    ensures EndsWith(v, mine, off, left, theirs)
  {
    hide OwnComesTo;
    assert EndsAt(v, mine, off, left, theirs, 0);
  }

  /** The first name is a tie, and the others end it. */
  lemma EndsLater(v: Outcome, mine: Probe, off: nat, left: nat, theirs: Probe)
    requires Sized(mine) && Sized(theirs) && off < U16_SIZE && left > 0
    requires OwnComesTo(NoConflict, mine, off, left, theirs, 0) && ReadQuestionAt(mine.bytes, off).Some?
    requires EndsWith(v, mine, ReadQuestionAt(mine.bytes, off).value.next, left - 1, theirs)
    ensures EndsWith(v, mine, off, left, theirs)
  {
    hide OwnComesTo, ReadQuestionAt;
    var next, rest: nat := ReadQuestionAt(mine.bytes, off).value.next, left - 1;
    forall j: nat ensures j > 0 ==>
      (OwnComesTo(NoConflict, mine, off, left, theirs, j) <==> OwnComesTo(NoConflict, mine, next, rest, theirs, j - 1))
    {
      if j > 0 {
        OwnLater(NoConflict, mine, off, left, theirs, j - 1);
      }
    }
    if v != NoConflict {
      var i: nat :| EndsAt(v, mine, next, rest, theirs, i);
      OwnLater(v, mine, off, left, theirs, i);
      assert EndsAt(v, mine, off, left, theirs, i + 1);
    }
  }

  /**
    Every outcome of the tiebreak, on any two packets: it ends with the first own name that does not
    come to a tie. A name that cannot be read is skipped, and so is one that the search gives up on,
    or whose records lie behind questions that cannot be read.
   */
  lemma {:induction false} TiebreakEnds(mine: Probe, off: nat, left: nat, theirs: Probe)
    requires Sized(mine) && Sized(theirs) && off < U16_SIZE
    ensures EndsWith(TiebreakFrom(mine, off, left, theirs), mine, off, left, theirs)
    decreases left
  {
    hide ReadQuestionAt, EndsWith, OwnComesTo, JudgeName, NameComesTo;
    if left == 0 {
      NoNames(mine, off, left, theirs);
    } else {
      var q := ReadQuestionAt(mine.bytes, off);
      var v := if q.None? then Skipped else JudgeName(mine, q.value.next, left - 1, theirs, q.value);
      OwnFirst(v, mine, off, left, theirs);
      if q.Some? {
        NameOutcome(mine, q.value.next, left - 1, theirs, q.value);
      }
      if v == NoConflict {
        TiebreakEnds(mine, q.value.next, left - 1, theirs);
        EndsLater(TiebreakFrom(mine, q.value.next, left - 1, theirs), mine, off, left, theirs);
      } else {
        EndsNow(v, mine, off, left, theirs);
      }
    }
  }

  lemma NoNames(mine: Probe, off: nat, left: nat, theirs: Probe)
    requires Sized(mine) && Sized(theirs) && off < U16_SIZE && left == 0
    ensures EndsWith(TiebreakFrom(mine, off, left, theirs), mine, off, left, theirs)
  {
  }

  // ----- The two hosts

  /** The two hosts ask for the same names in the same order, for records of the same type. */
  predicate SameOrder(ps: seq<Question>, qs: seq<Question>) {
    |ps| == |qs| && forall i :: 0 <= i < |ps| ==> ps[i].rtype == qs[i].rtype && DomainEq(ps[i].domain, qs[i].domain)
  }

  /** The records of both hosts for each of the names can be compared. */
  predicate AllComparable(mine: Probe, mOff: nat, theirs: Probe, tOff: nat, qs: seq<Question>)
    requires mOff < U16_SIZE && tOff < U16_SIZE
  {
    forall i :: 0 <= i < |qs| ==>
      Comparable(mine.bytes, mOff, mine.claims, qs[i]) && Comparable(theirs.bytes, tOff, theirs.claims, qs[i])
  }

  lemma {:induction false} DecidedOpposite(mine: Probe, mOff: nat, theirs: Probe, tOff: nat,
                                           ps: seq<Question>, qs: seq<Question>)
    requires mOff < U16_SIZE && tOff < U16_SIZE && SameOrder(ps, qs) && AllComparable(mine, mOff, theirs, tOff, ps)
    ensures FirstDecided(theirs, tOff, mine, mOff, qs) == Opposite(FirstDecided(mine, mOff, theirs, tOff, ps))
    decreases |ps|
  {
    hide Judge, SameOrder, AllComparable, Matching, Keys, Comparable, DomainEq;
    OrderStep(ps, qs);
    if ps != [] {
      ComparableStep(mine, mOff, theirs, tOff, ps);
      JudgedOpposite(mine.bytes, mOff, mine.claims, theirs.bytes, tOff, theirs.claims, ps[0], qs[0]);
      DecidedOpposite(mine, mOff, theirs, tOff, ps[1..], qs[1..]);
    }
  }

  lemma OrderStep(ps: seq<Question>, qs: seq<Question>)
    requires SameOrder(ps, qs)
    ensures |ps| == |qs|
    ensures ps != [] ==>
              ps[0].rtype == qs[0].rtype && DomainEq(ps[0].domain, qs[0].domain) && SameOrder(ps[1..], qs[1..])
  {
    hide DomainEq;
  }

  lemma ComparableStep(mine: Probe, mOff: nat, theirs: Probe, tOff: nat, qs: seq<Question>)
    requires mOff < U16_SIZE && tOff < U16_SIZE && AllComparable(mine, mOff, theirs, tOff, qs) && qs != []
    ensures Comparable(mine.bytes, mOff, mine.claims, qs[0]) && Comparable(theirs.bytes, tOff, theirs.claims, qs[0])
    ensures AllComparable(mine, mOff, theirs, tOff, qs[1..])
  {
    hide Comparable;
  }

  /**
    The tiebreak is fair: two hosts that receive each other's probe come to opposite outcomes if
    the names they have in common come in the same order in both probes. Each host compares with
    its own questions.
   */
  lemma TiebreakOpposite(mine: Probe, theirs: Probe, ps: Section<Question>, qs: Section<Question>)
    requires Opened(mine, ps) && Opened(theirs, qs)
    requires SameOrder(Common(ps.items, qs.items), Common(qs.items, ps.items))
    requires AllComparable(mine, ps.next, theirs, qs.next, Common(ps.items, qs.items))
    ensures TiebreakOf(theirs, mine) == Opposite(TiebreakOf(mine, theirs))
  {
    hide ReadQuestions, FirstDecided, Common, SameOrder, AllComparable;
    TiebreakIs(mine, SIZEOF_DNS_HDR, mine.questions, theirs, qs);
    TiebreakIs(theirs, SIZEOF_DNS_HDR, theirs.questions, mine, ps);
    DecidedOpposite(mine, ps.next, theirs, qs.next, Common(ps.items, qs.items), Common(qs.items, ps.items));
  }
}
