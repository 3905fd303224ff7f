/**
  The store of truncated questions (section 7.2 of RFC 6762): packets kept until a timer fires,
  and who frees them.
 */
module TcStore {

  const MAX_STORED: nat := 4

  /** What `mdns_recv` looks at; a packet that is not for us fails a check in front. */
  datatype Packet = Packet(ours: bool, response: bool, truncated: bool, questions: nat, answers: nat, source: nat)

  /** A stored question: its packet, where it came from, and the known-answer packets, newest first. */
  datatype Question = Question(pbuf: nat, source: nat, answers: seq<nat>)

  /**
    Packets are named by the order in which they arrive; `sources` has the sender of each.
    `timers` are the questions with a pending timer, `freed` the packets freed so far, `handled`
    the questions answered with their answers.
   */
  datatype Store = Store(pending: seq<Question>, timers: seq<nat>, used: nat, sources: seq<nat>, freed: seq<nat>,
                         handled: seq<Question>)

  /** The newest question from a source, or the length of the list. */
  function FindSource(qs: seq<Question>, source: nat): (i: nat)
    ensures i <= |qs|
    ensures i < |qs| ==> qs[i].source == source
    ensures forall k :: 0 <= k < i ==> qs[k].source != source
  {
    if qs == [] then 0 else if qs[0].source == source then 0 else 1 + FindSource(qs[1..], source)
  }

  function FindPacket(qs: seq<Question>, pbuf: nat): (i: nat)
    ensures i <= |qs|
    ensures i < |qs| ==> qs[i].pbuf == pbuf
    ensures forall k :: 0 <= k < i ==> qs[k].pbuf != pbuf
  {
    if qs == [] then 0 else if qs[0].pbuf == pbuf then 0 else 1 + FindPacket(qs[1..], pbuf)
  }

  /** How many packets have arrived: the name of the next one. */
  function Received(s: Store): (n: nat) {
    |s.sources|
  }

  /** A packet answered on the spot. */
  function HandleNow(s: Store, pbuf: nat, p: Packet): (s': Store) {
    s.(freed := s.freed + [pbuf], handled := s.handled + [Question(pbuf, p.source, [])])
  }

  /** `mdns_recv`: the packet is stored or freed. */
  function Receive(s: Store, p: Packet): (s': Store) {
    var pbuf := Received(s);
    var t := s.(sources := s.sources + [p.source]);
    if !p.ours || p.response then t.(freed := t.freed + [pbuf])
    else if p.questions > 0 && p.truncated then
      if s.used >= MAX_STORED then t.(freed := t.freed + [pbuf])
      else t.(pending := [Question(pbuf, p.source, [])] + t.pending, timers := t.timers + [pbuf], used := t.used + 1)
    else if p.questions == 0 && p.answers > 0 && FindSource(s.pending, p.source) < |s.pending| then
      var i := FindSource(s.pending, p.source);
      if s.used >= MAX_STORED then t.(freed := t.freed + [pbuf])
      else
        t.(pending := t.pending[i := t.pending[i].(answers := [pbuf] + t.pending[i].answers)], used := t.used + 1)
    else HandleNow(t, pbuf, p)
  }

  function Remove<T>(s: seq<T>, i: nat): (r: seq<T>)
    requires i < |s|
    ensures |r| == |s| - 1
  {
    s[..i] + s[i + 1..]
  }

  lemma RemovedAt<T>(s: seq<T>, i: nat, j: nat)
    requires i < |s| && j < |s| - 1
    ensures Remove(s, i)[j] == s[if j < i then j else j + 1]
  {
  }

  /** `mdns_handle_tc_question`: the question is handled and unlinked; its answers and it are freed. */
  function Expire(s: Store, k: nat): (s': Store)
    requires k < |s.timers|
  {
    var i := FindPacket(s.pending, s.timers[k]);
    if i == |s.pending| then s
    else
      var q := s.pending[i];
      s.(pending := Remove(s.pending, i), timers := Remove(s.timers, k),
         used := if s.used > |q.answers| then s.used - 1 - |q.answers| else 0,
         freed := s.freed + q.answers + [q.pbuf], handled := s.handled + [q])
  }

  datatype Event = Arrive(packet: Packet) | TimerFires(k: nat)

  function Step(s: Store, e: Event): (s': Store) {
    match e
    case Arrive(p) => Receive(s, p)
    case TimerFires(k) => if k < |s.timers| then Expire(s, k) else s
  }

  function Run(s: Store, es: seq<Event>): (s': Store)
    decreases |es|
  {
    if es == [] then s else Run(Step(s, es[0]), es[1..])
  }

  const EMPTY: Store := Store([], [], 0, [], [], [])

  // ----- Ownership

  function Questions(qs: seq<Question>): (ids: seq<nat>)
    ensures |ids| == |qs|
  {
    if qs == [] then [] else [qs[0].pbuf] + Questions(qs[1..])
  }

  /** All packets in the store. */
  function Stored(qs: seq<Question>): (ids: seq<nat>) {
    if qs == [] then [] else [qs[0].pbuf] + qs[0].answers + Stored(qs[1..])
  }

  function Arrived(n: nat): (ids: multiset<nat>) {
    if n == 0 then multiset{} else Arrived(n - 1) + multiset{n - 1}
  }

  lemma {:induction false} ArrivedOnce(n: nat, id: nat)
    ensures Arrived(n)[id] == if id < n then 1 else 0
  {
    if n > 0 {
      ArrivedOnce(n - 1, id);
    }
  }

  /**
    Every packet received is either freed, once, or in the store, once; the questions in the store
    are those with a pending timer; the pool counts the stored packets.
   */
  ghost predicate Owned(s: Store) {
    && multiset(s.freed) + multiset(Stored(s.pending)) == Arrived(Received(s))
    && multiset(s.timers) == multiset(Questions(s.pending))
    && s.used == |Stored(s.pending)| <= MAX_STORED
  }

  lemma StoredCons(q: Question, rest: seq<Question>)
    ensures multiset(Stored([q] + rest)) == multiset(Stored(rest)) + multiset{q.pbuf} + multiset(q.answers)
    ensures |Stored([q] + rest)| == |Stored(rest)| + 1 + |q.answers|
    ensures multiset(Questions([q] + rest)) == multiset(Questions(rest)) + multiset{q.pbuf}
  {
    assert ([q] + rest)[1..] == rest;
  }

  lemma {:induction false} StoredAround(qs: seq<Question>, i: nat)
    requires i < |qs|
    ensures multiset(Stored(qs)) == multiset(Stored(Remove(qs, i))) + multiset{qs[i].pbuf} + multiset(qs[i].answers)
    ensures |Stored(qs)| == |Stored(Remove(qs, i))| + 1 + |qs[i].answers|
    ensures multiset(Questions(qs)) == multiset(Questions(Remove(qs, i))) + multiset{qs[i].pbuf}
    decreases i
  {
    hide Stored, Questions;
    assert qs == [qs[0]] + qs[1..];
    StoredCons(qs[0], qs[1..]);
    if i == 0 {
      assert Remove(qs, 0) == qs[1..];
    } else {
      StoredAround(qs[1..], i - 1);
      assert Remove(qs, i) == [qs[0]] + Remove(qs[1..], i - 1);
      StoredCons(qs[0], Remove(qs[1..], i - 1));
      assert qs[1..][i - 1] == qs[i];
    }
  }

  lemma {:induction false} QuestionListed(qs: seq<Question>, id: nat)
    ensures id in Questions(qs) <==> FindPacket(qs, id) < |qs|
  {
    if qs != [] {
      QuestionListed(qs[1..], id);
    }
  }

  lemma RemoveMultiset<T>(s: seq<T>, i: nat)
    requires i < |s|
    ensures multiset(s) == multiset(Remove(s, i)) + multiset{s[i]}
  {
    assert s == s[..i] + [s[i]] + s[i + 1..];
  }

  lemma ReceiveAnswer(qs: seq<Question>, i: nat, id: nat)
    requires i < |qs|
    ensures var qs' := qs[i := qs[i].(answers := [id] + qs[i].answers)];
            && multiset(Stored(qs')) == multiset(Stored(qs)) + multiset{id}
            && |Stored(qs')| == |Stored(qs)| + 1
            && multiset(Questions(qs')) == multiset(Questions(qs))
  {
    hide Stored, Questions;
    var qs' := qs[i := qs[i].(answers := [id] + qs[i].answers)];
    StoredAround(qs, i);
    StoredAround(qs', i);
    assert Remove(qs', i) == Remove(qs, i);
  }

  /** The newcomer is freed at once. */
  lemma FreedKeeps(s: Store, s': Store)
    requires Owned(s) && s'.pending == s.pending && s'.timers == s.timers && s'.used == s.used
    requires Received(s') == Received(s) + 1 && s'.freed == s.freed + [Received(s)]
    ensures Owned(s')
  {
    hide Stored, Questions;
    var f, t, id := multiset(s.freed), multiset(Stored(s.pending)), multiset{Received(s)};
    assert multiset(s'.freed) == f + id;
    assert (f + id) + t == (f + t) + id;
  }

  /** The newcomer is stored. */
  lemma StoredKeeps(s: Store, s': Store)
    requires Owned(s) && s'.freed == s.freed && s.used < MAX_STORED && s'.used == s.used + 1
    requires Received(s') == Received(s) + 1
    requires multiset(Stored(s'.pending)) == multiset(Stored(s.pending)) + multiset{Received(s)}
    requires |Stored(s'.pending)| == |Stored(s.pending)| + 1
    requires multiset(s'.timers) == multiset(Questions(s'.pending))
    ensures Owned(s')
  {
    hide Stored, Questions;
    var f, t, id := multiset(s.freed), multiset(Stored(s.pending)), multiset{Received(s)};
    assert f + (t + id) == (f + t) + id;
  }

  lemma ReceiveKeeps(s: Store, p: Packet)
    requires Owned(s)
    ensures Owned(Receive(s, p))
  {
    hide Stored, Questions, FindSource, Arrived;
    var id, i, s' := Received(s), FindSource(s.pending, p.source), Receive(s, p);
    if s'.freed != s.freed {
      FreedKeeps(s, s');
    } else if p.questions > 0 {
      StoredCons(Question(id, p.source, []), s.pending);
      assert multiset(s'.timers) == multiset(s.timers) + multiset{id};
      StoredKeeps(s, s');
    } else {
      ReceiveAnswer(s.pending, i, id);
      StoredKeeps(s, s');
    }
  }

  lemma ExpireKeeps(s: Store, k: nat)
    requires Owned(s) && k < |s.timers|
    ensures Owned(Expire(s, k))
    ensures FindPacket(s.pending, s.timers[k]) < |s.pending|
  {
    hide Stored, Questions, FindPacket, Arrived;
    var id := s.timers[k];
    assert id in multiset(s.timers);
    QuestionListed(s.pending, id);
    var i := FindPacket(s.pending, id);
    StoredAround(s.pending, i);
    RemoveMultiset(s.timers, k);
    var rest := Remove(s.pending, i);
    var f, t, a, one := multiset(s.freed), multiset(Stored(rest)), multiset(s.pending[i].answers), multiset{id};
    assert multiset(s.freed + s.pending[i].answers + [id]) == f + a + one;
    assert f + (t + one + a) == (f + a + one) + t;
    TimersLeft(multiset(Remove(s.timers, k)), multiset(Questions(rest)), id);
  }

  lemma TimersLeft(a: multiset<nat>, b: multiset<nat>, id: nat)
    requires a + multiset{id} == b + multiset{id}
    ensures a == b
  {
    assert a == a + multiset{id} - multiset{id};
    assert b == b + multiset{id} - multiset{id};
  }

  lemma {:induction false} RunKeeps(s: Store, es: seq<Event>)
    requires Owned(s)
    ensures Owned(Run(s, es))
    decreases |es|
  {
    hide Owned, Receive, Expire;
    if es != [] {
      match es[0] {
        case Arrive(p) => ReceiveKeeps(s, p);
        case TimerFires(k) =>
          if k < |s.timers| {
            ExpireKeeps(s, k);
          }
      }
      RunKeeps(Step(s, es[0]), es[1..]);
    }
  }

  lemma {:induction false} StoredQuestions(qs: seq<Question>)
    ensures multiset(Questions(qs)) <= multiset(Stored(qs))
  {
    if qs != [] {
      StoredQuestions(qs[1..]);
    }
  }

  /**
    In every run each received packet is freed or stored, and that once; a question is in the list
    if and only if its timer is pending; and once no timer is pending, everything has been freed.
   */
  lemma PacketsFreedOnce(es: seq<Event>, id: nat)
    ensures var s := Run(EMPTY, es);
            && Owned(s)
            && multiset(s.freed)[id] + multiset(Stored(s.pending))[id] == (if id < Received(s) then 1 else 0)
            && (id in s.timers <==> FindPacket(s.pending, id) < |s.pending|)
            && multiset(s.timers)[id] <= 1
            && (s.timers == [] ==>
                  s.pending == [] && s.used == 0 && multiset(s.freed)[id] == if id < Received(s) then 1 else 0)
  {
    hide Run, Stored, Questions, FindPacket, Arrived;
    EmptyOwned();
    RunKeeps(EMPTY, es);
    var s := Run(EMPTY, es);
    ArrivedOnce(Received(s), id);
    QuestionListed(s.pending, id);
    StoredQuestions(s.pending);
    assert id in s.timers <==> id in multiset(s.timers);
    assert id in Questions(s.pending) <==> id in multiset(Questions(s.pending));
    if s.timers == [] {
      NoQuestions(s.pending);
    }
  }

  lemma EmptyOwned()
    ensures Owned(EMPTY)
  {
  }

  lemma NoQuestions(qs: seq<Question>)
    requires multiset(Questions(qs)) == multiset{}
    ensures qs == [] && Stored(qs) == []
  {
    assert |Questions(qs)| == |multiset(Questions(qs))| == 0;
  }

  /** A timer that fires takes its own question and leaves all others as they are, in their order. */
  lemma ExpireKeepsOthers(s: Store, k: nat)
    requires Owned(s) && k < |s.timers|
    ensures var s' := Expire(s, k); var i := FindPacket(s.pending, s.timers[k]);
            && i < |s.pending| && s.pending[i].pbuf == s.timers[k]
            && s'.pending == s.pending[..i] + s.pending[i + 1..]
            && s'.handled == s.handled + [s.pending[i]]
            && FindPacket(s'.pending, s.timers[k]) == |s'.pending|
  {
    hide Stored, Questions, FindPacket, Owned;
    ExpireKeeps(s, k);
    var id := s.timers[k];
    var i := FindPacket(s.pending, id);
    StoredAround(s.pending, i);
    QuestionOnce(s, id);
    QuestionListed(Remove(s.pending, i), id);
    assert id in Questions(Remove(s.pending, i)) <==> id in multiset(Questions(Remove(s.pending, i)));
  }

  lemma QuestionOnce(s: Store, id: nat)
    requires Owned(s)
    ensures multiset(Questions(s.pending))[id] <= 1
  {
    hide Stored, Questions, Arrived;
    StoredQuestions(s.pending);
    ArrivedOnce(Received(s), id);
  }

  // ----- Which chain an answer is on

  /** A chain holds later packets from the question's own source, newest first. */
  ghost predicate ChainOk(sources: seq<nat>, q: Question) {
    && q.pbuf < |sources| && sources[q.pbuf] == q.source
    && (forall i :: 0 <= i < |q.answers| ==> q.pbuf < q.answers[i] < |sources| && sources[q.answers[i]] == q.source)
    && (forall i, j :: 0 <= i < j < |q.answers| ==> q.answers[i] > q.answers[j])
  }

  ghost predicate ChainsOk(s: Store) {
    && (forall q :: q in s.pending ==> ChainOk(s.sources, q))
    && (forall q :: q in s.handled ==> ChainOk(s.sources, q))
    && (forall i, j :: 0 <= i < j < |s.pending| ==> s.pending[i].pbuf > s.pending[j].pbuf)
  }

  lemma ChainGrows(sources: seq<nat>, more: seq<nat>, q: Question)
    requires ChainOk(sources, q)
    ensures ChainOk(sources + more, q)
  {
  }

  lemma ChainAdds(sources: seq<nat>, q: Question)
    requires ChainOk(sources, q)
    ensures ChainOk(sources + [q.source], q.(answers := [|sources|] + q.answers))
  {
  }

  lemma ReceiveChains(s: Store, p: Packet)
    requires ChainsOk(s)
    ensures ChainsOk(Receive(s, p))
  {
    hide ChainOk, FindSource;
    var s', i := Receive(s, p), FindSource(s.pending, p.source);
    forall q | q in s.pending || q in s.handled ensures ChainOk(s'.sources, q) {
      ChainGrows(s.sources, [p.source], q);
    }
    NewQuestionOk(s.sources, p.source);
    if i < |s.pending| {
      assert s.pending[i] in s.pending;
      ChainAdds(s.sources, s.pending[i]);
    }
    forall q | q in s.pending ensures q.pbuf < |s.sources| {
      assert ChainOk(s.sources, q);
      ChainBound(s.sources, q);
    }
    forall i, j | 0 <= i < j < |s'.pending| ensures s'.pending[i].pbuf > s'.pending[j].pbuf {
      if |s'.pending| > |s.pending| {
        assert s'.pending[j] == s.pending[j - 1] && s.pending[j - 1] in s.pending;
      }
    }
  }

  lemma ChainBound(sources: seq<nat>, q: Question)
    requires ChainOk(sources, q)
    ensures q.pbuf < |sources|
  {
  }

  lemma NewQuestionOk(sources: seq<nat>, source: nat)
    ensures ChainOk(sources + [source], Question(|sources|, source, []))
  {
  }

  lemma ExpireChains(s: Store, k: nat)
    requires ChainsOk(s) && k < |s.timers|
    ensures ChainsOk(Expire(s, k))
  {
    hide ChainOk, FindPacket;
    var i := FindPacket(s.pending, s.timers[k]);
    if i < |s.pending| {
      assert s.pending[i] in s.pending;
      var rest := Remove(s.pending, i);
      forall a, b | 0 <= a < b < |rest| ensures rest[a].pbuf > rest[b].pbuf {
        assert rest[a] == s.pending[if a < i then a else a + 1] && rest[b] == s.pending[if b < i then b else b + 1];
      }
      forall q | q in rest ensures q in s.pending {
        var a :| 0 <= a < |rest| && rest[a] == q;
        assert rest[a] == s.pending[if a < i then a else a + 1];
      }
    }
  }

  /**
    In every run the questions are listed newest first, and a question is handled with answers
    that came after it from its own source, newest first.
   */
  lemma {:induction false} RunChains(s: Store, es: seq<Event>)
    requires ChainsOk(s)
    ensures ChainsOk(Run(s, es))
    decreases |es|
  {
    hide ChainsOk, Receive, Expire;
    if es != [] {
      match es[0] {
        case Arrive(p) => ReceiveChains(s, p);
        case TimerFires(k) =>
          if k < |s.timers| {
            ExpireChains(s, k);
          }
      }
      RunChains(Step(s, es[0]), es[1..]);
    }
  }
}
