/**
  What every event does to a responder, told by the history alone: what is added to it, when the
  timer is due next, and whether the rate limit is in force.
 */
module ProbingEvents {
  import opened Bytes
  import opened Probing

  /** The times of the announcements since the last restart. */
  function AnnouncesSince(log: seq<Entry>): (times: seq<nat>) {
    if log == [] then []
    else
      var init, last := log[..|log| - 1], log[|log| - 1];
      match last
      case Restarted(_, _) => []
      case Announced(t) => AnnouncesSince(init) + [t]
      case _ => AnnouncesSince(init)
  }

  lemma AnnouncesAppended(log: seq<Entry>, e: Entry)
    ensures AnnouncesSince(log + [e]) ==
            if e.Restarted? then [] else if e.Announced? then AnnouncesSince(log) + [e.at] else AnnouncesSince(log)
  {
    assert (log + [e])[..|log|] == log;
  }

  // ----- The phase is in the history

  /** What the phase means: how much has been sent since the last restart. */
  ghost predicate PhaseTold(h: Host) {
    var ps, claims := ProbesSince(h.log), AnnouncesSince(h.log);
    && (h.phase.Off? <==> LastRestart(h.log).None?)
    && (h.phase.ProbeWait? <==> LastRestart(h.log).Some? && ps == [])
    && (h.phase.Probing? <==> 0 < |ps| < 3)
    && (h.phase.AnnounceWait? <==> |ps| == 3 && claims == [])
    && (h.phase.Announcing? <==> claims != [] && h.pending != [])
    && (h.phase.Complete? <==> claims != [] && h.pending == [])
    && (claims != [] ==> |ps| == 3 && !h.limited)
    && |ps| <= 3 && |h.pending| <= 1
    && (h.pending != [] ==> LastRestart(h.log).Some?)
  }

  ghost predicate Good(s: State) {
    Inv(s) && RingOk(s.host) && PhaseTold(s.host)
  }

  // ----- Events

  ghost predicate Same(h: Host, h': Host) {
    h'.log == h.log && h'.pending == h.pending && h'.limited == h.limited
  }

  /**
    A timer: nothing before it is due. Up to the third probe it is a probe if sending works, and
    the next attempt in any case; from then on it is an announcement, the first of which starts
    the timer for one more, and ends the rate limit.
   */
  ghost predicate TimerDoes(h: Host, now: nat, sent: bool, h': Host) {
    var claims := AnnouncesSince(h.log);
    var n := |ProbesSince(h.log)| + if sent then 1 else 0;
    if h.pending == [] || h.pending[0] > now then Same(h, h')
    else if |ProbesSince(h.log)| < 3 then
      && h'.log == h.log + (if sent then [Probed(now)] else [])
      && h'.pending == [now + if h.limited && 0 < n < 3 then 5000 else 250]
      && h'.limited == h.limited
    else
      && h'.log == h.log + [Announced(now)]
      && h'.pending == (if claims == [] then [now + 1000] else [])
      && !h'.limited
  }

  ghost predicate RestartDoes(h: Host, now: nat, delay: nat, h': Host) {
    && h'.log == h.log + [Restarted(now, h.limited)]
    && h'.pending == [now + if h.limited then 5000 else delay]
    && h'.limited == h.limited
  }

  /**
    An answer with one of the host's names and other data: a host that has announced them starts
    over; one that has sent a probe notes a conflict and stops; otherwise it is ignored.
   */
  ghost predicate ConflictDoes(h: Host, now: nat, delay: nat, h': Host) {
    if AnnouncesSince(h.log) != [] then RestartDoes(h, now, delay, h')
    else if ProbesSince(h.log) != [] then
      && h'.log == h.log + [Conflicted(now)] && h'.pending == []
      && h'.limited == (h.limited || Raised(ConflictTimes(h.log) + [now]))
    else Same(h, h')
  }

  /** A probe that wins the tiebreak, while the host is probing: it starts over after a second. */
  ghost predicate LossDoes(h: Host, now: nat, h': Host) {
    if ProbesSince(h.log) != [] && AnnouncesSince(h.log) == [] then
      && h'.limited == (h.limited || Raised(ConflictTimes(h.log) + [now]))
      && h'.log == h.log + [Conflicted(now), Restarted(now, h'.limited)]
      && h'.pending == [now + if h'.limited then 5000 else 1000]
    else Same(h, h')
  }

  /** An announcement asked for, or the answer to a question: only once the names are announced. */
  ghost predicate ClaimDoes(h: Host, claim: Entry, h': Host) {
    && h'.log == h.log + (if AnnouncesSince(h.log) != [] then [claim] else [])
    && h'.pending == h.pending && h'.limited == h.limited
  }

  ghost predicate Does(h: Host, now: nat, e: Event, h': Host) {
    match e
    case Tick(_) => Same(h, h')
    case Fire(sent) => TimerDoes(h, now, sent, h')
    case RestartCall(delay) => RestartDoes(h, now, delay, h')
    case AnnounceCall => ClaimDoes(h, Announced(now), h')
    case ConflictingAnswer(delay) => ConflictDoes(h, now, delay, h')
    case IncomingProbe(loses) => if loses then LossDoes(h, now, h') else Same(h, h')
    case IncomingQuestion => ClaimDoes(h, Answered(now), h')
  }

  lemma TimerTold(s: State, sent: bool)
    requires Good(s)
    ensures TimerDoes(s.host, s.now, sent, Step(s, Fire(sent)).host)
  {
    hide ProbesSince, AnnouncesSince, LastRestart, LogOk, RingOk, TimerOk;
    var h := s.host;
    if h.pending != [] && h.pending[0] <= s.now {
      assert h.pending[1..] == [];
    }
  }

  lemma CallTold(s: State, e: Event)
    requires Good(s) && !e.Fire?
    ensures Does(s.host, s.now, e, Step(s, e).host)
  {
    hide ProbesSince, AnnouncesSince, LastRestart, LogOk, ConflictTimes, Raised, TimerOk, SaveConflict, RingOk;
    var h, c := s.host, SaveConflict(s.host, s.now);
    OldestSlot(h, s.now);
    SavedTold(h, s.now);
    assert Untimeout(h.pending) == [];
    if e.IncomingProbe? {
      assert h.log + [Conflicted(s.now)] + [Restarted(s.now, c.limited)]
          == h.log + [Conflicted(s.now), Restarted(s.now, c.limited)];
    }
  }

  lemma SavedTold(h: Host, now: nat)
    requires Shaped(h)
    ensures var c := SaveConflict(h, now);
            c.log == h.log + [Conflicted(now)] && c.pending == h.pending && c.phase == h.phase && c.sentNum == h.sentNum
  {
  }

  /** The observations of the history after one more entry. */
  lemma OneMore(log: seq<Entry>, e: Entry)
    ensures ProbesSince(log + [e]) ==
            if e.Restarted? then [] else if e.Probed? then ProbesSince(log) + [e.at] else ProbesSince(log)
    ensures AnnouncesSince(log + [e]) ==
            if e.Restarted? then [] else if e.Announced? then AnnouncesSince(log) + [e.at] else AnnouncesSince(log)
    ensures LastRestart(log + [e]) == if e.Restarted? then Some(e) else LastRestart(log)
  {
    Appended(log, e);
    AnnouncesAppended(log, e);
  }

  lemma TimerKeeps(s: State, sent: bool)
    requires Good(s)
    ensures PhaseTold(Step(s, Fire(sent)).host)
  {
    hide ProbesSince, AnnouncesSince, LastRestart, LogOk, RingOk, TimerOk;
    var h := s.host;
    OneMore(h.log, Probed(s.now));
    OneMore(h.log, Announced(s.now));
    if h.pending != [] && h.pending[0] <= s.now {
      assert h.pending[1..] == [];
    }
  }

  lemma RestartTold(h: Host, delay: nat, now: nat)
    requires |h.pending| <= 1
    ensures PhaseTold(Restart(h, delay, now))
  {
    hide ProbesSince, AnnouncesSince, LastRestart;
    OneMore(h.log, Restarted(now, h.limited));
    assert Untimeout(h.pending) == [];
  }

  lemma CallKeeps(s: State, e: Event)
    requires Good(s) && !e.Fire?
    ensures PhaseTold(Step(s, e).host)
  {
    hide ProbesSince, AnnouncesSince, LastRestart, LogOk, RingOk, TimerOk, SaveConflict, Restart;
    var h, c := s.host, SaveConflict(s.host, s.now);
    SavedTold(h, s.now);
    OneMore(h.log, Conflicted(s.now));
    OneMore(h.log, Announced(s.now));
    OneMore(h.log, Answered(s.now));
    assert Untimeout(h.pending) == [];
    match e
    case RestartCall(delay) => RestartTold(h, delay, s.now);
    case ConflictingAnswer(delay) => RestartTold(h, delay, s.now);
    case IncomingProbe(_) => RestartTold(c, TIEBREAK_DELAY, s.now);
    case _ =>
  }

  lemma StepGood(s: State, e: Event)
    requires Good(s)
    ensures Good(Step(s, e)) && Does(s.host, s.now, e, Step(s, e).host)
  {
    hide Inv, RingOk, PhaseTold, Step, Does, TimerDoes;
    ShapedGood(s);
    StepKeeps(s, e);
    StepRing(s, e);
    if e.Fire? {
      TimerTold(s, e.sent);
      TimerKeeps(s, e.sent);
      FireDoes(s.host, s.now, e.sent, Step(s, e).host);
    } else {
      CallTold(s, e);
      CallKeeps(s, e);
    }
  }

  lemma FireDoes(h: Host, now: nat, sent: bool, h': Host)
    requires TimerDoes(h, now, sent, h')
    ensures Does(h, now, Fire(sent), h')
  {
  }

  lemma {:induction false} RunGood(s: State, es: seq<Event>)
    requires Good(s)
    ensures Good(Run(s, es))
    decreases |es|
  {
    hide Good, Step;
    if es != [] {
      StepGood(s, es[0]) by { ShapedGood(s); }
      RunGood(Step(s, es[0]), es[1..]) by { ShapedGood(s); StepGood(s, es[0]); }
    }
  }

  lemma ShapedGood(s: State)
    requires Good(s)
    ensures Shaped(s.host)
  {
  }

  lemma BeginGood(start: nat)
    ensures Good(Begin(start))
  {
  }

  /**
    Every event of every run, told by the history: what it adds, when the timer is due then, and
    the rate limit; and which phase the host is in.
   */
  lemma EventDoes(start: nat, es: seq<Event>, e: Event)
    ensures var s := Run(Begin(start), es);
            PhaseTold(s.host) && Does(s.host, s.now, e, Step(s, e).host)
  {
    hide Run, Step, Does, PhaseTold, Inv, RingOk;
    BeginGood(start);
    RunGood(Begin(start), es);
    StepGood(Run(Begin(start), es), e);
  }

  // ----- A disputed name

  /** The probes noted in a part of the history. */
  function CountProbed(log: seq<Entry>): (n: nat) {
    if log == [] then 0 else CountProbed(log[..|log| - 1]) + if log[|log| - 1].Probed? then 1 else 0
  }

  lemma {:induction false} ProbesBehind(log: seq<Entry>, later: seq<Entry>)
    requires ProbesSince(log) == []
    ensures |ProbesSince(log + later)| <= CountProbed(later)
    decreases |later|
  {
    hide ProbesSince;
    if later == [] {
      assert log + later == log;
    } else {
      var init, last := later[..|later| - 1], later[|later| - 1];
      ProbesBehind(log, init);
      assert log + later == (log + init) + [last];
      Appended(log + init, last);
    }
  }

  /** Something the host does only under a name that it has made sure of. */
  predicate Claims(e: Entry) {
    e.Announced? || e.Answered?
  }

  /** Whatever made the host start over, it answers and announces nothing before three further probes. */
  lemma ClaimNeedsProbes(start: nat, es: seq<Event>, e: Event, later: seq<Event>, i: nat)
    requires var s := Step(Run(Begin(start), es), e);
             var log := Run(s, later).host.log;
             && s.host.log != Run(Begin(start), es).host.log && s.host.log[|s.host.log| - 1].Restarted?
             && |s.host.log| <= i < |log| && Claims(log[i])
    ensures var s := Step(Run(Begin(start), es), e);
            CountProbed(Run(s, later).host.log[|s.host.log|..i]) >= 3
  {
    hide Run, Step, Good, ProbesSince, CountProbed, LogOk;
    var s0 := Run(Begin(start), es);
    BeginGood(start);
    RunGood(Begin(start), es);
    StepGood(s0, e);
    var s := Step(s0, e);
    RunGood(s, later);
    var h := Run(s, later).host;
    LogGrows(s, later);
    var n := |s.host.log|;
    assert h.log[..i] == s.host.log + h.log[n..i];
    Appended(s.host.log[..n - 1], s.host.log[n - 1]);
    assert s.host.log == s.host.log[..n - 1] + [s.host.log[n - 1]];
    ProbesBehind(s.host.log, h.log[n..i]);
    LogGood(Run(s, later));
    EveryEntryOk(h.log, i);
  }

  lemma LogGood(s: State)
    requires Good(s)
    ensures LogOk(s.host.log)
  {
  }

  // ----- Undisturbed

  /** Time passes, timers fire, others ask. */
  predicate Quiet(e: Event) {
    e.Tick? || e.Fire? || e.IncomingQuestion? || (e.IncomingProbe? && !e.loses)
  }

  /** Where the host stands with its two announcements. */
  ghost predicate Announces(h: Host) {
    var claims := AnnouncesSince(h.log);
    && |claims| <= 2 && (h.pending == [] <==> |claims| == 2)
    && (|claims| == 1 ==> h.pending == [claims[0] + 1000])
    && (|claims| == 2 ==> claims[1] >= claims[0] + 1000)
  }

  lemma QuietStep(s: State, e: Event)
    requires Good(s) && Announces(s.host) && Quiet(e)
    ensures Shaped(s.host) && Announces(Step(s, e).host)
  {
    hide ProbesSince, AnnouncesSince, LastRestart, Step, Inv, RingOk;
    ShapedGood(s);
    StepGood(s, e);
    var h := s.host;
    OneMore(h.log, Probed(s.now));
    OneMore(h.log, Announced(s.now));
    OneMore(h.log, Answered(s.now));
    assert h.log + [] == h.log;
  }

  lemma {:induction false} QuietRun(s: State, es: seq<Event>)
    requires Good(s) && Announces(s.host) && forall e :: e in es ==> Quiet(e)
    ensures Shaped(s.host) && Announces(Run(s, es).host)
    decreases |es|
  {
    hide Good, Step, Announces, Quiet;
    ShapedGood(s);
    if es != [] {
      StepGood(s, es[0]);
      QuietStep(s, es[0]);
      QuietRun(Step(s, es[0]), es[1..]);
    }
  }

  /**
    A host with a timer that has not announced yet, left in peace, announces its names exactly
    twice: the timer rests when the second announcement is out, and that one is not due before a
    second after the first.
   */
  lemma AnnouncesTwice(start: nat, es: seq<Event>, later: seq<Event>)
    requires var h := Run(Begin(start), es).host; h.pending != [] && AnnouncesSince(h.log) == []
    requires forall e :: e in later ==> Quiet(e)
    ensures Announces(Run(Run(Begin(start), es), later).host)
  {
    hide Run, Good, AnnouncesSince, Quiet;
    BeginGood(start);
    RunGood(Begin(start), es);
    QuietRun(Run(Begin(start), es), later);
  }

  // ----- A whole run

  /** Time passes, and the timer fires. */
  function After(ms: nat): (es: seq<Event>) { [Tick(ms), Fire(true)] }

  function Timeline(): (es: seq<Event>) {
    [RestartCall(0), Fire(true)] + After(250) + After(250) + After(250) + After(1000)
  }

  lemma AfterRun(s: State, ms: nat)
    requires Shaped(s.host) && s.host.pending != [] && s.host.pending[0] <= s.now + ms
    ensures Run(s, After(ms))
         == State(ProbeAndAnnounce(s.host.(pending := s.host.pending[1..]), true, s.now + ms), s.now + ms)
  {
    hide ProbeAndAnnounce;
    Two(s, Tick(ms), Fire(true));
  }

  lemma FirstRun(start: nat)
    ensures Run(Begin(start), [RestartCall(0), Fire(true)])
         == State(Begin(start).host.(phase := Probing, sentNum := 1, pending := [start + 250],
                                     log := [Restarted(start, false), Probed(start)]), start)
  {
    Two(Begin(start), RestartCall(0), Fire(true));
  }

  /** Three probes 250 ms apart, an announcement 250 ms later, and one more after a second. */
  lemma WholeRun(start: nat)
    ensures var h := Run(Begin(start), Timeline()).host;
            && h.phase.Complete? && h.pending == []
            && h.log == [Restarted(start, false), Probed(start), Probed(start + 250), Probed(start + 500),
                         Announced(start + 750), Announced(start + 1750)]
  {
    hide Run, After, Step;
    var b := Begin(start);
    assert Shaped(b.host);
    FirstRun(start);
    var s1 := Run(b, [RestartCall(0), Fire(true)]);
    var s2, s3 := Run(s1, After(250)), Run(Run(s1, After(250)), After(250));
    var s4 := Run(s3, After(250));
    RunConcat(b, [RestartCall(0), Fire(true)], After(250));
    RunConcat(b, [RestartCall(0), Fire(true)] + After(250), After(250));
    RunConcat(b, [RestartCall(0), Fire(true)] + After(250) + After(250), After(250));
    RunConcat(b, [RestartCall(0), Fire(true)] + After(250) + After(250) + After(250), After(1000));
    AfterRun(s1, 250);
    AfterRun(s2, 250);
    AfterRun(s3, 250);
    AfterRun(s4, 1000);
  }
}
