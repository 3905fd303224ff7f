/**
  Probing, announcing and conflict rate limiting of the mDNS responder (sections 8.1 and 8.3 of
  RFC 6762), as steps of a host with its timers.
 */
module Probing {
  import opened Bytes
  import opened Bits

  const PROBE_COUNT: nat := 3
  const PROBE_DELAY: nat := 250
  const TIEBREAK_DELAY: nat := 1000
  const ANNOUNCE_COUNT: nat := 2
  const ANNOUNCE_DELAY: nat := 1000
  const CONFLICTS: nat := 15
  const CONFLICT_WINDOW: nat := 10000
  const CONFLICT_TIMEOUT: nat := 5000

  datatype Phase = Off | ProbeWait | Probing | AnnounceWait | Announcing | Complete

  /** What happened, and when; a restart notes whether the rate limit was in force. */
  datatype Entry =
    | Restarted(at: nat, limited: bool)
    | Probed(at: nat)
    | Announced(at: nat)
    | Answered(at: nat)
    | Conflicted(at: nat)

  /**
    The fields of `struct mdns_host`, the due times of its `mdns_probe_and_announce` timers in
    the order of the timer list, and the history.
   */
  datatype Host = Host(phase: Phase, sentNum: nat, limited: bool, times: seq<nat>, index: nat, conflicts: nat,
                       pending: seq<nat>, log: seq<Entry>)

  predicate Shaped(h: Host) {
    |h.times| == CONFLICTS && h.index < CONFLICTS && h.conflicts < U8_SIZE
    && forall i :: 0 <= i < CONFLICTS ==> h.times[i] < U32_SIZE
  }

  // ----- The functions of the responder

  /** `sys_untimeout`: the first match only. */
  function Untimeout(pending: seq<nat>): (p: seq<nat>) {
    if pending == [] then [] else pending[1..]
  }

  /** `mdns_conflict_save_time`. */
  function SaveConflict(h: Host, now: nat): (h': Host)
    requires Shaped(h)
    ensures Shaped(h')
  {
    var times := h.times[h.index := now % U32_SIZE];
    var n := (h.conflicts + 1) % U8_SIZE;
    var diff := (times[h.index] - times[(h.index + 1) % CONFLICTS]) % U32_SIZE;
    h.(times := times, conflicts := n, index := (h.index + 1) % CONFLICTS,
       limited := h.limited || (n >= CONFLICTS && diff < CONFLICT_WINDOW),
       log := h.log + [Conflicted(now)])
  }

  /** `mdns_probe_conflict`, with no name-result callback registered. */
  function ProbeConflict(h: Host, now: nat): (h': Host)
    requires Shaped(h)
    ensures Shaped(h')
  {
    SaveConflict(h, now).(pending := Untimeout(h.pending))
  }

  /** `mdns_resp_restart_delay`. */
  function Restart(h: Host, delay: nat, now: nat): (h': Host) {
    h.(phase := ProbeWait, sentNum := 0,
       pending := Untimeout(h.pending) + [now + if h.limited then CONFLICT_TIMEOUT else delay],
       log := h.log + [Restarted(now, h.limited)])
  }

  /** `mdns_resp_announce`. */
  function Announce(h: Host, now: nat): (h': Host) {
    if h.phase.Announcing? || h.phase.Complete? then h.(log := h.log + [Announced(now)]) else h
  }

  /**
    `mdns_probe_and_announce`, once its timer has left the list; `sent` tells whether sending a
    probe works. The delay doubles with every announcement, but there is only one delay.
   */
  function ProbeAndAnnounce(h: Host, sent: bool, now: nat): (h': Host) {
    match h.phase
    case Complete => h
    case Off | ProbeWait | Probing =>
      var p := if !sent then h
               else h.(phase := Probing, sentNum := (h.sentNum + 1) % U8_SIZE, log := h.log + [Probed(now)]);
      var q := if p.sentNum >= PROBE_COUNT then p.(phase := AnnounceWait, sentNum := 0) else p;
      q.(pending := q.pending + [now + if q.sentNum > 0 && q.limited then CONFLICT_TIMEOUT else PROBE_DELAY])
    case AnnounceWait | Announcing =>
      var p := if h.sentNum == 0 then h.(phase := Announcing, limited := false) else h;
      var a := Announce(p, now);
      var n := (a.sentNum + 1) % U8_SIZE;
      if n >= ANNOUNCE_COUNT then a.(phase := Complete, sentNum := 0)
      else a.(sentNum := n, pending := a.pending + [now + ANNOUNCE_DELAY])
  }

  // ----- Runs

  datatype State = State(host: Host, now: nat)

  datatype Event =
    | Tick(ms: nat)
    | Fire(sent: bool)
    | RestartCall(delay: nat)
    | AnnounceCall
    | ConflictingAnswer(delay: nat)
    | IncomingProbe(loses: bool)
    | IncomingQuestion

  /**
    One step. A timer never fires early. A conflicting answer counts while names are being probed
    and starts over afterwards; a probe that is lost on tiebreaking starts over as well; questions
    are dropped until the names are verified.
   */
  function Step(s: State, e: Event): (s': State)
    requires Shaped(s.host)
    ensures Shaped(s'.host)
  {
    var h := s.host;
    match e
    case Tick(ms) => s.(now := s.now + ms)
    case Fire(sent) =>
      if h.pending == [] || h.pending[0] > s.now then s
      else s.(host := ProbeAndAnnounce(h.(pending := h.pending[1..]), sent, s.now))
    case RestartCall(delay) => s.(host := Restart(h, delay, s.now))
    case AnnounceCall => s.(host := Announce(h, s.now))
    case ConflictingAnswer(delay) =>
      if h.phase.Probing? || h.phase.AnnounceWait? then s.(host := ProbeConflict(h, s.now))
      else if h.phase.Announcing? || h.phase.Complete? then s.(host := Restart(h, delay, s.now))
      else s
    case IncomingProbe(loses) =>
      if loses && (h.phase.Probing? || h.phase.AnnounceWait?)
      then s.(host := Restart(SaveConflict(h, s.now), TIEBREAK_DELAY, s.now))
      else s
    case IncomingQuestion =>
      if h.phase.Announcing? || h.phase.Complete? then s.(host := h.(log := h.log + [Answered(s.now)])) else s
  }

  function Run(s: State, es: seq<Event>): (s': State)
    requires Shaped(s.host)
    ensures Shaped(s'.host)
    decreases |es|
  {
    if es == [] then s else Run(Step(s, es[0]), es[1..])
  }

  /** `mem_calloc`: everything zero, no timer. */
  function Begin(now: nat): (s: State)
    ensures Shaped(s.host)
  {
    State(Host(Off, 0, false, seq(CONFLICTS, i => 0), 0, 0, [], []), now)
  }

  // ----- Reading the history

  /** The times of the probes sent since the last restart. */
  function ProbesSince(log: seq<Entry>): (ps: seq<nat>) {
    if log == [] then []
    else
      var init, last := log[..|log| - 1], log[|log| - 1];
      match last
      case Restarted(_, _) => []
      case Probed(t) => ProbesSince(init) + [t]
      case _ => ProbesSince(init)
  }

  function LastRestart(log: seq<Entry>): (r: Option<Entry>)
    ensures r.Some? ==> r.value.Restarted?
  {
    if log == [] then None
    else if log[|log| - 1].Restarted? then Some(log[|log| - 1])
    else LastRestart(log[..|log| - 1])
  }

  /** How far a probe has to be from the one before it, or from the restart if it is the first. */
  function Gap(log: seq<Entry>, first: bool): (ms: nat) {
    if LastRestart(log).Some? && LastRestart(log).value.limited then CONFLICT_TIMEOUT
    else if first then 0 else PROBE_DELAY
  }

  /**
    What is demanded of an entry after the history `log`. A claim - an announcement or an answer -
    comes after exactly three probes since the last restart, and a probe delay after the third;
    a probe keeps its distance, which is five seconds under the rate limit.
   */
  ghost predicate EntryOk(log: seq<Entry>, e: Entry) {
    var ps := ProbesSince(log);
    match e
    case Announced(t) => |ps| == PROBE_COUNT && t >= ps[PROBE_COUNT - 1] + PROBE_DELAY
    case Answered(t) => |ps| == PROBE_COUNT && t >= ps[PROBE_COUNT - 1] + PROBE_DELAY
    case Probed(t) =>
      && |ps| < PROBE_COUNT && LastRestart(log).Some?
      && (ps == [] ==> t >= LastRestart(log).value.at + Gap(log, true))
      && (ps != [] ==> t >= ps[|ps| - 1] + Gap(log, false))
    case _ => true
  }

  ghost predicate LogOk(log: seq<Entry>) {
    log == [] || (LogOk(log[..|log| - 1]) && EntryOk(log[..|log| - 1], log[|log| - 1]))
  }

  lemma Appended(log: seq<Entry>, e: Entry)
    ensures ProbesSince(log + [e]) ==
            if e.Restarted? then [] else if e.Probed? then ProbesSince(log) + [e.at] else ProbesSince(log)
    ensures LastRestart(log + [e]) == if e.Restarted? then Some(e) else LastRestart(log)
    ensures LogOk(log + [e]) <==> LogOk(log) && EntryOk(log, e)
  {
    hide EntryOk;
    assert (log + [e])[..|log|] == log;
  }

  /** A pending timer comes no earlier than the next probe or announcement may. */
  ghost predicate TimerOk(h: Host) {
    var ps := ProbesSince(h.log);
    && |h.pending| <= 1
    && (h.pending != [] ==>
          match h.phase
          case Off => false
          case ProbeWait => LastRestart(h.log).Some? && h.pending[0] >= LastRestart(h.log).value.at + Gap(h.log, true)
          case Probing => LastRestart(h.log).Some? && ps != [] && h.pending[0] >= ps[|ps| - 1] + Gap(h.log, false)
          case AnnounceWait => ps != [] && h.pending[0] >= ps[|ps| - 1] + PROBE_DELAY
          case Announcing => true
          case Complete => false)
    && (h.pending != [] && (h.phase.ProbeWait? || h.phase.Probing?) ==>
          LastRestart(h.log).Some? && h.limited == LastRestart(h.log).value.limited)
  }

  /** Where the host is in the sequence, by what it has sent. */
  ghost predicate PhaseOk(h: Host, now: nat) {
    var ps := ProbesSince(h.log);
    match h.phase
    case Off => ps == [] && h.sentNum == 0
    case ProbeWait => ps == [] && h.sentNum == 0
    case Probing => |ps| == h.sentNum && 0 < h.sentNum < PROBE_COUNT
    case AnnounceWait => |ps| == PROBE_COUNT && h.sentNum == 0
    case Announcing => |ps| == PROBE_COUNT && h.sentNum == 1 && now >= ps[PROBE_COUNT - 1] + PROBE_DELAY
    case Complete => |ps| == PROBE_COUNT && h.sentNum == 0 && now >= ps[PROBE_COUNT - 1] + PROBE_DELAY
  }

  ghost predicate Inv(s: State) {
    Shaped(s.host) && LogOk(s.host.log) && TimerOk(s.host) && PhaseOk(s.host, s.now)
  }

  lemma SaveKeeps(h: Host, now: nat)
    requires Shaped(h) && LogOk(h.log)
    ensures var h' := SaveConflict(h, now);
            && LogOk(h'.log) && ProbesSince(h'.log) == ProbesSince(h.log) && LastRestart(h'.log) == LastRestart(h.log)
            && h'.phase == h.phase && h'.sentNum == h.sentNum && h'.pending == h.pending
  {
    hide ProbesSince, LastRestart, LogOk;
    Appended(h.log, Conflicted(now));
  }

  lemma RestartKeeps(h: Host, delay: nat, now: nat)
    requires Shaped(h) && LogOk(h.log) && |h.pending| <= 1
    ensures Inv(State(Restart(h, delay, now), now))
  {
    hide ProbesSince, LastRestart, LogOk;
    Appended(h.log, Restarted(now, h.limited));
    assert Untimeout(h.pending) == [];
  }

  /** A claim in a phase that allows one. */
  lemma ClaimKeeps(s: State, e: Entry)
    requires Inv(s) && (s.host.phase.Announcing? || s.host.phase.Complete?)
    requires e == Announced(s.now) || e == Answered(s.now)
    ensures Inv(s.(host := s.host.(log := s.host.log + [e])))
  {
    hide ProbesSince, LastRestart, LogOk;
    Appended(s.host.log, e);
  }

  lemma FireProbing(h: Host, sent: bool, now: nat)
    requires Inv(State(h, now)) && h.pending != [] && h.pending[0] <= now
    requires h.phase.ProbeWait? || h.phase.Probing?
    ensures Inv(State(ProbeAndAnnounce(h.(pending := h.pending[1..]), sent, now), now))
  {
    hide ProbesSince, LastRestart, LogOk;
    Appended(h.log, Probed(now));
    assert h.pending[1..] == [];
  }

  lemma FireAnnouncing(h: Host, sent: bool, now: nat)
    requires Inv(State(h, now)) && h.pending != [] && h.pending[0] <= now
    requires h.phase.AnnounceWait? || h.phase.Announcing?
    ensures Inv(State(ProbeAndAnnounce(h.(pending := h.pending[1..]), sent, now), now))
  {
    hide ProbesSince, LastRestart, LogOk;
    Appended(h.log, Announced(now));
    assert h.pending[1..] == [];
  }

  lemma StepKeeps(s: State, e: Event)
    requires Inv(s)
    ensures Inv(Step(s, e))
  {
    var h := s.host;
    hide ProbesSince, LastRestart, LogOk;
    match e
    case Tick(_) =>
    case Fire(sent) =>
      if h.pending != [] && h.pending[0] <= s.now {
        if h.phase.ProbeWait? || h.phase.Probing? {
          FireProbing(h, sent, s.now);
        } else {
          FireAnnouncing(h, sent, s.now);
        }
      }
    case RestartCall(delay) => RestartKeeps(h, delay, s.now);
    case AnnounceCall =>
      if h.phase.Announcing? || h.phase.Complete? {
        ClaimKeeps(s, Announced(s.now));
      }
    case ConflictingAnswer(delay) =>
      SaveKeeps(h, s.now);
      RestartKeeps(h, delay, s.now);
      assert |h.pending| <= 1;
    case IncomingProbe(_) =>
      SaveKeeps(h, s.now);
      RestartKeeps(SaveConflict(h, s.now), TIEBREAK_DELAY, s.now);
    case IncomingQuestion =>
      if h.phase.Announcing? || h.phase.Complete? {
        ClaimKeeps(s, Answered(s.now));
      }
  }

  lemma {:induction false} RunKeeps(s: State, es: seq<Event>)
    requires Inv(s)
    ensures Inv(Run(s, es))
    decreases |es|
  {
    hide Step, LogOk, TimerOk, PhaseOk;
    if es != [] {
      StepKeeps(s, es[0]);
      RunKeeps(Step(s, es[0]), es[1..]);
    }
  }

  lemma {:induction false} EveryEntryOk(log: seq<Entry>, i: nat)
    requires LogOk(log) && i < |log|
    ensures EntryOk(log[..i], log[i])
    decreases |log|
  {
    hide EntryOk;
    if i < |log| - 1 {
      EveryEntryOk(log[..|log| - 1], i);
      assert log[..|log| - 1][..i] == log[..i];
    }
  }

  /**
    Probe before claim: in every run at most one timer is pending, every announcement and answer
    comes after exactly three probes since the last restart, and probes keep their distance.
   */
  lemma ProbeBeforeClaim(start: nat, es: seq<Event>)
    ensures var h := Run(Begin(start), es).host;
            |h.pending| <= 1 && forall i :: 0 <= i < |h.log| ==> EntryOk(h.log[..i], h.log[i])
  {
    hide Run, EntryOk;
    var s := Begin(start);
    BeginInv(start);
    RunKeeps(s, es);
    var h := Run(s, es).host;
    forall i | 0 <= i < |h.log| ensures EntryOk(h.log[..i], h.log[i]) {
      EveryEntryOk(h.log, i);
    }
  }

  /** Once raised, the rate limit stays in force until probing has succeeded. */
  lemma LimitStays(s: State, e: Event)
    requires Inv(s) && s.host.limited && !Step(s, e).host.limited
    ensures e.Fire? && s.host.phase.AnnounceWait? && Step(s, e).host.phase.Announcing?
  {
    hide LogOk, ProbesSince, LastRestart;
  }

  // ----- A conflict without a callback

  predicate Silent(e: Event) {
    !e.RestartCall? && (e.IncomingProbe? ==> !e.loses)
  }

  /** Only conflicts have been noted since. */
  ghost predicate OnlyConflicts(log: seq<Entry>, log': seq<Entry>) {
    log <= log' && forall i :: |log| <= i < |log'| ==> log'[i].Conflicted?
  }

  lemma StepGrows(s: State, e: Event)
    requires Shaped(s.host)
    ensures s.host.log <= Step(s, e).host.log
  {
  }

  lemma {:induction false} LogGrows(s: State, es: seq<Event>)
    requires Shaped(s.host)
    ensures s.host.log <= Run(s, es).host.log
    decreases |es|
  {
    hide Step;
    if es != [] {
      StepGrows(s, es[0]);
      LogGrows(Step(s, es[0]), es[1..]);
    }
  }

  /** The conflict that stops the timer. */
  lemma ConflictStopsTimer(s: State, delay: nat)
    requires Inv(s) && (s.host.phase.Probing? || s.host.phase.AnnounceWait?)
    ensures var s' := Step(s, ConflictingAnswer(delay));
            Inv(s') && s'.host.phase == s.host.phase && s'.host.pending == []
  {
    hide LogOk, ProbesSince, LastRestart;
    StepKeeps(s, ConflictingAnswer(delay));
  }

  lemma SilentStep(s: State, e: Event)
    requires Inv(s) && (s.host.phase.Probing? || s.host.phase.AnnounceWait?) && s.host.pending == [] && Silent(e)
    ensures var s' := Step(s, e);
            && Inv(s') && s'.host.phase == s.host.phase && s'.host.pending == []
            && (s'.host.log == s.host.log || s'.host.log == s.host.log + [Conflicted(s.now)])
  {
    StepKeeps(s, e);
    hide LogOk, TimerOk, PhaseOk;
  }

  lemma LoudStep(s: State, e: Event)
    requires Shaped(s.host) && (s.host.phase.Probing? || s.host.phase.AnnounceWait?) && !Silent(e)
    ensures var log, log' := s.host.log, Step(s, e).host.log;
            log <= log' && |log'| > |log| && log'[|log'| - 1].Restarted?
  {
  }

  /** Without a timer a host that is probing stays as it is until an event restarts it. */
  lemma {:induction false} SilentRun(s: State, es: seq<Event>)
    requires Inv(s) && (s.host.phase.Probing? || s.host.phase.AnnounceWait?) && s.host.pending == []
    ensures var h := Run(s, es).host;
            h.pending == [] && OnlyConflicts(s.host.log, h.log) <==> forall e :: e in es ==> Silent(e)
    decreases |es|
  {
    hide LogOk, TimerOk, PhaseOk, Step, Silent;
    if es != [] {
      var s1 := Step(s, es[0]);
      LogGrows(s1, es[1..]);
      if Silent(es[0]) {
        SilentStep(s, es[0]);
        SilentRun(s1, es[1..]);
      } else {
        LoudStep(s, es[0]);
        var n := |s1.host.log| - 1;
        assert Run(s, es).host.log[n] == s1.host.log[n];
      }
    }
  }

  /**
    A conflict while probing stops the timer and nothing starts it again by itself: the host
    neither probes nor announces nor answers any more, and has no timer, if and only if nobody
    restarts it and no tiebreak is lost.
   */
  lemma ConflictSilences(start: nat, es: seq<Event>, delay: nat, later: seq<Event>)
    requires var h := Run(Begin(start), es).host; h.phase.Probing? || h.phase.AnnounceWait?
    ensures var s := Step(Run(Begin(start), es), ConflictingAnswer(delay));
            var h := Run(s, later).host;
            h.pending == [] && OnlyConflicts(s.host.log, h.log) <==> forall e :: e in later ==> Silent(e)
  {
    hide Run, Step, Silent, LogOk, TimerOk, PhaseOk;
    BeginInv(start);
    RunKeeps(Begin(start), es);
    var s := Run(Begin(start), es);
    ConflictStopsTimer(s, delay);
    SilentRun(Step(s, ConflictingAnswer(delay)), later);
  }

  lemma BeginInv(start: nat)
    ensures Inv(Begin(start))
  {
  }

  /**
    Under the rate limit a further attempt to probe comes at least five seconds after a due one
    if and only if that one was sent or an earlier one had been: the five seconds hold between
    probes that were sent, but first attempts that fail follow each other after 250 ms.
   */
  lemma NextAttempt(start: nat, es: seq<Event>, sent: bool)
    requires var s := Run(Begin(start), es);
             && (s.host.phase.ProbeWait? || s.host.phase.Probing?) && s.host.limited
             && s.host.pending != [] && s.host.pending[0] <= s.now
    ensures var s := Run(Begin(start), es);
            var h := Step(s, Fire(sent)).host;
            && |h.pending| == 1
            && (h.phase.ProbeWait? || h.phase.Probing? ==>
                  (h.pending[0] >= s.now + CONFLICT_TIMEOUT <==> sent || ProbesSince(s.host.log) != []))
            && (!(h.phase.ProbeWait? || h.phase.Probing?) ==> h.phase.AnnounceWait?)
  {
    hide Run, LogOk, ProbesSince, LastRestart;
    BeginInv(start);
    RunKeeps(Begin(start), es);
    assert Run(Begin(start), es).host.pending[1..] == [];
  }

  // ----- The conflict ring

  /** All conflict times so far. */
  function ConflictTimes(log: seq<Entry>): (cs: seq<nat>) {
    if log == [] then []
    else
      var cs := ConflictTimes(log[..|log| - 1]);
      if log[|log| - 1].Conflicted? then cs + [log[|log| - 1].at] else cs
  }

  lemma ConflictsAppended(log: seq<Entry>, e: Entry)
    ensures ConflictTimes(log + [e]) == if e.Conflicted? then ConflictTimes(log) + [e.at] else ConflictTimes(log)
  {
    assert (log + [e])[..|log|] == log;
  }

  /** The ring holds the latest fifteen conflict times, and the counter their number modulo 256. */
  ghost predicate RingOk(h: Host) {
    var cs := ConflictTimes(h.log);
    && Shaped(h) && h.index == |cs| % CONFLICTS && h.conflicts == |cs| % U8_SIZE
    && forall k :: 0 <= k < |cs| && k + CONFLICTS >= |cs| ==> h.times[k % CONFLICTS] == cs[k] % U32_SIZE
  }

  lemma SlotsApart(a: nat, b: nat)
    requires a < b < a + CONFLICTS
    ensures a % CONFLICTS != b % CONFLICTS
  {
  }

  lemma ModNext(n: nat, m: nat)
    requires m > 1
    ensures (n % m + 1) % m == (n + 1) % m
  {
    ModPlus(n % m + 1, n / m, m);
    assert n / m * m + (n % m + 1) == n + 1;
  }

  lemma SaveRing(h: Host, now: nat)
    requires RingOk(h)
    ensures RingOk(SaveConflict(h, now))
    ensures ConflictTimes(SaveConflict(h, now).log) == ConflictTimes(h.log) + [now]
  {
    hide ConflictTimes;
    var h', cs, n := SaveConflict(h, now), ConflictTimes(h.log), |ConflictTimes(h.log)|;
    ConflictsAppended(h.log, Conflicted(now));
    ModNext(n, CONFLICTS);
    ModNext(n, U8_SIZE);
    RingSlots(cs, h.times, n % CONFLICTS, now);
  }

  /** Overwriting the oldest slot with the newest time. */
  lemma RingSlots(cs: seq<nat>, times: seq<nat>, at: nat, now: nat)
    requires |times| == CONFLICTS && at == |cs| % CONFLICTS
    requires forall k :: 0 <= k < |cs| && k + CONFLICTS >= |cs| ==> times[k % CONFLICTS] == cs[k] % U32_SIZE
    ensures var cs', times' := cs + [now], times[at := now % U32_SIZE];
            forall k :: 0 <= k < |cs'| && k + CONFLICTS >= |cs'| ==> times'[k % CONFLICTS] == cs'[k] % U32_SIZE
  {
    var cs', times' := cs + [now], times[at := now % U32_SIZE];
    forall k | 0 <= k < |cs'| && k + CONFLICTS >= |cs'| ensures times'[k % CONFLICTS] == cs'[k] % U32_SIZE {
      if k < |cs| {
        SlotsApart(k, |cs|);
      }
    }
  }

  lemma StepRing(s: State, e: Event)
    requires RingOk(s.host)
    ensures RingOk(Step(s, e).host)
  {
    var h, h' := s.host, Step(s, e).host;
    assert Shaped(h);
    hide ConflictTimes, RingOk, SaveConflict;
    SaveRing(h, s.now);
    if e.IncomingProbe? {
      var c := SaveConflict(h, s.now);
      SameRing(c, Restart(c, TIEBREAK_DELAY, s.now));
    } else if e.ConflictingAnswer? && (h.phase.Probing? || h.phase.AnnounceWait?) {
      SameRing(SaveConflict(h, s.now), h');
    } else {
      SameRing(h, h');
    }
  }

  /** Steps that note no conflict leave the ring as it is. */
  lemma SameRing(h: Host, h': Host)
    requires RingOk(h) && h'.times == h.times && h'.index == h.index && h'.conflicts == h.conflicts
    requires h'.log == h.log
             || (|h'.log| == |h.log| + 1 && h'.log == h.log + [h'.log[|h.log|]] && !h'.log[|h.log|].Conflicted?)
    ensures RingOk(h')
  {
    hide ConflictTimes;
    if h'.log != h.log {
      ConflictsAppended(h.log, h'.log[|h.log|]);
    }
  }

  lemma {:induction false} RunRing(s: State, es: seq<Event>)
    requires RingOk(s.host)
    ensures RingOk(Run(s, es).host)
    decreases |es|
  {
    hide Step, ConflictTimes;
    if es != [] {
      StepRing(s, es[0]);
      RunRing(Step(s, es[0]), es[1..]);
    }
  }

  /** Fifteen conflicts within any ten seconds, as the standard has it. */
  predicate TooMany(cs: seq<nat>) {
    |cs| >= 15 && cs[|cs| - 1] as int - cs[|cs| - 15] as int < 10000
  }

  /** When a conflict raises the flag: the count is taken modulo 256 and the elapsed time modulo 2^32. */
  predicate Raised(cs: seq<nat>) {
    |cs| % 256 >= 15 && (cs[|cs| - 1] as int - cs[|cs| - 15] as int) % 0x1_0000_0000 < 10000
  }

  /**
    In every run, the ring holds the latest conflict times, and a further conflict puts the rate
    limit in force exactly when it was already in force or `Raised` says so.
   */
  lemma RateLimitExact(start: nat, es: seq<Event>)
    ensures var s := Run(Begin(start), es);
            && RingOk(s.host)
            && SaveConflict(s.host, s.now).limited
               == (s.host.limited || Raised(ConflictTimes(s.host.log) + [s.now]))
  {
    hide Run, ConflictTimes, SaveConflict;
    var s0 := Begin(start);
    BeginRing(start);
    RunRing(s0, es);
    var s := Run(s0, es);
    OldestSlot(s.host, s.now);
  }

  lemma BeginRing(start: nat)
    ensures RingOk(Begin(start).host)
  {
  }

  lemma ModDifference(a: int, b: int, m: nat)
    requires m > 0
    ensures (a % m - b % m) % m == (a - b) % m
  {
    var q := a / m - b / m;
    assert a - b == q * m + (a % m - b % m);
    ModPlus(a % m - b % m, q, m);
  }

  lemma ModPlus(x: int, q: int, m: nat)
    requires m > 0
    ensures (q * m + x) % m == x % m
  {
    var r := x % m;
    assert q * m + x == (q + x / m) * m + r;
    DivUnique(q * m + x, m, q + x / m, r);
  }

  /** Newest and oldest time in the ring. */
  lemma RingEnds(cs: seq<nat>, times: seq<nat>, n: nat)
    requires |times| == CONFLICTS && |cs| == n + 1 && |cs| >= CONFLICTS
    requires forall k :: 0 <= k < |cs| && k + CONFLICTS >= |cs| ==> times[k % CONFLICTS] == cs[k] % U32_SIZE
    ensures times[n % CONFLICTS] == cs[n] % U32_SIZE
    ensures times[(n % CONFLICTS + 1) % CONFLICTS] == cs[n + 1 - CONFLICTS] % U32_SIZE
  {
    var k := n + 1 - CONFLICTS;
    ModNext(n, CONFLICTS);
    ModPlus(k, 1, CONFLICTS);
    assert times[k % CONFLICTS] == cs[k] % U32_SIZE;
  }

  lemma OldestSlot(h: Host, now: nat)
    requires RingOk(h)
    ensures SaveConflict(h, now).limited == (h.limited || Raised(ConflictTimes(h.log) + [now]))
  {
    hide ConflictTimes;
    var cs := ConflictTimes(h.log) + [now];
    var n := |cs| - 1;
    SaveRing(h, now);
    ModNext(n, U8_SIZE);
    if |cs| % U8_SIZE >= CONFLICTS {
      var h' := SaveConflict(h, now);
      RingEnds(cs, h'.times, n);
      ModDifference(cs[n], cs[n + 1 - CONFLICTS], U32_SIZE);
    }
  }

  /** Conflict times in order, none of them in the future. */
  ghost predicate TimesOk(s: State) {
    var cs := ConflictTimes(s.host.log);
    && (forall i, k :: 0 <= i <= k < |cs| ==> cs[i] <= cs[k])
    && (forall i :: 0 <= i < |cs| ==> cs[i] <= s.now)
  }

  /** The step notes a conflict: an answer or a lost tiebreak while names are being probed. */
  predicate NotesConflict(s: State, e: Event) {
    && (s.host.phase.Probing? || s.host.phase.AnnounceWait?)
    && (e.ConflictingAnswer? || (e.IncomingProbe? && e.loses))
  }

  lemma StepConflicts(s: State, e: Event)
    requires Shaped(s.host)
    ensures ConflictTimes(Step(s, e).host.log)
         == if NotesConflict(s, e) then ConflictTimes(s.host.log) + [s.now] else ConflictTimes(s.host.log)
    ensures NotesConflict(s, e) ==> Step(s, e).host.limited == SaveConflict(s.host, s.now).limited
    ensures s.now <= Step(s, e).now
  {
    hide ConflictTimes, Shaped;
    var log := s.host.log;
    ConflictsAppended(log, Conflicted(s.now));
    ConflictsAppended(log, Announced(s.now));
    ConflictsAppended(log, Answered(s.now));
    ConflictsAppended(log, Probed(s.now));
    ConflictsAppended(log, Restarted(s.now, s.host.limited));
    var c := SaveConflict(s.host, s.now);
    ConflictsAppended(c.log, Restarted(s.now, c.limited));
  }

  lemma {:induction false} RunTimes(s: State, es: seq<Event>)
    requires Shaped(s.host) && TimesOk(s)
    ensures TimesOk(Run(s, es))
    decreases |es|
  {
    hide Step, ConflictTimes, NotesConflict, Shaped;
    if es != [] {
      StepConflicts(s, es[0]);
      RunTimes(Step(s, es[0]), es[1..]);
    }
  }

  /** The time that the last fifteen conflicts took. */
  function Elapsed(cs: seq<nat>): (d: int)
    requires |cs| >= 15
  {
    cs[|cs| - 1] as int - cs[|cs| - 15] as int
  }

  /**
    The rate limit against the standard, in every run and for every conflict noted. Fifteen
    conflicts within ten seconds find the flag up if and only if it was up already or the 8-bit
    counter has not just wrapped; and it goes up without them if and only if the counter allows it
    and the 32-bit clock has gone round.
   */
  lemma RateLimitInRuns(start: nat, es: seq<Event>, e: Event)
    requires NotesConflict(Run(Begin(start), es), e)
    ensures var s := Run(Begin(start), es);
            var h, cs := Step(s, e).host, ConflictTimes(s.host.log) + [s.now];
            && ConflictTimes(h.log) == cs
            && ((TooMany(cs) ==> h.limited)
                <==> !TooMany(cs) || s.host.limited || |cs| % U8_SIZE >= CONFLICTS)
            && ((h.limited && !s.host.limited ==> TooMany(cs))
                <==> s.host.limited || |cs| < CONFLICTS || |cs| % U8_SIZE < CONFLICTS
                     || Elapsed(cs) < U32_SIZE || Elapsed(cs) % U32_SIZE >= CONFLICT_WINDOW)
  {
    hide Run, Step, ConflictTimes, SaveConflict, NotesConflict;
    var s := Run(Begin(start), es);
    RunTimes(Begin(start), es) by { BeginTimes(start); }
    RateLimitExact(start, es);
    StepConflicts(s, e);
    CountersAgree(ConflictTimes(s.host.log) + [s.now]);
  }

  lemma BeginTimes(start: nat)
    ensures TimesOk(Begin(start))
  {
  }

  lemma CountersAgree(cs: seq<nat>)
    requires |cs| >= CONFLICTS ==> Elapsed(cs) >= 0
    ensures TooMany(cs) ==> (Raised(cs) <==> |cs| % U8_SIZE >= CONFLICTS)
    ensures Raised(cs) && !TooMany(cs) <==>
            |cs| >= CONFLICTS && |cs| % U8_SIZE >= CONFLICTS
            && Elapsed(cs) >= U32_SIZE && Elapsed(cs) % U32_SIZE < CONFLICT_WINDOW
  {
  }

  // ----- A run in which the rate limit is missed

  lemma {:induction false} RunConcat(s: State, xs: seq<Event>, ys: seq<Event>)
    requires Shaped(s.host)
    ensures Run(s, xs + ys) == Run(Run(s, xs), ys)
    decreases |xs|
  {
    hide Step;
    if xs == [] {
      assert xs + ys == ys;
    } else {
      assert (xs + ys)[1..] == xs[1..] + ys;
      RunConcat(Step(s, xs[0]), xs[1..], ys);
    }
  }

  /** Conflicts a second apart. */
  function Slowly(n: nat): (es: seq<Event>) {
    if n == 0 then [] else Slowly(n - 1) + [Tick(1000), ConflictingAnswer(0)]
  }

  /** Conflicts at one moment. */
  function AtOnce(n: nat): (es: seq<Event>) {
    if n == 0 then [] else AtOnce(n - 1) + [ConflictingAnswer(0)]
  }

  /** One probe is sent, and `n` conflicts follow a second apart. */
  function SlowRun(n: nat): (es: seq<Event>) {
    [RestartCall(0), Fire(true)] + Slowly(n)
  }

  /** After 255 of these, `n` more at one moment. */
  function MissedRun(n: nat): (es: seq<Event>) {
    SlowRun(255) + AtOnce(n)
  }

  /** While probing and without the flag, `n` conflicts so far. */
  ghost predicate Unlimited(s: State, n: nat) {
    && s.host.phase.Probing? && !s.host.limited && RingOk(s.host) && |ConflictTimes(s.host.log)| == n
  }

  /** A conflict that does not raise the flag. */
  lemma QuietConflict(s: State, n: nat)
    requires Unlimited(s, n) && !Raised(ConflictTimes(s.host.log) + [s.now])
    ensures var s' := Step(s, ConflictingAnswer(0));
            && Unlimited(s', n + 1) && s'.now == s.now
            && ConflictTimes(s'.host.log) == ConflictTimes(s.host.log) + [s.now]
  {
    hide ConflictTimes, Raised, RingOk, SaveConflict;
    assert Shaped(s.host) by { RingShaped(s.host); }
    OldestSlot(s.host, s.now);
    StepRing(s, ConflictingAnswer(0));
    StepConflicts(s, ConflictingAnswer(0));
    assert SaveConflict(s.host, s.now).phase == s.host.phase by { SavePhase(s.host, s.now); }
  }

  lemma RingShaped(h: Host)
    requires RingOk(h)
    ensures Shaped(h)
  {
  }

  lemma SavePhase(h: Host, now: nat)
    requires Shaped(h)
    ensures SaveConflict(h, now).phase == h.phase
  {
  }

  lemma Two(s: State, e: Event, e': Event)
    requires Shaped(s.host)
    ensures Run(s, [e, e']) == Step(Step(s, e), e')
  {
    hide Step;
    assert [e, e'][1..] == [e'];
    One(Step(s, e), e');
  }

  lemma One(s: State, e: Event)
    requires Shaped(s.host)
    ensures Run(s, [e]) == Step(s, e)
  {
    hide Step;
    var es := [e];
    assert es[1..] == [];
  }

  /** Conflict `i` of the slow ones comes after `i + 1` seconds. */
  ghost predicate SecondsApart(cs: seq<nat>) {
    forall i :: 0 <= i < |cs| ==> cs[i] == 1000 * (i + 1)
  }

  /** The state after one probe and `n` slow conflicts. */
  lemma {:induction false} SlowConflicts(n: nat)
    ensures var s := Run(Begin(0), SlowRun(n));
            Unlimited(s, n) && s.now == 1000 * n && SecondsApart(ConflictTimes(s.host.log))
  {
    hide Step, ConflictTimes, RingOk, Raised, Run;
    if n == 0 {
      assert SlowRun(0) == [RestartCall(0), Fire(true)];
      Two(Begin(0), RestartCall(0), Fire(true));
      FirstProbe();
    } else {
      SlowConflicts(n - 1);
      var s := Run(Begin(0), SlowRun(n - 1));
      var more := [Tick(1000), ConflictingAnswer(0)];
      assert SlowRun(n) == SlowRun(n - 1) + more;
      RunConcat(Begin(0), SlowRun(n - 1), more);
      Two(s, Tick(1000), ConflictingAnswer(0));
      var t := s.(now := s.now + 1000);
      assert Step(s, Tick(1000)) == t by { TickStep(s, 1000); }
      SlowNotRaised(ConflictTimes(s.host.log) + [t.now]);
      QuietConflict(t, n - 1);
    }
  }

  lemma TickStep(s: State, ms: nat)
    requires Shaped(s.host)
    ensures Step(s, Tick(ms)) == s.(now := s.now + ms)
  {
  }

  lemma SlowNotRaised(cs: seq<nat>)
    requires SecondsApart(cs)
    ensures !Raised(cs)
  {
  }

  lemma FirstProbe()
    ensures var s := Step(Step(Begin(0), RestartCall(0)), Fire(true));
            Unlimited(s, 0) && s.now == 0
  {
    hide ConflictTimes;
    var b := Begin(0);
    assert ConflictTimes(b.host.log) == [] by { NoConflicts(b.host.log); }
    var s1 := Step(b, RestartCall(0));
    StepConflicts(b, RestartCall(0));
    StepConflicts(s1, Fire(true));
  }

  lemma NoConflicts(log: seq<Entry>)
    requires log == []
    ensures ConflictTimes(log) == []
  {
  }

  /** From the 256th conflict to the 270th the counter is below fifteen. */
  lemma {:induction false} QuickConflicts(n: nat)
    requires n <= CONFLICTS
    ensures var s := Run(Begin(0), MissedRun(n));
            var cs := ConflictTimes(s.host.log);
            Unlimited(s, 255 + n) && s.now == 255000 && forall i :: 255 <= i < 255 + n ==> cs[i] == 255000
  {
    hide Step, ConflictTimes, RingOk, Raised, SlowRun;
    if n == 0 {
      SlowConflicts(255);
      assert MissedRun(0) == SlowRun(255);
    } else {
      QuickConflicts(n - 1);
      var s := Run(Begin(0), MissedRun(n - 1));
      var more := [ConflictingAnswer(0)];
      assert MissedRun(n) == MissedRun(n - 1) + more;
      RunConcat(Begin(0), MissedRun(n - 1), more);
      RingShaped(s.host);
      One(s, ConflictingAnswer(0));
      LowCount(ConflictTimes(s.host.log) + [s.now]);
      QuietConflict(s, 255 + n - 1);
    }
  }

  lemma LowCount(cs: seq<nat>)
    requires 256 <= |cs| <= 255 + CONFLICTS
    ensures !Raised(cs)
  {
  }

  /** Fifteen conflicts at one moment, after 255 others, and the rate limit is not in force. */
  lemma RateLimitMissed()
    ensures var s := Run(Begin(0), MissedRun(CONFLICTS));
            !s.host.limited && TooMany(ConflictTimes(s.host.log))
  {
    hide Run, ConflictTimes, MissedRun, RingOk;
    QuickConflicts(CONFLICTS);
  }
}
