/**
  The select and event protocol of `sockets.c` with core locking: callers of `lwip_select` and
  event callbacks interleave, one protected section at a time, and no wake-up is lost.
 */
module SelectWakeup {

  const SELWAIT_MAX: nat := 255

  datatype Kind = Recv | Send | Err

  /** The event fields of a socket slot. */
  datatype Sock = Sock(rcvevent: int, sendevent: bool, errevent: bool, selectWaiting: nat)

  predicate Ready(s: Sock, k: Kind) {
    match k
    case Recv => s.rcvevent > 0
    case Send => s.sendevent
    case Err => s.errevent
  }

  /** Where a caller of `lwip_select` stands; an index is the next slot its loop looks at. */
  datatype Phase =
    | Idle
    | Linking
    | Inc(i: nat)
    | Rescan(i: nat, found: bool)
    | Blocked
    | Dec(i: nat, limit: nat)
    | Unlinking

  /** A caller with its three descriptor sets, `maxfdp1` and the flag of its `select_cb`. */
  datatype Caller = Caller(sets: map<Kind, set<nat>>, nfds: nat, phase: Phase, signalled: bool)

  predicate Watches(c: Caller, s: nat, k: Kind) {
    s < c.nfds && k in c.sets && s in c.sets[k]
  }

  predicate WatchesAny(c: Caller, s: nat) {
    Watches(c, s, Recv) || Watches(c, s, Send) || Watches(c, s, Err)
  }

  datatype Event = RcvPlus | SendPlus | Error

  /** The event callback that holds the core lock, if one does. */
  datatype Callback =
    | NoCallback
    | Entered(s: nat, evt: Event)
    | Walking(s: nat, has: set<Kind>, todo: seq<nat>)

  datatype State = State(socks: seq<Sock>, callers: seq<Caller>, list: seq<nat>, cb: Callback)

  // ----- Steps

  /** One protected section, or one access to a semaphore. */
  datatype Step =
    | Begin(t: nat, sets: map<Kind, set<nat>>, nfds: nat)
    | Link(t: nat)
    | IncOne(t: nat, valid: bool)
    | RescanOne(t: nat, valid: bool, lastdata: bool)
    | Wake(t: nat)
    | Timeout(t: nat)
    | DecOne(t: nat)
    | Unlink(t: nat)
    | Enter(s: nat, evt: Event)
    | Record
    | Walk
    | RcvMinus(s: nat)
    | SendMinus(s: nat)
    | Reallocate(s: nat, writable: bool)

  predicate Enabled(st: State, step: Step) {
    match step
    case Begin(t, _, nfds) => t < |st.callers| && st.callers[t].phase.Idle? && nfds <= |st.socks|
    case Link(t) => t < |st.callers| && st.callers[t].phase.Linking? && st.cb.NoCallback?
    case IncOne(t, _) => t < |st.callers| && st.callers[t].phase.Inc?
    case RescanOne(t, _, _) => t < |st.callers| && st.callers[t].phase.Rescan?
    case Wake(t) => t < |st.callers| && st.callers[t].phase.Blocked? && st.callers[t].signalled
    case Timeout(t) => t < |st.callers| && st.callers[t].phase.Blocked?
    case DecOne(t) => t < |st.callers| && st.callers[t].phase.Dec?
    case Unlink(t) => t < |st.callers| && st.callers[t].phase.Unlinking? && st.cb.NoCallback?
    case Enter(s, _) => s < |st.socks| && st.cb.NoCallback?
    case Record => st.cb.Entered? && st.cb.s < |st.socks|
    case Walk => st.cb.Walking?
    case RcvMinus(s) => s < |st.socks|
    case SendMinus(s) => s < |st.socks|
    // a slot in use by a caller or a callback is not handed out again
    case Reallocate(s, _) =>
      && s < |st.socks|
      && (forall t :: 0 <= t < |st.callers| && WatchesAny(st.callers[t], s) ==> st.callers[t].phase.Idle?)
      && (st.cb.NoCallback? || st.cb.s != s)
  }

  function SetPhase(st: State, t: nat, p: Phase): State
    requires t < |st.callers|
  {
    st.(callers := st.callers[t := st.callers[t].(phase := p)])
  }

  /** The turn of the loop that counts the caller in on slot `i`. */
  function IncStep(st: State, t: nat, valid: bool): State
    requires t < |st.callers| && st.callers[t].phase.Inc?
  {
    var c := st.callers[t];
    var i := c.phase.i;
    if i >= c.nfds || i >= |st.socks| then SetPhase(st, t, Rescan(0, false))
    else if !WatchesAny(c, i) then SetPhase(st, t, Inc(i + 1))
    else if !valid || st.socks[i].selectWaiting == SELWAIT_MAX then SetPhase(st, t, Dec(0, i))
    else
      SetPhase(st.(socks := st.socks[i := st.socks[i].(selectWaiting := st.socks[i].selectWaiting + 1)]), t, Inc(i + 1))
  }

  /** The turn of the second `lwip_selscan` over slot `i`. */
  function RescanStep(st: State, t: nat, valid: bool, lastdata: bool): State
    requires t < |st.callers| && st.callers[t].phase.Rescan?
  {
    var c := st.callers[t];
    var i, found := c.phase.i, c.phase.found;
    if i >= c.nfds || i >= |st.socks| then SetPhase(st, t, if found then Dec(0, c.nfds) else Blocked)
    else if !WatchesAny(c, i) then SetPhase(st, t, Rescan(i + 1, found))
    else if !valid then SetPhase(st, t, Dec(0, c.nfds))
    else
      var hit := (Watches(c, i, Recv) && (lastdata || Ready(st.socks[i], Recv)))
                 || (Watches(c, i, Send) && Ready(st.socks[i], Send))
                 || (Watches(c, i, Err) && Ready(st.socks[i], Err));
      SetPhase(st, t, Rescan(i + 1, found || hit))
  }

  function DecStep(st: State, t: nat): State
    requires t < |st.callers| && st.callers[t].phase.Dec?
  {
    var c := st.callers[t];
    var i, limit := c.phase.i, c.phase.limit;
    if i >= limit || i >= |st.socks| then SetPhase(st, t, Unlinking)
    else if !WatchesAny(c, i) || st.socks[i].selectWaiting == 0 then SetPhase(st, t, Dec(i + 1, limit))
    else
      SetPhase(st.(socks := st.socks[i := st.socks[i].(selectWaiting := st.socks[i].selectWaiting - 1)]),
               t, Dec(i + 1, limit))
  }

  /** The event fields after a callback has recorded its event. */
  function Recorded(s: Sock, evt: Event): Sock {
    match evt
    case RcvPlus => s.(rcvevent := s.rcvevent + 1)
    case SendPlus => s.(sendevent := true)
    case Error => s.(errevent := true)
  }

  /** Whether the waiters are looked at: a further receive event or a set send event needs no look. */
  predicate ChecksWaiters(s: Sock, evt: Event) {
    match evt
    case RcvPlus => s.rcvevent + 1 <= 1
    case SendPlus => !s.sendevent
    case Error => true
  }

  function RecordStep(st: State): State
    requires st.cb.Entered? && st.cb.s < |st.socks|
  {
    var s, evt := st.cb.s, st.cb.evt;
    var sock := Recorded(st.socks[s], evt);
    var has := set k: Kind | Ready(sock, k);
    var walks := sock.selectWaiting > 0 && ChecksWaiters(st.socks[s], evt) && st.list != [];
    st.(socks := st.socks[s := sock], cb := if walks then Walking(s, has, st.list) else NoCallback)
  }

  /** `select_check_waiters` at one entry of the list. */
  function WalkStep(st: State): State
    requires st.cb.Walking?
  {
    var todo := st.cb.todo;
    if todo == [] then st.(cb := NoCallback)
    else
      var t, rest := todo[0], todo[1..];
      var next := if rest == [] then NoCallback else st.cb.(todo := rest);
      if t < |st.callers| && !st.callers[t].signalled
         && exists k: Kind :: k in st.cb.has && Watches(st.callers[t], st.cb.s, k)
      then st.(callers := st.callers[t := st.callers[t].(signalled := true)], cb := next)
      else st.(cb := next)
  }

  function RemoveId(list: seq<nat>, t: nat): (r: seq<nat>)
    ensures forall x :: x in r <==> x in list && x != t
  {
    if list == [] then [] else if list[0] == t then RemoveId(list[1..], t) else [list[0]] + RemoveId(list[1..], t)
  }

  function Next(st: State, step: Step): State
    requires Enabled(st, step)
  {
    match step
    case Begin(t, sets, nfds) => st.(callers := st.callers[t := Caller(sets, nfds, Linking, false)])
    case Link(t) =>
      st.(list := [t] + st.list, callers := st.callers[t := st.callers[t].(phase := Inc(0), signalled := false)])
    case IncOne(t, valid) => IncStep(st, t, valid)
    case RescanOne(t, valid, lastdata) => RescanStep(st, t, valid, lastdata)
    case Wake(t) => SetPhase(st, t, Dec(0, st.callers[t].nfds))
    case Timeout(t) => SetPhase(st, t, Dec(0, st.callers[t].nfds))
    case DecOne(t) => DecStep(st, t)
    case Unlink(t) => SetPhase(st, t, Idle).(list := RemoveId(st.list, t))
    case Enter(s, evt) => st.(cb := Entered(s, evt))
    case Record => RecordStep(st)
    case Walk => WalkStep(st)
    case RcvMinus(s) => st.(socks := st.socks[s := st.socks[s].(rcvevent := st.socks[s].rcvevent - 1)])
    case SendMinus(s) => st.(socks := st.socks[s := st.socks[s].(sendevent := false)])
    case Reallocate(s, writable) =>
      st.(socks := st.socks[s := st.socks[s].(rcvevent := 0, sendevent := writable, errevent := false)])
  }

  // ----- What every step keeps

  /** The caller is counted in `select_waiting` of slot `s`. */
  predicate Holds(c: Caller, s: nat) {
    && WatchesAny(c, s)
    && match c.phase
       case Inc(i) => s < i
       case Rescan(_, _) => true
       case Blocked => true
       case Dec(i, limit) => i <= s < limit
       case _ => false
  }

  function CountHolders(callers: seq<Caller>, s: nat): (n: nat) {
    if callers == [] then 0 else CountHolders(callers[1..], s) + if Holds(callers[0], s) then 1 else 0
  }

  lemma {:induction false} CountUpdate(callers: seq<Caller>, t: nat, c: Caller, s: nat)
    requires t < |callers|
    ensures CountHolders(callers[t := c], s)
         == CountHolders(callers, s) + (if Holds(c, s) then 1 else 0) - (if Holds(callers[t], s) then 1 else 0)
  {
    if t == 0 {
      assert callers[t := c][1..] == callers[1..];
    } else {
      CountUpdate(callers[1..], t - 1, c, s);
      assert callers[t := c][1..] == callers[1..][t - 1 := c];
    }
  }

  lemma {:induction false} CountPositive(callers: seq<Caller>, t: nat, s: nat)
    requires t < |callers| && Holds(callers[t], s)
    ensures CountHolders(callers, s) > 0
  {
    if t > 0 {
      CountPositive(callers[1..], t - 1, s);
    }
  }

  predicate Linked(p: Phase) {
    !p.Idle? && !p.Linking?
  }

  /** The caller has looked at slot `s` since it was linked, found nothing anywhere, and relies on a signal. */
  predicate Armed(c: Caller, s: nat) {
    c.phase.Blocked? || (c.phase.Rescan? && !c.phase.found && s < c.phase.i)
  }

  /** A wake-up for the event is under way: the callback still has to reach this caller. */
  predicate Pending(cb: Callback, t: nat, s: nat, k: Kind) {
    cb.Walking? && cb.s == s && k in cb.has && t in cb.todo
  }

  ghost predicate Sound(st: State) {
    && (forall t :: 0 <= t < |st.callers| ==> st.callers[t].nfds <= |st.socks|)
    && (forall t :: 0 <= t < |st.callers| && st.callers[t].phase.Dec? ==>
          st.callers[t].phase.limit <= st.callers[t].nfds)
    && (forall t :: 0 <= t < |st.callers| ==> (t in st.list <==> Linked(st.callers[t].phase)))
    && (forall s :: 0 <= s < |st.socks| ==> st.socks[s].selectWaiting == CountHolders(st.callers, s))
  }

  /** Caller `t` relies on a signal for event `k` of slot `s`, and the event is there. */
  ghost predicate Owed(st: State, t: nat, s: nat, k: Kind) {
    && t < |st.callers| && s < |st.socks|
    && Armed(st.callers[t], s) && Watches(st.callers[t], s, k) && Ready(st.socks[s], k)
  }

  /** A ready event that a caller relies on has been signalled, or its signal is under way. */
  ghost predicate Woken(st: State) {
    forall t: nat, s: nat, k :: Owed(st, t, s, k) ==> st.callers[t].signalled || Pending(st.cb, t, s, k)
  }

  /** Changing one caller changes the counts as its own holding changes. */
  lemma CallerChange(st: State, t: nat, c: Caller)
    requires Sound(st) && t < |st.callers|
    ensures forall s :: 0 <= s < |st.socks| ==>
              CountHolders(st.callers[t := c], s) == st.socks[s].selectWaiting
                + (if Holds(c, s) then 1 else 0) - (if Holds(st.callers[t], s) then 1 else 0)
  {
    forall s | 0 <= s < |st.socks|
      ensures CountHolders(st.callers[t := c], s) == st.socks[s].selectWaiting
                + (if Holds(c, s) then 1 else 0) - (if Holds(st.callers[t], s) then 1 else 0)
    {
      CountUpdate(st.callers, t, c, s);
    }
  }

  lemma IncStepSound(st: State, t: nat, valid: bool)
    requires Sound(st) && t < |st.callers| && st.callers[t].phase.Inc?
    ensures Sound(IncStep(st, t, valid))
  {
    hide CountHolders;
    CallerChange(st, t, IncStep(st, t, valid).callers[t]);
  }

  lemma DecStepSound(st: State, t: nat)
    requires Sound(st) && t < |st.callers| && st.callers[t].phase.Dec?
    ensures Sound(DecStep(st, t))
  {
    hide CountHolders;
    var c := st.callers[t];
    CallerChange(st, t, DecStep(st, t).callers[t]);
    if c.phase.i < |st.socks| && Holds(c, c.phase.i) {
      CountPositive(st.callers, t, c.phase.i);
    }
  }

  lemma ListStepSound(st: State, step: Step)
    requires Sound(st) && Enabled(st, step) && (step.Begin? || step.Link? || step.Unlink?)
    ensures Sound(Next(st, step))
  {
    hide CountHolders;
    CallerChange(st, step.t, Next(st, step).callers[step.t]);
  }

  /** Nothing the second scan does changes what the caller is counted in. */
  lemma RescanHolds(c: Caller, p: Phase, s: nat)
    requires c.phase.Rescan? && (p.Rescan? || p.Blocked? || p == Dec(0, c.nfds))
    ensures Holds(c.(phase := p), s) <==> Holds(c, s)
  {
  }

  lemma RescanStepSound(st: State, t: nat, valid: bool, lastdata: bool)
    requires Sound(st) && t < |st.callers| && st.callers[t].phase.Rescan?
    ensures Sound(RescanStep(st, t, valid, lastdata))
  {
    hide CountHolders, Ready, Watches, Holds;
    var c, c' := st.callers[t], RescanStep(st, t, valid, lastdata).callers[t];
    CallerChange(st, t, c');
    forall s: nat ensures Holds(c', s) <==> Holds(c, s) {
      RescanHolds(c, c'.phase, s);
    }
  }

  lemma WakeStepSound(st: State, step: Step)
    requires Sound(st) && Enabled(st, step) && (step.Wake? || step.Timeout?)
    ensures Sound(Next(st, step))
  {
    hide CountHolders;
    CallerChange(st, step.t, Next(st, step).callers[step.t]);
  }

  lemma EventStepSound(st: State, step: Step)
    requires Sound(st) && Enabled(st, step)
    requires step.Enter? || step.Record? || step.RcvMinus? || step.SendMinus? || step.Reallocate?
    ensures Sound(Next(st, step))
  {
  }

  lemma WalkStepSound(st: State)
    requires Sound(st) && st.cb.Walking?
    ensures Sound(WalkStep(st))
  {
    hide CountHolders;
    if st.cb.todo != [] && st.cb.todo[0] < |st.callers| {
      var t := st.cb.todo[0];
      CallerChange(st, t, st.callers[t].(signalled := true));
    }
  }

  lemma KeepsSound(st: State, step: Step)
    requires Sound(st) && Enabled(st, step)
    ensures Sound(Next(st, step))
  {
    hide Sound;
    if step.Walk? {
      WalkStepSound(st);
    } else if step.Enter? || step.Record? || step.RcvMinus? || step.SendMinus? || step.Reallocate? {
      EventStepSound(st, step);
    } else if step.IncOne? {
      IncStepSound(st, step.t, step.valid);
    } else if step.DecOne? {
      DecStepSound(st, step.t);
    } else if step.Begin? || step.Link? || step.Unlink? {
      ListStepSound(st, step);
    } else if step.RescanOne? {
      RescanStepSound(st, step.t, step.valid, step.lastdata);
    } else {
      WakeStepSound(st, step);
    }
  }

  // ----- No wake-up is lost

  /** Only caller `t` and the counts of the slots have changed. */
  ghost predicate OnlyCaller(st: State, st': State, t: nat) {
    && |st'.callers| == |st.callers| && |st'.socks| == |st.socks| && st'.cb == st.cb
    && (forall u :: 0 <= u < |st.callers| && u != t ==> st'.callers[u] == st.callers[u])
    && (forall s :: 0 <= s < |st.socks| ==> st'.socks[s].(selectWaiting := 0) == st.socks[s].(selectWaiting := 0))
  }

  /** What is owed to the other callers stays as it was. */
  lemma OthersWoken(st: State, st': State, t: nat)
    requires Woken(st) && OnlyCaller(st, st', t)
    requires forall s: nat, k :: Owed(st', t, s, k) ==> st'.callers[t].signalled || Pending(st'.cb, t, s, k)
    ensures Woken(st')
  {
    forall u: nat, s: nat, k | Owed(st', u, s, k) ensures st'.callers[u].signalled || Pending(st'.cb, u, s, k) {
      if u != t {
        assert st'.socks[s].(selectWaiting := 0) == st.socks[s].(selectWaiting := 0);
        assert Owed(st, u, s, k);
      }
    }
  }

  /** A caller that has not begun its second scan relies on nothing. */
  predicate Unarmed(p: Phase) {
    !p.Blocked? && (p.Rescan? ==> p.i == 0)
  }

  lemma UnarmedWoken(st: State, st': State, t: nat)
    requires Woken(st) && OnlyCaller(st, st', t) && t < |st'.callers| && Unarmed(st'.callers[t].phase)
    ensures Woken(st')
  {
    hide Woken, OnlyCaller;
    OthersWoken(st, st', t);
  }

  lemma IncStepWoken(st: State, t: nat, valid: bool)
    requires Woken(st) && t < |st.callers| && st.callers[t].phase.Inc?
    ensures Woken(IncStep(st, t, valid))
  {
    hide Woken, WatchesAny;
    UnarmedWoken(st, IncStep(st, t, valid), t);
  }

  lemma DecStepWoken(st: State, t: nat)
    requires Woken(st) && t < |st.callers| && st.callers[t].phase.Dec?
    ensures Woken(DecStep(st, t))
  {
    hide Woken, WatchesAny;
    UnarmedWoken(st, DecStep(st, t), t);
  }

  /** The second scan: a slot it leaves behind without a hit was not ready. */
  lemma RescanStepWoken(st: State, t: nat, valid: bool, lastdata: bool)
    requires Woken(st) && t < |st.callers| && st.callers[t].phase.Rescan? && st.callers[t].nfds <= |st.socks|
    ensures Woken(RescanStep(st, t, valid, lastdata))
  {
    var st' := RescanStep(st, t, valid, lastdata);
    forall s: nat, k | Owed(st', t, s, k) ensures st'.callers[t].signalled || Pending(st'.cb, t, s, k) {
      assert Owed(st, t, s, k);
    }
    hide Woken;
    OthersWoken(st, st', t);
  }

  lemma CallerStepWoken(st: State, step: Step)
    requires Sound(st) && Woken(st) && Enabled(st, step)
    requires step.Begin? || step.Link? || step.IncOne? || step.RescanOne? || step.Wake? || step.Timeout?
             || step.DecOne? || step.Unlink?
    ensures Woken(Next(st, step))
  {
    hide CountHolders, Woken, IncStep, DecStep, RescanStep, RemoveId;
    if step.IncOne? {
      IncStepWoken(st, step.t, step.valid);
    } else if step.DecOne? {
      DecStepWoken(st, step.t);
    } else if step.RescanOne? {
      RescanStepWoken(st, step.t, step.valid, step.lastdata);
    } else {
      UnarmedWoken(st, Next(st, step), step.t);
    }
  }

  /** Between callbacks, everything owed has been signalled already. */
  lemma RecordStepWoken(st: State)
    requires Sound(st) && Woken(st) && st.cb.Entered? && st.cb.s < |st.socks|
    ensures Woken(RecordStep(st))
  {
    hide CountHolders;
    var st' := RecordStep(st);
    forall t: nat, s: nat, k | Owed(st', t, s, k) ensures st'.callers[t].signalled || Pending(st'.cb, t, s, k) {
      if Owed(st, t, s, k) {
        assert st.callers[t].signalled;
      } else {
        assert s == st.cb.s && ChecksWaiters(st.socks[s], st.cb.evt);
        CountPositive(st.callers, t, s);
      }
    }
  }

  lemma WalkStepWoken(st: State)
    requires Sound(st) && Woken(st) && st.cb.Walking?
    ensures Woken(WalkStep(st))
  {
    var st' := WalkStep(st);
    forall t: nat, s: nat, k | Owed(st', t, s, k) ensures st'.callers[t].signalled || Pending(st'.cb, t, s, k) {
      assert Owed(st, t, s, k);
    }
  }

  lemma EventStepWoken(st: State, step: Step)
    requires Sound(st) && Woken(st) && Enabled(st, step)
    requires step.Enter? || step.RcvMinus? || step.SendMinus? || step.Reallocate?
    ensures Woken(Next(st, step))
  {
    var st' := Next(st, step);
    forall t: nat, s: nat, k | Owed(st', t, s, k) ensures st'.callers[t].signalled || Pending(st'.cb, t, s, k) {
      assert Owed(st, t, s, k);
    }
  }

  lemma KeepsWoken(st: State, step: Step)
    requires Sound(st) && Woken(st) && Enabled(st, step)
    ensures Woken(Next(st, step))
  {
    hide Sound, Woken;
    if step.Walk? {
      WalkStepWoken(st);
    } else if step.Record? {
      RecordStepWoken(st);
    } else if step.Enter? || step.RcvMinus? || step.SendMinus? || step.Reallocate? {
      EventStepWoken(st, step);
    } else {
      CallerStepWoken(st, step);
    }
  }

  // ----- Runs

  ghost predicate IsRun(states: seq<State>, steps: seq<Step>) {
    && |states| == |steps| + 1
    && forall i :: 0 <= i < |steps| ==> Enabled(states[i], steps[i]) && states[i + 1] == Next(states[i], steps[i])
  }

  /** Nobody is in `lwip_select` and no callback is running; the events are whatever they are. */
  ghost predicate Initial(st: State) {
    && st.list == [] && st.cb.NoCallback?
    && (forall t :: 0 <= t < |st.callers| ==> st.callers[t].phase.Idle? && st.callers[t].nfds <= |st.socks|)
    && (forall s :: 0 <= s < |st.socks| ==> st.socks[s].selectWaiting == 0)
  }

  lemma {:induction false} NoHolders(callers: seq<Caller>, s: nat)
    requires forall t :: 0 <= t < |callers| ==> callers[t].phase.Idle?
    ensures CountHolders(callers, s) == 0
  {
    if callers != [] {
      NoHolders(callers[1..], s);
    }
  }

  lemma {:induction false} RunKeeps(states: seq<State>, steps: seq<Step>, n: nat)
    requires IsRun(states, steps) && Initial(states[0]) && n < |states|
    ensures Sound(states[n]) && Woken(states[n])
  {
    hide Next, CountHolders;
    if n == 0 {
      forall s | 0 <= s < |states[0].socks| ensures CountHolders(states[0].callers, s) == 0 {
        NoHolders(states[0].callers, s);
      }
    } else {
      RunKeeps(states, steps, n - 1);
      KeepsSound(states[n - 1], steps[n - 1]);
      KeepsWoken(states[n - 1], steps[n - 1]);
    }
  }

  /**
    No lost wake-up. In every interleaving of any number of callers and callbacks, a caller that
    is blocked on its semaphore while an event it watches is there has been signalled, or the
    callback that recorded the event still has to walk to it; once no callback holds the core
    lock, it has been signalled.
   */
  lemma NoLostWakeup(states: seq<State>, steps: seq<Step>, n: nat, t: nat, s: nat, k: Kind)
    requires IsRun(states, steps) && Initial(states[0]) && n < |states|
    requires t < |states[n].callers| && states[n].callers[t].phase.Blocked?
    requires s < |states[n].socks| && Watches(states[n].callers[t], s, k) && Ready(states[n].socks[s], k)
    ensures states[n].callers[t].signalled || Pending(states[n].cb, t, s, k)
    ensures states[n].cb.NoCallback? ==> states[n].callers[t].signalled
  {
    RunKeeps(states, steps, n);
    assert Owed(states[n], t, s, k);
  }

  /** Walking on by itself, the callback signals every caller it owes one, and lets go of the lock. */
  ghost function Finish(st: State): (r: State)
    requires st.cb.Walking?
    ensures r.cb.NoCallback?
    decreases |st.cb.todo|
  {
    var st' := WalkStep(st);
    if st'.cb.Walking? then Finish(st') else st'
  }

  lemma {:induction false} FinishSignals(st: State, t: nat, s: nat, k: Kind)
    requires Sound(st) && Woken(st) && st.cb.Walking? && t < |st.callers| && Owed(st, t, s, k)
    ensures t < |Finish(st).callers| && Finish(st).callers[t].signalled
    decreases |st.cb.todo|
  {
    var st' := WalkStep(st);
    WalkStepSound(st);
    WalkStepWoken(st);
    assert Owed(st', t, s, k);
    if st'.cb.Walking? {
      FinishSignals(st', t, s, k);
    }
  }

  /** Nobody is signalled for nothing: a callback signals only callers that watch an event it saw. */
  lemma SignalIsCaused(st: State, step: Step, t: nat)
    requires Sound(st) && Enabled(st, step) && t < |st.callers|
    requires !st.callers[t].signalled && Next(st, step).callers[t].signalled
    ensures step.Walk? && st.cb.todo != [] && st.cb.todo[0] == t
    ensures exists k: Kind :: k in st.cb.has && Watches(st.callers[t], st.cb.s, k)
  {
  }
}
