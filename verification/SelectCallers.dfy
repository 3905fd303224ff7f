/**
  The callers of `lwip_select` one by one: when they go to sleep, who is counted in, and when a
  callback walks the list.
 */
module SelectCallers {
  import opened SelectWakeup

  // ----- Going to sleep

  /** The second scan of caller `t` looks at a slot where an event that it watches is there. */
  predicate FindsReady(st: State, step: Step, t: nat) {
    && step.RescanOne? && step.t == t && step.valid
    && t < |st.callers| && st.callers[t].phase.Rescan?
    && var c := st.callers[t];
    var i := c.phase.i;
    && i < c.nfds && i < |st.socks|
    && (|| (Recv in c.sets && i in c.sets[Recv] && (step.lastdata || st.socks[i].rcvevent > 0))
        || (Send in c.sets && i in c.sets[Send] && st.socks[i].sendevent)
        || (Err in c.sets && i in c.sets[Err] && st.socks[i].errevent))
  }

  /** It has done so since it last entered `lwip_select`. */
  ghost predicate HasFound(states: seq<State>, steps: seq<Step>, t: nat, n: nat)
    requires n <= |steps| && n <= |states|
  {
    n > 0 && !(steps[n - 1].Begin? && steps[n - 1].t == t)
    && (FindsReady(states[n - 1], steps[n - 1], t) || HasFound(states, steps, t, n - 1))
  }

  /** The flag of the second scan. */
  predicate FlagIs(p: Phase, found: bool) {
    match p
    case Linking => !found
    case Inc(_) => !found
    case Rescan(_, f) => f == found
    case Blocked => !found
    case _ => true
  }

  lemma FlagStep(st: State, step: Step, t: nat, found: bool)
    requires Enabled(st, step) && t < |st.callers| && FlagIs(st.callers[t].phase, found)
    ensures |Next(st, step).callers| == |st.callers|
    ensures var found' := !(step.Begin? && step.t == t) && (FindsReady(st, step, t) || found);
            FlagIs(Next(st, step).callers[t].phase, found')
  {
    hide RemoveId;
  }

  lemma {:induction false} FlagsHold(states: seq<State>, steps: seq<Step>, t: nat, n: nat)
    requires IsRun(states, steps) && Initial(states[0]) && n < |states| && t < |states[0].callers|
    ensures |states[n].callers| == |states[0].callers|
    ensures FlagIs(states[n].callers[t].phase, HasFound(states, steps, t, n))
  {
    hide Next, Enabled, FindsReady, FlagIs;
    if n == 0 {
      IdleFlag(states[0], t);
    } else {
      FlagsHold(states, steps, t, n - 1);
      FlagStep(states[n - 1], steps[n - 1], t, HasFound(states, steps, t, n - 1));
    }
  }

  lemma IdleFlag(st: State, t: nat)
    requires Initial(st) && t < |st.callers|
    ensures FlagIs(st.callers[t].phase, false)
  {
  }

  /**
    A caller goes to sleep if and only if its second scan, since it entered `lwip_select`, has met
    none of the events it watches; otherwise it leaves with all its slots still to be counted out.
   */
  lemma SleepsExactly(states: seq<State>, steps: seq<Step>, n: nat, t: nat)
    requires IsRun(states, steps) && Initial(states[0]) && n < |steps| && t < |states[0].callers|
    requires steps[n].RescanOne? && steps[n].t == t
    requires |states[n].callers| == |states[0].callers| && states[n].callers[t].phase.Rescan?
    requires states[n].callers[t].phase.i >= states[n].callers[t].nfds
    ensures |states[n + 1].callers| == |states[0].callers|
    ensures states[n + 1].callers[t].phase
         == if HasFound(states, steps, t, n) then Dec(0, states[n].callers[t].nfds) else Blocked
  {
    hide HasFound;
    FlagsHold(states, steps, t, n);
  }

  // ----- Counts that fit

  /** The 8-bit count of waiting callers never overflows: a caller that would be the 256th gives up. */
  lemma {:induction false} CountsFit(states: seq<State>, steps: seq<Step>, n: nat)
    requires IsRun(states, steps) && Initial(states[0]) && n < |states|
    ensures forall s :: 0 <= s < |states[n].socks| ==> states[n].socks[s].selectWaiting <= 255
  {
    if n > 0 {
      CountsFit(states, steps, n - 1);
      CountStep(states[n - 1], steps[n - 1]);
    }
  }

  lemma CountStep(st: State, step: Step)
    requires Enabled(st, step) && forall s :: 0 <= s < |st.socks| ==> st.socks[s].selectWaiting <= 255
    ensures forall s :: 0 <= s < |Next(st, step).socks| ==> Next(st, step).socks[s].selectWaiting <= 255
  {
    hide WatchesAny, RemoveId;
  }

  // ----- The list

  /** Every caller is in the list once at most. */
  predicate Once(list: seq<nat>) {
    forall i, j :: 0 <= i < j < |list| ==> list[i] != list[j]
  }

  lemma {:induction false} RemoveAt(list: seq<nat>, i: nat)
    requires Once(list) && i < |list|
    ensures RemoveId(list, list[i]) == list[..i] + list[i + 1..]
  {
    var rest := list[1..];
    if i == 0 {
      NotThere(rest, list[0]);
    } else {
      RemoveAt(rest, i - 1);
      assert rest[..i - 1] == list[1..i] && rest[i..] == list[i + 1..];
    }
  }

  lemma OnceWithout(list: seq<nat>, i: nat)
    requires Once(list) && i < |list|
    ensures Once(list[..i] + list[i + 1..])
  {
  }

  lemma {:induction false} NotThere(list: seq<nat>, t: nat)
    requires t !in list
    ensures RemoveId(list, t) == list
  {
    if list != [] {
      NotThere(list[1..], t);
    }
  }

  lemma {:induction false} ListedOnce(states: seq<State>, steps: seq<Step>, n: nat)
    requires IsRun(states, steps) && Initial(states[0]) && n < |states|
    ensures Once(states[n].list)
  {
    if n > 0 {
      var st, step := states[n - 1], steps[n - 1];
      RunKeeps(states, steps, n - 1);
      ListedOnce(states, steps, n - 1);
      hide Next, Sound, Woken;
      ListStep(st, step);
    }
  }

  /** A caller is linked in front of all others, and unlinked without moving any other; nothing else changes the list. */
  lemma ListStep(st: State, step: Step)
    requires Sound(st) && Enabled(st, step) && Once(st.list)
    ensures var list := Next(st, step).list;
            && Once(list)
            && (step.Link? ==> list == [step.t] + st.list && step.t !in st.list)
            && (step.Unlink? ==> exists a, b :: st.list == a + [step.t] + b && list == a + b)
            && (!step.Link? && !step.Unlink? ==> list == st.list)
  {
    hide CountHolders, RemoveId, WatchesAny;
    if step.Unlink? {
      assert step.t in st.list;
      var i :| 0 <= i < |st.list| && st.list[i] == step.t;
      RemoveAt(st.list, i);
      OnceWithout(st.list, i);
      assert st.list == st.list[..i] + [step.t] + st.list[i + 1..];
    }
  }

  // ----- Walking the list

  /** The event is news: the slot was not readable, or not writable; an error always is. */
  predicate IsNews(sock: Sock, evt: Event) {
    match evt
    case RcvPlus => sock.rcvevent <= 0
    case SendPlus => !sock.sendevent
    case Error => true
  }

  /**
    A callback that has recorded its event goes on to walk the whole list if and only if the event
    is news and some caller is counted in for the slot; it looks for those that watch any event
    that is there then.
   */
  lemma CallbackWalks(states: seq<State>, steps: seq<Step>, n: nat)
    requires IsRun(states, steps) && Initial(states[0]) && n < |states|
    requires Enabled(states[n], Record)
    ensures var st, st' := states[n], Next(states[n], Record);
            var s := st.cb.s;
            && (st'.cb.Walking? <==>
                  IsNews(st.socks[s], st.cb.evt) && exists t :: 0 <= t < |st.callers| && Holds(st.callers[t], s))
            && (st'.cb.Walking? ==>
                  && st'.cb.s == s && st'.cb.todo == st.list
                  && (Recv in st'.cb.has <==> st'.socks[s].rcvevent > 0)
                  && (Send in st'.cb.has <==> st'.socks[s].sendevent)
                  && (Err in st'.cb.has <==> st'.socks[s].errevent))
  {
    hide Woken, CountHolders;
    RunKeeps(states, steps, n);
    var st := states[n];
    SomeHolder(st.callers, st.cb.s);
  }

  lemma {:induction false} SomeHolder(callers: seq<Caller>, s: nat)
    ensures CountHolders(callers, s) > 0 <==> exists t :: 0 <= t < |callers| && Holds(callers[t], s)
  {
    hide Holds;
    if callers != [] {
      var rest := callers[1..];
      SomeHolder(rest, s);
      assert forall t :: 0 <= t < |rest| ==> callers[t + 1] == rest[t];
      assert forall t :: 0 < t < |callers| ==> callers[t] == rest[t - 1];
    }
  }

  // ----- Entering and moving on

  /**
    A caller watches what it has been called with from its entry on, and a callback is for the slot
    and event it was entered with; no other step changes either.
   */
  lemma StepEffects(st: State, step: Step, t: nat)
    requires Enabled(st, step) && t < |st.callers|
    ensures |Next(st, step).callers| == |st.callers|
    ensures var c, c' := st.callers[t], Next(st, step).callers[t];
            if step.Begin? && step.t == t then c' == Caller(step.sets, step.nfds, Linking, false)
            else c'.sets == c.sets && c'.nfds == c.nfds
    ensures var cb, cb' := st.cb, Next(st, step).cb;
            && (step.Enter? ==> cb' == Entered(step.s, step.evt))
            && (!step.Enter? && !step.Record? && !step.Walk? ==> cb' == cb)
  {
    hide RemoveId, WatchesAny, Watches;
  }

  /** The caller whose turn a step is; none for the steps of the netconn layer. */
  predicate IsTurnOf(step: Step, t: nat) {
    match step
    case Link(x) => x == t
    case IncOne(x, _) => x == t
    case RescanOne(x, _, _) => x == t
    case Wake(x) => x == t
    case Timeout(x) => x == t
    case DecOne(x) => x == t
    case Unlink(x) => x == t
    case _ => false
  }

  /** How many turns a caller has still to take at most, with `n` slots. */
  function Turns(p: Phase, n: nat): (r: nat)
    ensures r == 0 ==> p.Idle?
  {
    match p
    case Idle => 0
    case Unlinking => 1
    case Dec(i, _) => 2 + if i < n then n - i else 0
    case Blocked => n + 3
    case Rescan(i, _) => n + 4 + if i < n then n - i else 0
    case Inc(i) => 2 * n + 5 + if i < n then n - i else 0
    case Linking => 3 * n + 6
  }

  /** Every turn of a caller brings it nearer to its return; what others do does not set it back. */
  lemma TurnAdvances(st: State, step: Step, t: nat)
    requires Enabled(st, step) && t < |st.callers|
    ensures |Next(st, step).callers| == |st.callers|
    ensures IsTurnOf(step, t) ==>
              Turns(Next(st, step).callers[t].phase, |st.socks|) < Turns(st.callers[t].phase, |st.socks|)
    ensures !IsTurnOf(step, t) && !(step.Begin? && step.t == t) ==>
              Next(st, step).callers[t].phase == st.callers[t].phase
  {
    hide RemoveId, WatchesAny, Watches;
  }
}
