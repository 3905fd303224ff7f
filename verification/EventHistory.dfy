/**
  The event fields of a socket slot, told by the events that the netconn layer has reported for it.
 */
module EventHistory {
  import opened SelectWakeup

  /** What can happen to a slot: the events, and that it is handed out for a new socket. */
  datatype Happening = Received | Taken | Sendable | SendFull | Failed | Begun(writable: bool)

  function Recording(evt: Event): (e: Happening) {
    match evt
    case RcvPlus => Received
    case SendPlus => Sendable
    case Error => Failed
  }

  /** What a step is for slot `s`; most steps are nothing. */
  function HappensTo(st: State, step: Step, s: nat): (es: seq<Happening>) {
    match step
    case Record => if st.cb.Entered? && st.cb.s == s then [Recording(st.cb.evt)] else []
    case RcvMinus(x) => if x == s then [Taken] else []
    case SendMinus(x) => if x == s then [SendFull] else []
    case Reallocate(x, writable) => if x == s then [Begun(writable)] else []
    case _ => []
  }

  /** All that has happened to slot `s` in the first `n` steps. */
  ghost function Happened(states: seq<State>, steps: seq<Step>, s: nat, n: nat): (es: seq<Happening>)
    requires n <= |steps| && n <= |states|
  {
    if n == 0 then [] else Happened(states, steps, s, n - 1) + HappensTo(states[n - 1], steps[n - 1], s)
  }

  /** Space to send was reported, and no full buffer since. */
  predicate LastSendable(es: seq<Happening>) {
    exists i :: 0 <= i < |es| && es[i].Sendable? && forall j :: i < j < |es| ==> !es[j].SendFull?
  }

  /** The fields that come of `sock` by `es`, none of which is a new beginning. */
  predicate ComesTo(start: Sock, es: seq<Happening>, sock: Sock) {
    && sock.rcvevent == start.rcvevent + multiset(es)[Received] - multiset(es)[Taken]
    && (sock.sendevent <==> LastSendable(es) || (start.sendevent && SendFull !in es))
    && (sock.errevent <==> start.errevent || Failed in es)
  }

  lemma ComesToNothing(start: Sock, es: seq<Happening>)
    requires es == []
    ensures ComesTo(start, es, start)
  {
  }

  lemma LastSendableNext(es: seq<Happening>, e: Happening)
    ensures LastSendable(es + [e]) <==> e.Sendable? || (LastSendable(es) && !e.SendFull?)
  {
    var all := es + [e];
    assert all[|es|] == e && forall i :: 0 <= i < |es| ==> all[i] == es[i];
    if LastSendable(es) && !e.SendFull? {
      var i :| 0 <= i < |es| && es[i].Sendable? && forall j :: i < j < |es| ==> !es[j].SendFull?;
      assert all[i].Sendable?;
    }
  }

  /** One event more. */
  lemma ComesToNext(start: Sock, es: seq<Happening>, sock: Sock, e: Happening, sock': Sock)
    requires ComesTo(start, es, sock) && !e.Begun?
    requires sock'.rcvevent == sock.rcvevent + (if e.Received? then 1 else if e.Taken? then -1 else 0)
    requires sock'.sendevent == if e.Sendable? then true else if e.SendFull? then false else sock.sendevent
    requires sock'.errevent == (sock.errevent || e.Failed?)
    ensures ComesTo(start, es + [e], sock')
  {
    hide LastSendable;
    LastSendableNext(es, e);
  }

  /** The fields of a slot that has just been handed out. */
  function BegunWith(writable: bool): (sock: Sock) {
    Sock(0, writable, false, 0)
  }

  predicate SameEvents(a: Sock, b: Sock) {
    a.rcvevent == b.rcvevent && a.sendevent == b.sendevent && a.errevent == b.errevent
  }

  lemma StepHappens(st: State, step: Step, s: nat)
    requires Enabled(st, step) && s < |st.socks|
    ensures s < |Next(st, step).socks|
    ensures var es, sock, sock' := HappensTo(st, step, s), st.socks[s], Next(st, step).socks[s];
            && |es| <= 1
            && (es == [] ==> SameEvents(sock', sock))
            && (es != [] ==>
                  var e := es[0];
                  if e.Begun? then SameEvents(sock', BegunWith(e.writable))
                  else
                    && sock'.rcvevent == sock.rcvevent + (if e.Received? then 1 else if e.Taken? then -1 else 0)
                    && sock'.sendevent == (if e.Sendable? then true else if e.SendFull? then false else sock.sendevent)
                    && sock'.errevent == (sock.errevent || e.Failed?))
  {
    hide WatchesAny, Watches, RemoveId;
  }

  lemma SocksStay(states: seq<State>, steps: seq<Step>, n: nat)
    requires IsRun(states, steps) && n < |states|
    ensures |states[n].socks| == |states[0].socks|
  {
    hide Next, Enabled;
    if n > 0 {
      SocksStay(states, steps, n - 1);
      SameSocks(states[n - 1], steps[n - 1]);
    }
  }

  lemma SameSocks(st: State, step: Step)
    requires Enabled(st, step)
    ensures |Next(st, step).socks| == |st.socks|
  {
    hide WatchesAny, Watches, RemoveId;
  }

  /**
    In every interleaving the three event fields of a slot are its history: since it was handed
    out, or since the start, it has as many receive events as were reported and not taken; it is
    writable if that was the last it was told, and failed if an error was reported.
   */
  lemma {:induction false} FieldsAreHistory(states: seq<State>, steps: seq<Step>, s: nat, n: nat,
                                            before: seq<Happening>, since: seq<Happening>)
    requires IsRun(states, steps) && n < |states| && s < |states[0].socks|
    requires Happened(states, steps, s, n) == before + since && forall e :: e in since ==> !e.Begun?
    requires before != [] ==> before[|before| - 1].Begun?
    ensures |states[n].socks| == |states[0].socks|
    ensures var start := if before == [] then states[0].socks[s] else BegunWith(before[|before| - 1].writable);
            ComesTo(start, since, states[n].socks[s])
    decreases n
  {
    hide Next, Enabled, ComesTo, HappensTo;
    SocksStay(states, steps, n);
    var start := if before == [] then states[0].socks[s] else BegunWith(before[|before| - 1].writable);
    if n == 0 {
      ComesToNothing(start, since);
    } else {
      SocksStay(states, steps, n - 1);
      var st, es := states[n - 1], HappensTo(states[n - 1], steps[n - 1], s);
      var past := Happened(states, steps, s, n - 1);
      StepHappens(st, steps[n - 1], s);
      assert before + since == past + es;
      if es == [] {
        assert past + es == past;
        FieldsAreHistory(states, steps, s, n - 1, before, since);
        ComesToSame(start, since, st.socks[s], states[n].socks[s]);
      } else {
        var e := es[0];
        assert past + es == past + [e] && (past + [e])[|past|] == e;
        if since == [] {
          assert before + since == before;
          ComesToNothing(start, since);
          ComesToSame(start, since, start, states[n].socks[s]);
        } else {
          var init := since[..|since| - 1];
          assert since[|since| - 1] == e && since == init + [e];
          assert (before + since)[..|past|] == past == before + init;
          FieldsAreHistory(states, steps, s, n - 1, before, init);
          ComesToNext(start, init, st.socks[s], e, states[n].socks[s]);
        }
      }
    }
  }

  lemma ComesToSame(start: Sock, es: seq<Happening>, sock: Sock, sock': Sock)
    requires ComesTo(start, es, sock) && SameEvents(sock', sock)
    ensures ComesTo(start, es, sock')
  {
    hide LastSendable;
  }
}
