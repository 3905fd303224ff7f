/** The event callback of `sockets.c` in memory, from recording an event to signalling the waiters. */
module SelectTable {
  import opened SelectWakeup

  /** What is left of a callback once it has recorded its event. */
  ghost function WalkAll(st: State): (r: State)
    ensures r.cb.NoCallback?
  {
    if st.cb.Walking? then Finish(st) else st.(cb := NoCallback)
  }

  lemma WalkAllStep(st: State)
    requires st.cb.Walking?
    ensures WalkAll(st) == WalkAll(WalkStep(st))
  {
  }

  lemma SignalWanted(c: Caller, s: nat, has: set<Kind>, doSignal: bool)
    requires doSignal <==> (Recv in has && Watches(c, s, Recv)) || (Send in has && Watches(c, s, Send))
                           || (Err in has && Watches(c, s, Err))
    ensures doSignal <==> exists k: Kind :: k in has && Watches(c, s, k)
  {
    if k: Kind :| k in has && Watches(c, s, k) {
      assert k == Recv || k == Send || k == Err;
    }
  }

  /** What the netconn layer reports. */
  datatype ConnEvent = Plus(evt: Event) | DataTaken | BufferFull

  class Table {
    const socks: array<Sock>
    const callers: array<Caller>
    var list: seq<nat>

    ghost function Value(cb: Callback): State
      reads this, socks, callers
    {
      State(socks[..], callers[..], list, cb)
    }

    constructor (sockets: nat, threads: nat)
      ensures fresh(socks) && fresh(callers) && socks.Length == sockets && callers.Length == threads
      ensures Initial(Value(NoCallback))
    {
      socks := new Sock[sockets](_ => Sock(0, false, false, 0));
      callers := new Caller[threads](_ => Caller(map[], 0, Idle, false));
      list := [];
    }

    /** `select_check_waiters`: every linked caller that watches one of the events is signalled, once. */
    method CheckWaiters(s: nat, has: set<Kind>)
      modifies callers
      ensures Value(NoCallback) == WalkAll(old(Value(if list == [] then NoCallback else Walking(s, has, list))))
    {
      ghost var start := WalkAll(Value(if list == [] then NoCallback else Walking(s, has, list)));
      var i := 0;
      assert list[0..] == list;
      while i < |list|
        invariant i <= |list|
        invariant WalkAll(Value(if i == |list| then NoCallback else Walking(s, has, list[i..]))) == start
      {
        var t := list[i];
        ghost var st := Value(Walking(s, has, list[i..]));
        WalkAllStep(st);
        assert list[i..][0] == t && list[i..][1..] == list[i + 1..];
        if t < callers.Length && !callers[t].signalled {
          var c := callers[t];
          var doSignal := false;
          if Recv in has && Watches(c, s, Recv) {
            doSignal := true;
          }
          if Send in has && Watches(c, s, Send) {
            doSignal := true;
          }
          if Err in has && Watches(c, s, Err) {
            doSignal := true;
          }
          SignalWanted(c, s, has, doSignal);
          if doSignal {
            callers[t] := c.(signalled := true);
          }
        }
        i := i + 1;
        assert callers[..] == WalkStep(st).callers;
        assert Value(if i == |list| then NoCallback else Walking(s, has, list[i..])) == WalkStep(st);
      }
    }

    /**
      `event_callback` for a socket that is set up: the event is recorded, and the waiters are
      looked at if it is news. Data taken out and a full send buffer are only recorded.
     */
    method EventCallback(s: nat, event: ConnEvent)
      requires s < socks.Length
      modifies callers, socks
      ensures event.Plus? ==> Value(NoCallback) == WalkAll(RecordStep(old(Value(Entered(s, event.evt)))))
      ensures event.DataTaken? ==> Value(NoCallback) == Next(old(Value(NoCallback)), RcvMinus(s))
      ensures event.BufferFull? ==> Value(NoCallback) == Next(old(Value(NoCallback)), SendMinus(s))
    {
      var check := true;
      var sock := socks[s];
      match event {
        case Plus(RcvPlus) =>
          sock := sock.(rcvevent := sock.rcvevent + 1);
          if sock.rcvevent > 1 {
            check := false;
          }
        case DataTaken =>
          sock := sock.(rcvevent := sock.rcvevent - 1);
          check := false;
        case Plus(SendPlus) =>
          if sock.sendevent {
            check := false;
          }
          sock := sock.(sendevent := true);
        case BufferFull =>
          sock := sock.(sendevent := false);
          check := false;
        case Plus(Error) =>
          sock := sock.(errevent := true);
      }
      socks[s] := sock;
      var has: set<Kind> := {};
      if sock.rcvevent > 0 {
        has := has + {Recv};
      }
      if sock.sendevent {
        has := has + {Send};
      }
      if sock.errevent {
        has := has + {Err};
      }
      assert has == set k: Kind | Ready(sock, k);
      if sock.selectWaiting > 0 && check {
        CheckWaiters(s, has);
      }
    }
  }
}
