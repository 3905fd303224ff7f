/**
  The full-duplex reference count of a socket slot in `sockets.c`: allocation, use, release and
  close by any number of threads, one protected section at a time.
 */
module Descriptors {
  import opened Bytes

  /** A slot: its netconn, `fd_used` and `fd_free_pending`. */
  datatype Slot = Slot(conn: Option<nat>, fdUsed: nat, freePending: bool)

  /** A reference some thread holds, with the netconn that was in the slot when it was granted. */
  datatype Ref = Ref(slot: nat, conn: Option<nat>)

  /**
    The socket array, the references outstanding, the number of netconns created so far and
    those handed out for deletion, in order.
   */
  datatype State = State(slots: seq<Slot>, refs: seq<Ref>, created: nat, deleted: seq<nat>)

  /** One protected section; `r` is the position of the reference given up. */
  datatype Step = Alloc(s: nat) | Acquire(s: nat) | Release(r: nat) | Close(r: nat)

  predicate Enabled(st: State, step: Step) {
    match step
    case Alloc(s) => s < |st.slots|
    case Acquire(s) => s < |st.slots|
    case Release(r) => r < |st.refs| && st.refs[r].slot < |st.slots|
    case Close(r) => r < |st.refs| && st.refs[r].slot < |st.slots| && st.refs[r].conn.Some?
  }

  function SetSlot(st: State, s: nat, slot: Slot): State
    requires s < |st.slots|
  {
    st.(slots := st.slots[s := slot])
  }

  function DropRef(st: State, r: nat): State
    requires r < |st.refs|
  {
    st.(refs := st.refs[..r] + st.refs[r + 1..])
  }

  /** The protected section of `alloc_socket`: a slot is taken only if it is empty and unused. */
  function AllocStep(st: State, s: nat): State
    requires s < |st.slots|
  {
    if st.slots[s].conn.Some? || st.slots[s].fdUsed != 0 then st
    else
      SetSlot(st, s, Slot(Some(st.created), 1, false))
        .(refs := st.refs + [Ref(s, Some(st.created))], created := st.created + 1)
  }

  /** `sock_inc_used`: refused once a free is pending. */
  function AcquireStep(st: State, s: nat): State
    requires s < |st.slots|
  {
    if st.slots[s].freePending then st
    else
      SetSlot(st, s, st.slots[s].(fdUsed := st.slots[s].fdUsed + 1)).(refs := st.refs + [Ref(s, st.slots[s].conn)])
  }

  /** `free_socket_locked`: drops one count, then frees the slot or leaves the free pending. */
  function FreeLocked(st: State, s: nat): State
    requires s < |st.slots|
  {
    var slot := st.slots[s];
    if slot.fdUsed > 1 then SetSlot(st, s, slot.(fdUsed := slot.fdUsed - 1, freePending := true))
    else
      SetSlot(st, s, slot.(conn := None, fdUsed := 0))
        .(deleted := if slot.conn.Some? then st.deleted + [slot.conn.value] else st.deleted)
  }

  /** `done_socket`: the last release after a close does the free. */
  function ReleaseStep(st: State, r: nat): State
    requires r < |st.refs| && st.refs[r].slot < |st.slots|
  {
    var s, st' := st.refs[r].slot, DropRef(st, r);
    var slot := st.slots[s];
    if slot.fdUsed == 0 then st'
    else if slot.fdUsed == 1 && slot.freePending then FreeLocked(st', s)
    else SetSlot(st', s, slot.(fdUsed := slot.fdUsed - 1))
  }

  function Next(st: State, step: Step): State
    requires Enabled(st, step)
  {
    match step
    case Alloc(s) => AllocStep(st, s)
    case Acquire(s) => AcquireStep(st, s)
    case Release(r) => ReleaseStep(st, r)
    // `free_socket` at the end of `lwip_close` gives up the closer's own reference
    case Close(r) => FreeLocked(DropRef(st, r), st.refs[r].slot)
  }

  // ----- What every step keeps

  function CountRefs(refs: seq<Ref>, s: nat): (n: nat) {
    if refs == [] then 0 else CountRefs(refs[1..], s) + if refs[0].slot == s then 1 else 0
  }

  lemma {:induction false} CountConcat(a: seq<Ref>, b: seq<Ref>, s: nat)
    ensures CountRefs(a + b, s) == CountRefs(a, s) + CountRefs(b, s)
  {
    if a == [] {
      assert a + b == b;
    } else {
      CountConcat(a[1..], b, s);
      assert (a + b)[1..] == a[1..] + b;
    }
  }

  lemma CountDrop(refs: seq<Ref>, r: nat, s: nat)
    requires r < |refs|
    ensures CountRefs(refs[..r] + refs[r + 1..], s) == CountRefs(refs, s) - if refs[r].slot == s then 1 else 0
  {
    assert refs == refs[..r] + ([refs[r]] + refs[r + 1..]);
    CountConcat(refs[..r], [refs[r]] + refs[r + 1..], s);
    CountConcat([refs[r]], refs[r + 1..], s);
    CountConcat(refs[..r], refs[r + 1..], s);
    assert [refs[r]][1..] == [];
  }

  lemma {:induction false} CountZero(refs: seq<Ref>, s: nat, r: nat)
    requires r < |refs| && refs[r].slot == s
    ensures CountRefs(refs, s) > 0
  {
    if r > 0 {
      CountZero(refs[1..], s, r - 1);
    }
  }

  /** The counts are the references; a reference pins its netconn; a pending free has a reference to wait for. */
  ghost predicate Counted(st: State) {
    && (forall s :: 0 <= s < |st.slots| ==> st.slots[s].fdUsed == CountRefs(st.refs, s))
    && (forall r :: 0 <= r < |st.refs| ==>
          st.refs[r].slot < |st.slots| && st.refs[r].conn == st.slots[st.refs[r].slot].conn)
    && (forall s :: 0 <= s < |st.slots| && st.slots[s].freePending && st.slots[s].conn.Some? ==> st.slots[s].fdUsed > 0)
  }

  /** Every netconn created is in exactly one place: in one slot, or deleted once. */
  ghost predicate Conserved(st: State) {
    && (forall c :: 0 <= c < st.created ==> (c in st.deleted) != (exists s :: InSlot(st, s, c)))
    && (forall i :: 0 <= i < |st.deleted| ==> st.deleted[i] < st.created)
    && (forall s :: 0 <= s < |st.slots| && st.slots[s].conn.Some? ==> st.slots[s].conn.value < st.created)
    && (forall i, j :: 0 <= i < j < |st.deleted| ==> st.deleted[i] != st.deleted[j])
    && (forall s, s' :: 0 <= s < s' < |st.slots| && st.slots[s].conn.Some? ==> st.slots[s].conn != st.slots[s'].conn)
  }

  predicate InSlot(st: State, s: nat, c: nat) {
    s < |st.slots| && st.slots[s].conn == Some(c)
  }

  lemma AddKeepsCounted(st: State, step: Step)
    requires Counted(st) && Enabled(st, step) && (step.Alloc? || step.Acquire?)
    ensures Counted(Next(st, step))
  {
    hide CountRefs;
    var st' := Next(st, step);
    if st' != st {
      var added := st'.refs[|st.refs|];
      assert st'.refs == st.refs + [added];
      forall s | 0 <= s < |st.slots|
        ensures CountRefs(st'.refs, s) == CountRefs(st.refs, s) + if added.slot == s then 1 else 0
      {
        CountConcat(st.refs, [added], s);
        CountSingle(added, s);
      }
      if step.Alloc? {
        forall r | 0 <= r < |st.refs| ensures st.refs[r].slot != step.s {
          if st.refs[r].slot == step.s {
            CountZero(st.refs, step.s, r);
          }
        }
      }
    }
  }

  lemma CountSingle(r: Ref, s: nat)
    ensures CountRefs([r], s) == if r.slot == s then 1 else 0
  {
  }

  lemma DropKeepsCounted(st: State, step: Step)
    requires Counted(st) && Enabled(st, step) && (step.Release? || step.Close?)
    ensures Counted(Next(st, step))
  {
    hide CountRefs;
    var st' := Next(st, step);
    forall s | 0 <= s < |st.slots|
      ensures CountRefs(st'.refs, s) == CountRefs(st.refs, s) - if st.refs[step.r].slot == s then 1 else 0
    {
      CountDrop(st.refs, step.r, s);
    }
    CountZero(st.refs, st.refs[step.r].slot, step.r);
    forall r | 0 <= r < |st'.refs|
      ensures st'.refs[r].slot < |st'.slots| && st'.refs[r].conn == st'.slots[st'.refs[r].slot].conn
    {
      var old_r := if r < step.r then r else r + 1;
      assert st'.refs[r] == st.refs[old_r];
      CountZero(st'.refs, st'.refs[r].slot, r);
    }
  }

  lemma FreeKeepsConserved(st: State, s: nat)
    requires Conserved(st) && s < |st.slots|
    ensures Conserved(FreeLocked(st, s))
  {
    var st' := FreeLocked(st, s);
    if st.slots[s].fdUsed <= 1 && st.slots[s].conn.Some? {
      var c := st.slots[s].conn.value;
      assert InSlot(st, s, c);
      assert c !in st.deleted && st'.deleted == st.deleted + [c];
      assert forall i :: 0 <= i < |st.deleted| ==> st.deleted[i] != c;
    }
    forall c | 0 <= c < st'.created ensures (c in st'.deleted) != (exists s :: InSlot(st', s, c)) {
      if s' :| InSlot(st, s', c) && c !in st'.deleted {
        assert InSlot(st', s', c);
      } else if s' :| InSlot(st', s', c) {
        assert InSlot(st, s', c);
      }
    }
  }

  lemma AllocKeepsConserved(st: State, s: nat)
    requires Conserved(st) && s < |st.slots|
    ensures Conserved(AllocStep(st, s))
  {
    var st' := AllocStep(st, s);
    forall c | 0 <= c < st'.created ensures (c in st'.deleted) != (exists s :: InSlot(st', s, c)) {
      if c == st.created {
        assert InSlot(st', s, c);
      } else if s' :| InSlot(st, s', c) {
        assert InSlot(st', s', c);
      } else if s' :| InSlot(st', s', c) {
        assert InSlot(st, s', c);
      }
    }
  }

  /** References and counts do not matter to where the netconns are. */
  lemma SameConnsConserved(st: State, st': State)
    requires Conserved(st) && |st'.slots| == |st.slots| && st'.created == st.created && st'.deleted == st.deleted
    requires forall s :: 0 <= s < |st.slots| ==> st'.slots[s].conn == st.slots[s].conn
    ensures Conserved(st')
  {
    forall c | 0 <= c < st'.created ensures (c in st'.deleted) != (exists s :: InSlot(st', s, c)) {
      if s :| InSlot(st, s, c) {
        assert InSlot(st', s, c);
      } else if s :| InSlot(st', s, c) {
        assert InSlot(st, s, c);
      }
    }
  }

  lemma KeepsConserved(st: State, step: Step)
    requires Conserved(st) && Enabled(st, step)
    ensures Conserved(Next(st, step))
  {
    hide Conserved;
    var st' := Next(st, step);
    match step {
      case Alloc(s) => AllocKeepsConserved(st, s);
      case Acquire(s) => SameConnsConserved(st, st');
      case Close(r) =>
        SameConnsConserved(st, DropRef(st, r));
        FreeKeepsConserved(DropRef(st, r), st.refs[r].slot);
      case Release(r) =>
        SameConnsConserved(st, DropRef(st, r));
        FreeKeepsConserved(DropRef(st, r), st.refs[r].slot);
        if st' != FreeLocked(DropRef(st, r), st.refs[r].slot) {
          SameConnsConserved(st, st');
        }
    }
  }

  // ----- Runs

  ghost predicate IsRun(states: seq<State>, steps: seq<Step>) {
    && |states| == |steps| + 1
    && forall i :: 0 <= i < |steps| ==> Enabled(states[i], steps[i]) && states[i + 1] == Next(states[i], steps[i])
  }

  ghost predicate Initial(st: State) {
    && st.refs == [] && st.created == 0 && st.deleted == []
    && forall s :: 0 <= s < |st.slots| ==> st.slots[s] == Slot(None, 0, false)
  }

  lemma {:induction false} RunKeeps(states: seq<State>, steps: seq<Step>, n: nat)
    requires IsRun(states, steps) && Initial(states[0]) && n < |states|
    ensures Counted(states[n]) && Conserved(states[n])
  {
    if n > 0 {
      hide Next, Counted, Conserved;
      RunKeeps(states, steps, n - 1);
      KeepsConserved(states[n - 1], steps[n - 1]);
      if steps[n - 1].Alloc? || steps[n - 1].Acquire? {
        AddKeepsCounted(states[n - 1], steps[n - 1]);
      } else {
        DropKeepsCounted(states[n - 1], steps[n - 1]);
      }
    }
  }

  /**
    The reference count over every interleaving. A netconn is handed out for deletion at most
    once, and one that is not deleted is still in its slot; whenever a reference is outstanding
    its netconn is still in the slot; and a slot with a pending free keeps its netconn only as
    long as a reference is outstanding, so the last release has done the free.
   */
  lemma ReferenceCount(states: seq<State>, steps: seq<Step>, n: nat)
    requires IsRun(states, steps) && Initial(states[0]) && n < |states|
    ensures var st := states[n];
            && (forall i, j :: 0 <= i < j < |st.deleted| ==> st.deleted[i] != st.deleted[j])
            && (forall c :: 0 <= c < st.created ==> (c in st.deleted) != (exists s :: InSlot(st, s, c)))
            && (forall r :: 0 <= r < |st.refs| ==>
                  st.refs[r].slot < |st.slots| && st.refs[r].conn == st.slots[st.refs[r].slot].conn)
            && (forall s :: 0 <= s < |st.slots| && st.slots[s].freePending && CountRefs(st.refs, s) == 0 ==>
                  st.slots[s].conn.None?)
  {
    RunKeeps(states, steps, n);
  }

  /** A netconn is handed out only by a close or release that leaves no reference to its slot. */
  lemma DeletionIsLast(states: seq<State>, steps: seq<Step>, n: nat)
    requires IsRun(states, steps) && Initial(states[0]) && n < |steps|
    requires states[n + 1].deleted != states[n].deleted
    ensures (steps[n].Close? || steps[n].Release?) && steps[n].r < |states[n].refs|
    ensures var s := states[n].refs[steps[n].r].slot;
            && CountRefs(states[n + 1].refs, s) == 0
            && s < |states[n].slots| && states[n].slots[s].conn.Some?
            && states[n + 1].deleted == states[n].deleted + [states[n].slots[s].conn.value]
            && (steps[n].Release? ==> states[n].slots[s].freePending)
  {
    hide CountRefs;
    RunKeeps(states, steps, n);
    RunKeeps(states, steps, n + 1);
    var st, st' := states[n], states[n + 1];
    var s := st.refs[steps[n].r].slot;
    CountDrop(st.refs, steps[n].r, s);
  }

  /** Once a free is pending no step adds a reference to the slot until it has been freed. */
  lemma NoNewReference(st: State, step: Step, s: nat)
    requires Enabled(st, step) && s < |st.slots| && st.slots[s].freePending && st.slots[s].conn.Some?
    ensures CountRefs(Next(st, step).refs, s) <= CountRefs(st.refs, s)
    ensures Next(st, step).slots[s].freePending
  {
    var st' := Next(st, step);
    if step.Release? || step.Close? {
      CountDrop(st.refs, step.r, s);
    } else if st'.refs != st.refs {
      CountConcat(st.refs, [st'.refs[|st.refs|]], s);
      CountSingle(st'.refs[|st.refs|], s);
    }
  }

  // ----- What each section does, counted in references

  /** Nothing but slot `s` has changed, and netconns are neither made nor given up. */
  ghost predicate OnlySlot(st: State, st': State, s: nat) {
    && |st'.slots| == |st.slots| && st'.created == st.created && st'.deleted == st.deleted
    && forall x :: 0 <= x < |st.slots| && x != s ==> st'.slots[x] == st.slots[x]
  }

  /**
    In every run an acquire is granted if and only if no free is pending; then it adds exactly one
    reference, to the slot with the netconn it has, and one to the slot's count. A refused one
    changes nothing.
   */
  lemma AcquireCounts(states: seq<State>, steps: seq<Step>, n: nat, s: nat)
    requires IsRun(states, steps) && Initial(states[0]) && n < |states| && s < |states[n].slots|
    ensures var st, st' := states[n], Next(states[n], Acquire(s));
            if st.slots[s].freePending then st' == st
            else
              && OnlySlot(st, st', s) && st'.slots[s].conn == st.slots[s].conn && !st'.slots[s].freePending
              && st'.refs == st.refs + [Ref(s, st.slots[s].conn)]
              && st.slots[s].fdUsed == CountRefs(st.refs, s)
              && st'.slots[s].fdUsed == CountRefs(st'.refs, s) == CountRefs(st.refs, s) + 1
  {
    hide CountRefs;
    RunKeeps(states, steps, n);
    CountConcat(states[n].refs, [Ref(s, states[n].slots[s].conn)], s);
    CountSingle(Ref(s, states[n].slots[s].conn), s);
  }

  /** A slot is taken if and only if it has no netconn and no reference; it then has a new one and one reference. */
  lemma AllocCounts(states: seq<State>, steps: seq<Step>, n: nat, s: nat)
    requires IsRun(states, steps) && Initial(states[0]) && n < |states| && s < |states[n].slots|
    ensures var st, st' := states[n], Next(states[n], Alloc(s));
            if st.slots[s].conn.Some? || CountRefs(st.refs, s) > 0 then st' == st
            else
              && st'.slots == st.slots[s := Slot(Some(st.created), 1, false)] && st'.created == st.created + 1
              && st'.refs == st.refs + [Ref(s, Some(st.created))] && st'.deleted == st.deleted
  {
    hide CountRefs;
    RunKeeps(states, steps, n);
  }

  /**
    Giving up a reference, in every run: it is the one given up and no other. The last one of a
    slot takes the netconn with it if it is a close, or if a free was pending; a close that is not
    the last leaves the free pending.
   */
  lemma GivingUpCounts(states: seq<State>, steps: seq<Step>, n: nat, step: Step)
    requires IsRun(states, steps) && Initial(states[0]) && n < |states|
    requires Enabled(states[n], step) && (step.Release? || step.Close?)
    ensures var st, st' := states[n], Next(states[n], step);
            var s := st.refs[step.r].slot;
            var last, slot := CountRefs(st.refs, s) == 1, st.slots[s];
            var frees := last && (step.Close? || slot.freePending);
            && st'.refs == st.refs[..step.r] + st.refs[step.r + 1..] && st'.created == st.created
            && st'.slots[s].fdUsed == CountRefs(st'.refs, s) == CountRefs(st.refs, s) - 1
            && st'.slots[s].conn == (if frees then None else slot.conn)
            && st'.deleted == st.deleted + (if frees && slot.conn.Some? then [slot.conn.value] else [])
            && st'.slots[s].freePending == (slot.freePending || (step.Close? && !last))
            && |st'.slots| == |st.slots| && forall x :: 0 <= x < |st.slots| && x != s ==> st'.slots[x] == st.slots[x]
  {
    hide CountRefs;
    RunKeeps(states, steps, n);
    var st := states[n];
    CountDrop(st.refs, step.r, st.refs[step.r].slot);
    CountZero(st.refs, st.refs[step.r].slot, step.r);
    assert st.deleted + [] == st.deleted;
  }
}
