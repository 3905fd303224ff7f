/**
  The ring queues of the CAN bridge (`src/cannelloni.c`): one slot always stays free, a put hands
  out a slot for the caller to fill, a peek hands out the oldest frame without removing it.
 */
module FrameQueue {
  import opened Bytes

  const MAX_DLEN: nat := 8

  /** A slot of the buffer; bytes of `data` behind the payload are left over from earlier frames. */
  datatype Frame = Frame(id: nat, len: byte, flags: byte, data: seq<byte>)

  /** A queue as a value: the two indices and the slots. */
  datatype Ring = Ring(head: nat, tail: nat, slots: seq<Frame>)

  predicate ValidRing(r: Ring) {
    r.head < |r.slots| && r.tail < |r.slots|
  }

  function Next(i: nat, count: nat): (n: nat)
    requires i < count
    ensures n < count
  {
    (i + 1) % count
  }

  function Full(r: Ring): (b: bool)
    requires ValidRing(r)
  {
    Next(r.tail, |r.slots|) == r.head
  }

  /** `queue_put` followed by filling the slot it returned. */
  function PutRing(r: Ring, f: Frame): (r': Ring)
    requires ValidRing(r)
    ensures ValidRing(r')
  {
    if Full(r) then r
    else r.(tail := Next(r.tail, |r.slots|), slots := r.slots[r.tail := f])
  }

  /** `queue_take`: the slot keeps its content, only the head moves. */
  function TakeRing(r: Ring): (r': Ring)
    requires ValidRing(r)
    ensures ValidRing(r')
  {
    if r.head == r.tail then r else r.(head := Next(r.head, |r.slots|))
  }

  // ----- A FIFO

  function Size(r: Ring): (n: nat)
    requires ValidRing(r)
    ensures n < |r.slots|
  {
    if r.head <= r.tail then r.tail - r.head else r.tail + |r.slots| - r.head
  }

  /** The slot that is `i` places behind the head. */
  function SlotAt(r: Ring, i: nat): (s: nat)
    requires ValidRing(r) && i < |r.slots|
    ensures s < |r.slots|
  {
    if r.head + i < |r.slots| then r.head + i else r.head + i - |r.slots|
  }

  /** The queued frames, oldest first. */
  function Contents(r: Ring): (fs: seq<Frame>)
    requires ValidRing(r)
    ensures |fs| == Size(r)
  {
    seq(Size(r), i requires 0 <= i < Size(r) => r.slots[SlotAt(r, i)])
  }

  lemma NextWraps(i: nat, count: nat)
    requires i < count
    ensures Next(i, count) == if i + 1 == count then 0 else i + 1
  {
    if i + 1 == count {
      assert count % count == 0;
    }
  }

  /** A put appends, and is refused exactly when `count - 1` frames are queued. */
  lemma PutAppends(r: Ring, f: Frame)
    requires ValidRing(r)
    ensures Full(r) <==> |Contents(r)| == |r.slots| - 1
    ensures Contents(PutRing(r, f)) == if Full(r) then Contents(r) else Contents(r) + [f]
  {
    NextWraps(r.tail, |r.slots|);
    if !Full(r) {
      var r' := PutRing(r, f);
      forall i | 0 <= i < Size(r) ensures Contents(r')[i] == Contents(r)[i] {
        assert SlotAt(r', i) == SlotAt(r, i) && SlotAt(r, i) != r.tail;
      }
      assert SlotAt(r', Size(r)) == r.tail;
    }
  }

  /** A take removes the oldest frame; that frame is in the slot a peek points at. */
  lemma TakeRemoves(r: Ring)
    requires ValidRing(r)
    ensures r.head == r.tail <==> Contents(r) == []
    ensures Contents(r) != [] ==> Contents(r)[0] == r.slots[r.head]
    ensures Contents(TakeRing(r)) == if Contents(r) == [] then [] else Contents(r)[1..]
  {
    NextWraps(r.head, |r.slots|);
    assert Size(r) == 0 <==> r.head == r.tail;
    if r.head != r.tail {
      var r' := TakeRing(r);
      assert SlotAt(r, 0) == r.head;
      forall i | 0 <= i < Size(r') ensures Contents(r')[i] == Contents(r)[1..][i] {
        assert SlotAt(r', i) == SlotAt(r, i + 1);
      }
    }
  }

  /** How far slot `s` is behind the head. */
  function Behind(r: Ring, s: nat): (k: nat)
    requires ValidRing(r) && s < |r.slots|
    ensures k < |r.slots| && SlotAt(r, k) == s
  {
    if s >= r.head then s - r.head else s + |r.slots| - r.head
  }

  lemma OverwriteSlot(r: Ring, s: nat, f: Frame)
    requires ValidRing(r) && s < |r.slots|
    ensures var r' := r.(slots := r.slots[s := f]);
            Contents(r') == Contents(r) <==> Behind(r, s) >= Size(r) || f == r.slots[s]
  {
    var r', k := r.(slots := r.slots[s := f]), Behind(r, s);
    assert Size(r') == Size(r);
    forall i | 0 <= i < Size(r) && i != k ensures Contents(r')[i] == Contents(r)[i] {
      assert SlotAt(r, i) != s && SlotAt(r', i) == SlotAt(r, i);
    }
    if k < Size(r) {
      assert SlotAt(r', k) == s && Contents(r')[k] == f && Contents(r)[k] == r.slots[s];
    }
  }

  /**
    Two queues over one buffer, as the handles of all interfaces are set up: a put into the second
    leaves the frames queued in the first alone exactly when it is refused, or its slot is free in
    the first, or the frame is the one already there.
   */
  lemma SharedBuffer(first: Ring, second: Ring, f: Frame)
    requires ValidRing(first) && ValidRing(second) && first.slots == second.slots
    ensures ValidRing(first.(slots := PutRing(second, f).slots))
    ensures Contents(first.(slots := PutRing(second, f).slots)) == Contents(first)
            <==> Full(second) || Behind(first, second.tail) >= |Contents(first)| || f == first.slots[second.tail]
  {
    hide Contents;
    OverwriteSlot(first, second.tail, f);
  }

  // ----- The queue in memory

  class Queue {
    var head: nat
    var tail: nat
    const frames: array<Frame>

    ghost function Value(): Ring
      reads this, frames
    {
      Ring(head, tail, frames[..])
    }

    ghost predicate Valid()
      reads this, frames
    {
      ValidRing(Value())
    }

    /** The queued frames, oldest first. */
    ghost function Frames(): seq<Frame>
      requires Valid()
      reads this, frames
    {
      Contents(Value())
    }

    /** `queue_init` on a buffer of its own. */
    constructor (buffer: array<Frame>)
      requires buffer.Length > 0
      ensures Valid() && frames == buffer && Frames() == []
    {
      head, tail, frames := 0, 0, buffer;
    }

    /** `queue_put`: the slot is queued at once and filled by the caller. */
    method Put() returns (slot: Option<nat>)
      requires Valid()
      modifies this`tail
      ensures Valid() && head == old(head)
      ensures slot.None? <==> old(|Frames()|) == frames.Length - 1
      ensures slot.None? ==> Frames() == old(Frames())
      ensures slot.Some? ==> slot.value < frames.Length && Frames() == old(Frames()) + [frames[slot.value]]
      ensures slot.Some? ==> forall f :: Ring(head, tail, frames[..][slot.value := f]) == PutRing(old(Value()), f)
    {
      ghost var r := Value();
      if (tail + 1) % frames.Length == head {
        PutAppends(r, frames[tail]);
        return None;
      }
      PutAppends(r, frames[tail]);
      assert r.slots[tail := frames[tail]] == r.slots;
      slot := Some(tail);
      tail := (tail + 1) % frames.Length;
    }

    /** A put and the filling of its slot. */
    method PutFrame(f: Frame) returns (ok: bool)
      requires Valid()
      modifies this`tail, frames
      ensures Valid() && head == old(head)
      ensures Value() == PutRing(old(Value()), f)
      ensures ok <==> old(|Frames()|) < frames.Length - 1
      ensures Frames() == if ok then old(Frames()) + [f] else old(Frames())
    {
      ghost var r := Value();
      PutAppends(r, f);
      var slot := Put();
      if slot.None? {
        return false;
      }
      frames[slot.value] := f;
      assert frames[..] == r.slots[slot.value := f];
      return true;
    }

    /** `queue_take`. */
    method Take() returns (frame: Option<Frame>)
      requires Valid()
      modifies this`head
      ensures Valid() && tail == old(tail) && Value() == TakeRing(old(Value()))
      ensures frame == if old(Frames()) == [] then None else Some(old(Frames())[0])
      ensures Frames() == if old(Frames()) == [] then [] else old(Frames())[1..]
    {
      TakeRemoves(Value());
      if head == tail {
        return None;
      }
      frame := Some(frames[head]);
      head := (head + 1) % frames.Length;
    }

    /** `queue_peek`. */
    method Peek() returns (slot: Option<nat>)
      requires Valid()
      ensures slot == if Frames() == [] then None else Some(head)
      ensures slot.Some? ==> slot.value < frames.Length && frames[slot.value] == Frames()[0]
    {
      TakeRemoves(Value());
      if head == tail {
        return None;
      }
      return Some(head);
    }
  }

  lemma MoveFirst<T>(a: seq<T>, b: seq<T>)
    requires b != []
    ensures (a + [b[0]]) + b[1..] == a + b
  {
  }

  /**
    `transmit_can_frames`: hands frames to the driver until it refuses one or none is left. The
    driver's answers are given in order; it refuses when they run out.
   */
  method TransmitCanFrames(q: Queue, answers: seq<bool>) returns (sent: seq<Frame>)
    requires q.Valid()
    modifies q`head
    ensures q.Valid() && q.tail == old(q.tail)
    ensures sent + q.Frames() == old(q.Frames())
    ensures |sent| <= |answers| && forall i :: 0 <= i < |sent| ==> answers[i]
    ensures q.Frames() == [] || |sent| == |answers| || !answers[|sent|]
  {
    hide Contents, ValidRing;
    sent := [];
    var slot := q.Peek();
    while slot.Some? && |sent| < |answers| && answers[|sent|]
      invariant q.Valid() && q.tail == old(q.tail) && |sent| <= |answers|
      invariant slot == if q.Frames() == [] then None else Some(q.head)
      invariant slot.Some? ==> slot.value < q.frames.Length && q.frames[slot.value] == q.Frames()[0]
      invariant sent + q.Frames() == old(q.Frames())
      invariant forall i :: 0 <= i < |sent| ==> answers[i]
      decreases |q.Frames()|
    {
      MoveFirst(sent, q.Frames());
      sent := sent + [q.frames[slot.value]];
      var _ := q.Take();
      slot := q.Peek();
    }
  }

  // ----- Puts in between peek, transmit and take

  datatype Consumer = Idle | Peeked(slot: nat, frame: Frame) | Sent(slot: nat, frame: Frame)

  /** `arrived`, `sent` and `taken` are the frames put, accepted by the driver and removed so far. */
  datatype State = State(ring: Ring, at: Consumer, arrived: seq<Frame>, sent: seq<Frame>, taken: seq<Frame>)

  datatype Event = Arrive(frame: Frame) | PeekNow | Transmit(accepted: bool) | TakeNow

  /** One atomic step; an event that does not fit the consumer's position changes nothing. */
  function Do(s: State, e: Event): (s': State)
    requires ValidRing(s.ring)
    ensures ValidRing(s'.ring)
  {
    match e
    case Arrive(f) =>
      if Full(s.ring) then s else s.(ring := PutRing(s.ring, f), arrived := s.arrived + [f])
    case PeekNow =>
      if s.at.Idle? && s.ring.head != s.ring.tail
      then s.(at := Peeked(s.ring.head, s.ring.slots[s.ring.head]))
      else s
    case Transmit(ok) =>
      if !s.at.Peeked? || s.at.slot >= |s.ring.slots| then s
      else if !ok then s.(at := Idle)
      else
        var f := s.ring.slots[s.at.slot];
        s.(at := Sent(s.at.slot, s.at.frame), sent := s.sent + [f])
    case TakeNow =>
      if !s.at.Sent? || s.ring.head == s.ring.tail then s
      else s.(at := Idle, ring := TakeRing(s.ring), taken := s.taken + [s.ring.slots[s.ring.head]])
  }

  function Run(s: State, es: seq<Event>): (s': State)
    requires ValidRing(s.ring)
    decreases |es|
  {
    if es == [] then s else Run(Do(s, es[0]), es[1..])
  }

  /**
    The frame peeked at is still the oldest one and its slot is unchanged; what was sent is what
    has been taken, and possibly the frame about to be taken; nothing is lost or reordered.
   */
  ghost predicate Orderly(s: State) {
    && ValidRing(s.ring)
    && (!s.at.Idle? ==> Contents(s.ring) != [] && s.at.slot == s.ring.head && s.ring.slots[s.ring.head] == s.at.frame)
    && s.sent == s.taken + (if s.at.Sent? then [s.at.frame] else [])
    && s.arrived == s.taken + Contents(s.ring)
  }

  lemma ArriveKeeps(s: State, f: Frame)
    requires Orderly(s)
    ensures Orderly(Do(s, Arrive(f)))
  {
    hide Contents;
    PutAppends(s.ring, f);
    TakeRemoves(s.ring);
    TakeRemoves(PutRing(s.ring, f));
    if !Full(s.ring) {
      assert s.taken + (Contents(s.ring) + [f]) == s.taken + Contents(s.ring) + [f];
    }
  }

  lemma TakeKeeps(s: State)
    requires Orderly(s)
    ensures Orderly(Do(s, TakeNow))
  {
    hide Contents;
    TakeRemoves(s.ring);
    var fs := Contents(s.ring);
    if fs != [] {
      assert s.taken + [fs[0]] + fs[1..] == s.taken + ([fs[0]] + fs[1..]);
      assert [fs[0]] + fs[1..] == fs;
    }
  }

  lemma DoKeeps(s: State, e: Event)
    requires Orderly(s)
    ensures Orderly(Do(s, e))
  {
    match e
    case Arrive(f) => ArriveKeeps(s, f);
    case TakeNow => TakeKeeps(s);
    case _ =>
      hide Contents;
      TakeRemoves(s.ring);
  }

  /**
    In every interleaving of puts with peek, transmit and take, frames leave in the order in which
    they arrived, and exactly the frames that were sent are the ones that are taken.
   */
  lemma {:induction false} FifoUnderInterleaving(count: nat, slots: seq<Frame>, es: seq<Event>)
    requires |slots| == count && count > 0
    ensures var s := Run(State(Ring(0, 0, slots), Idle, [], [], []), es);
            && Orderly(s)
            && s.taken <= s.sent <= s.arrived
            && |s.sent| <= |s.taken| + 1
            && |s.arrived| <= |s.taken| + count - 1
  {
    var s0 := State(Ring(0, 0, slots), Idle, [], [], []);
    assert s0.taken + Contents(s0.ring) == [];
    RunKeeps(s0, es);
    var s := Run(s0, es);
    TakeRemoves(s.ring);
  }

  lemma {:induction false} RunKeeps(s: State, es: seq<Event>)
    requires Orderly(s)
    ensures Orderly(Run(s, es)) && |Run(s, es).ring.slots| == |s.ring.slots|
    decreases |es|
  {
    hide Orderly, Do;
    OrderlyValid(s);
    if es != [] {
      DoKeeps(s, es[0]);
      OrderlyValid(Do(s, es[0]));
      SameSlots(s, es[0]);
      RunKeeps(Do(s, es[0]), es[1..]);
    }
  }

  lemma OrderlyValid(s: State)
    requires Orderly(s)
    ensures ValidRing(s.ring)
  {
  }

  lemma SameSlots(s: State, e: Event)
    requires ValidRing(s.ring)
    ensures |Do(s, e).ring.slots| == |s.ring.slots|
  {
  }

  // ----- Progress

  predicate AllArrive(es: seq<Event>) {
    forall e :: e in es ==> e.Arrive?
  }

  /** The frames of these events that find room, with `room` slots free. */
  function Accepted(es: seq<Event>, room: nat): (fs: seq<Frame>)
    requires AllArrive(es)
  {
    if es == [] || room == 0 then [] else [es[0].frame] + Accepted(es[1..], room - 1)
  }

  lemma AcceptedCons(es: seq<Event>, room: nat)
    requires AllArrive(es) && es != [] && room > 0
    ensures AllArrive(es[1..]) && es[0].Arrive? && Accepted(es, room) == [es[0].frame] + Accepted(es[1..], room - 1)
  {
  }

  /** One arrival. */
  lemma ArrivalStep(s: State, f: Frame)
    requires Orderly(s)
    ensures var s' := Do(s, Arrive(f));
            && Orderly(s') && s'.at == s.at && s'.sent == s.sent && s'.taken == s.taken
            && |Contents(s.ring)| < |s.ring.slots| == |s'.ring.slots|
            && (Full(s.ring) <==> |Contents(s.ring)| == |s.ring.slots| - 1)
            && Contents(s'.ring) == if Full(s.ring) then Contents(s.ring) else Contents(s.ring) + [f]
  {
    hide Contents, Orderly;
    OrderlyValid(s);
    PutAppends(s.ring, f);
    DoKeeps(s, Arrive(f));
  }

  /** While the consumer stands still, frames are queued behind the others as long as there is room. */
  lemma {:induction false} ArrivalsQueue(s: State, es: seq<Event>)
    requires Orderly(s) && AllArrive(es)
    ensures var s' := Run(s, es);
            && Orderly(s') && s'.at == s.at && s'.sent == s.sent && s'.taken == s.taken
            && |Contents(s.ring)| < |s.ring.slots| == |s'.ring.slots|
            && Contents(s'.ring) == Contents(s.ring) + Accepted(es, |s.ring.slots| - 1 - |Contents(s.ring)|)
    decreases |es|
  {
    hide Contents, Orderly, Do, Accepted, Full;
    OrderlyValid(s);
    var fs := Contents(s.ring);
    var room: nat := |s.ring.slots| - 1 - |fs|;
    if es == [] {
      NoRoom(es, room);
      assert fs + [] == fs;
    } else {
      var f, s1 := es[0].frame, Do(s, es[0]);
      ArrivalStep(s, f);
      OrderlyValid(s1);
      ArrivalsQueue(s1, es[1..]);
      if room == 0 {
        NoRoom(es, 0);
        NoRoom(es[1..], 0);
      } else {
        AcceptedCons(es, room);
        assert (fs + [f]) + Accepted(es[1..], room - 1) == fs + ([f] + Accepted(es[1..], room - 1));
      }
    }
  }

  lemma NoRoom(es: seq<Event>, room: nat)
    requires AllArrive(es) && (room == 0 || es == [])
    ensures Accepted(es, room) == []
  {
  }

  /** A consumer at rest that looks, transmits and takes passes on exactly the oldest frame. */
  lemma RoundTakes(s: State, accepted: bool)
    requires Orderly(s) && s.at.Idle? && Contents(s.ring) != []
    ensures var s1 := Do(s, PeekNow);
            var s2 := Do(s1, Transmit(accepted));
            var s3 := Do(s2, TakeNow);
            var f := Contents(s.ring)[0];
            && s1.at == Peeked(s.ring.head, f)
            && s2.sent == s.sent + (if accepted then [f] else [])
            && s3.at.Idle? && s3.taken == s.taken + (if accepted then [f] else [])
            && Contents(s3.ring) == if accepted then Contents(s.ring)[1..] else Contents(s.ring)
  {
    hide Contents;
    TakeRemoves(s.ring);
    assert s.sent + [] == s.sent && s.taken + [] == s.taken;
  }
}
