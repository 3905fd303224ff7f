/**
  The store of truncated questions in memory: a linked list of questions, each with its
  known-answer packets.
 */
module TcList {
  import opened TcStore

  class Node {
    const pbuf: nat
    const source: nat
    var next: Node?
    /** The known-answer packets, newest first. */
    var answers: seq<nat>

    constructor (pbuf: nat, source: nat)
      ensures this.pbuf == pbuf && this.source == source && next == null && answers == []
    {
      this.pbuf, this.source, this.next, this.answers := pbuf, source, null, [];
    }
  }

  ghost function At(s: seq<Node>, i: nat): (n: Node?) {
    if i < |s| then s[i] else null
  }

  ghost predicate Linked(spine: seq<Node>, i: nat)
    requires i < |spine|
    reads spine[i]
  {
    spine[i].next == At(spine, i + 1)
  }

  ghost function Shown(q: Node): (r: Question)
    reads q
  {
    Question(q.pbuf, q.source, q.answers)
  }

  class Pending {
    var first: Node?
    ghost var spine: seq<Node>

    ghost predicate Valid()
      reads this, spine
    {
      && first == At(spine, 0)
      && (forall i: nat {:trigger Linked(spine, i)} :: i < |spine| ==> Linked(spine, i))
      && (forall i, j :: 0 <= i < j < |spine| ==> spine[i] != spine[j])
    }

    /** The list as the specification has it. */
    ghost function Value(): (qs: seq<Question>)
      reads this, spine
      ensures |qs| == |spine|
      ensures forall i :: 0 <= i < |spine| ==> qs[i] == Shown(spine[i])
    {
      seq(|spine|, i requires 0 <= i < |spine| reads this, spine => Shown(spine[i]))
    }

    constructor ()
      ensures Valid() && Value() == [] && spine == []
    {
      first, spine := null, [];
    }

    /** A new question goes to the front. */
    method Insert(pkt: Node)
      requires Valid() && pkt !in spine
      modifies this, pkt`next
      ensures Valid() && spine == [pkt] + old(spine)
      ensures Value() == [Shown(pkt)] + old(Value())
    {
      ghost var was := spine;
      pkt.next := first;
      first := pkt;
      spine := [pkt] + was;
      forall i: nat | i < |spine| ensures Linked(spine, i) {
        if i > 0 {
          assert old(Linked(was, i - 1));
          assert spine[i] == was[i - 1];
        }
      }
    }

    /** The newest question from a source. */
    method Find(source: nat) returns (q: Node?)
      requires Valid()
      ensures q == At(spine, FindSource(Value(), source))
    {
      ghost var i: nat := 0;
      q := first;
      ghost var qs := Value();
      while q != null && q.source != source
        invariant i <= |spine| && q == At(spine, i)
        invariant forall k :: 0 <= k < i ==> qs[k].source != source
        decreases |spine| - i
      {
        assert Linked(spine, i);
        q := q.next;
        i := i + 1;
      }
      assert i < |qs| ==> qs[i].source == source;
    }

    /** A known-answer packet joins a question. */
    method AddAnswer(q: Node, pbuf: nat, ghost i: nat)
      requires Valid() && i < |spine| && q == spine[i]
      modifies q`answers
      ensures Valid() && spine == old(spine) && q.answers == [pbuf] + old(q.answers)
      ensures Value() == old(Value())[i := old(Value())[i].(answers := [pbuf] + old(Value())[i].answers)]
    {
      q.answers := [pbuf] + q.answers;
      forall k: nat | k < |spine| ensures Linked(spine, k) {
        assert old(Linked(spine, k));
      }
    }

    /** The node in front of a question that is not the first. */
    method Before(pkt: Node, ghost i: nat) returns (prev: Node)
      requires Valid() && 0 < i < |spine| && pkt == spine[i]
      ensures prev == spine[i - 1]
    {
      prev := first;
      ghost var k: nat := 0;
      while prev.next != pkt
        invariant k < i && prev == spine[k]
        decreases i - k
      {
        assert Linked(spine, k);
        prev := prev.next;
        k := k + 1;
      }
      assert Linked(spine, k);
    }

    /**
      The unlinking in `mdns_handle_tc_question`: the list's head, or the node before it, is made
      to skip the question. All others stay, in their order.
     */
    method Unlink(pkt: Node, ghost i: nat)
      requires Valid() && i < |spine| && pkt == spine[i]
      modifies this, spine
      ensures Valid() && spine == Remove(old(spine), i)
      ensures Value() == Remove(old(Value()), i)
      ensures pkt.answers == old(pkt.answers)
    {
      hide Remove;
      ghost var was, qs := spine, Value();
      assert Linked(was, i);
      if first == pkt {
        first := pkt.next;
      } else {
        var prev := Before(pkt, i);
        prev.next := pkt.next;
      }
      spine := Remove(was, i);
      forall j: nat | j < |spine| ensures Linked(spine, j) {
        RemovedAt(was, i, j);
        Skipped(was, i, j);
        assert old(Linked(was, j));
        if j + 1 < |was| {
          assert old(Linked(was, j + 1));
        }
      }
      if spine != [] {
        RemovedAt(was, i, 0);
      }
      forall a, b | 0 <= a < b < |spine| ensures spine[a] != spine[b] {
        RemovedAt(was, i, a);
        RemovedAt(was, i, b);
      }
      forall j | 0 <= j < |spine| ensures Value()[j] == Remove(qs, i)[j] {
        RemovedAt(was, i, j);
        RemovedAt(qs, i, j);
      }
    }
  }

  lemma Skipped(s: seq<Node>, i: nat, j: nat)
    requires i < |s| && j < |s| - 1
    ensures At(Remove(s, i), j + 1) == At(s, if j + 1 < i then j + 1 else j + 2)
  {
  }

  lemma Unlinked(rest: seq<Node>, was: seq<Node>, i: nat)
    requires i < |was| && rest == Remove(was, i) && forall a, b :: 0 <= a < b < |was| ==> was[a] != was[b]
    ensures was[i] !in rest
  {
    forall j | 0 <= j < |rest| ensures rest[j] != was[i] {
      RemovedAt(was, i, j);
    }
  }

  /** The responder's store: the list, the pool, and what has become of the packets so far. */
  class TcResponder {
    const pending: Pending
    var timers: seq<nat>
    var used: nat
    ghost var sources: seq<nat>
    var received: nat
    var freed: seq<nat>
    var handled: seq<Question>

    ghost predicate Valid()
      reads this, pending, pending.spine
    {
      pending.Valid() && received == |sources|
    }

    ghost function Value(): Store
      reads this, pending, pending.spine
    {
      Store(pending.Value(), timers, used, sources, freed, handled)
    }

    constructor ()
      ensures Valid() && Value() == EMPTY && fresh(pending)
    {
      pending := new Pending();
      timers, used, sources, received, freed, handled := [], 0, [], 0, [], [];
    }

    /** `mdns_recv`. */
    method OnPacket(p: Packet)
      requires Valid()
      modifies this, pending, pending.spine
      ensures Valid() && Value() == Receive(old(Value()), p)
      ensures forall q :: q in pending.spine ==> q in old(pending.spine) || fresh(q)
    {
      hide FindSource;
      var pbuf := received;
      received := received + 1;
      sources := sources + [p.source];
      if !p.ours || p.response {
        freed := freed + [pbuf];
        return;
      }
      if p.questions > 0 && p.truncated {
        StoreQuestion(pbuf, p.source);
        return;
      }
      if p.questions == 0 && p.answers > 0 {
        var stored := JoinQuestion(pbuf, p.source);
        if stored {
          return;
        }
      }
      handled := handled + [Question(pbuf, p.source, [])];
      freed := freed + [pbuf];
    }

    /** A truncated question is stored, with a timer, or freed for lack of room. */
    method StoreQuestion(pbuf: nat, source: nat)
      requires Valid()
      modifies this`used, this`freed, this`timers, pending
      ensures Valid()
      ensures forall q :: q in pending.spine ==> q in old(pending.spine) || fresh(q)
      ensures var s := old(Value());
              Value() == if s.used >= MAX_STORED then s.(freed := s.freed + [pbuf])
                         else s.(used := s.used + 1, timers := s.timers + [pbuf],
                                 pending := [Question(pbuf, source, [])] + s.pending)
    {
      if used >= MAX_STORED {
        freed := freed + [pbuf];
        return;
      }
      var pkt := new Node(pbuf, source);
      pending.Insert(pkt);
      used := used + 1;
      timers := timers + [pbuf];
    }

    /** A known-answer packet joins the newest question from its source, or is freed for lack of room. */
    method JoinQuestion(pbuf: nat, source: nat) returns (found: bool)
      requires Valid()
      modifies this`used, this`freed, pending.spine
      ensures Valid() && pending.spine == old(pending.spine)
      ensures var s, i := old(Value()), FindSource(old(pending.Value()), source);
              && (found <==> i < |s.pending|)
              && Value() == if !found then s
                            else if s.used >= MAX_STORED then s.(freed := s.freed + [pbuf])
                            else s.(used := s.used + 1,
                                    pending := s.pending[i := s.pending[i].(answers := [pbuf] + s.pending[i].answers)])
    {
      hide FindSource;
      var q := pending.Find(source);
      if q == null {
        return false;
      }
      if used >= MAX_STORED {
        freed := freed + [pbuf];
        return true;
      }
      pending.AddAnswer(q, pbuf, FindSource(pending.Value(), source));
      used := used + 1;
      return true;
    }

    /** Frees the answers of a question that has left the list, and the question itself. */
    method FreeQuestion(pkt: Node)
      requires used > |pkt.answers|
      modifies pkt`answers, this`freed, this`used
      ensures freed == old(freed) + old(pkt.answers) + [pkt.pbuf]
      ensures used == old(used) - 1 - |old(pkt.answers)|
    {
      ghost var answers, before := pkt.answers, freed;
      ghost var done: seq<nat> := [];
      while pkt.answers != []
        invariant answers == done + pkt.answers && freed == before + done && used + |done| == old(used)
        decreases |pkt.answers|
      {
        var ans := pkt.answers[0];
        pkt.answers := pkt.answers[1..];
        done := done + [ans];
        freed := freed + [ans];
        used := used - 1;
      }
      freed := freed + [pkt.pbuf];
      used := used - 1;
    }

    /** `mdns_handle_tc_question`, for the question whose timer is number `k`. */
    method OnTimer(k: nat, pkt: Node)
      requires Valid() && k < |timers|
      requires var i := FindPacket(pending.Value(), timers[k]); i < |pending.spine| && pkt == pending.spine[i]
      requires used > |pkt.answers|
      modifies this, pending, pending.spine
      ensures Valid() && Value() == Expire(old(Value()), k)
    {
      hide FindPacket;
      ghost var i, s := FindPacket(pending.Value(), timers[k]), Value();
      handled := handled + [Question(pkt.pbuf, pkt.source, pkt.answers)];
      pending.Unlink(pkt, i);
      timers := Remove(timers, k);
      ghost var left := pending.Value();
      assert left == Remove(s.pending, i);
      FreeQuestion(pkt);
      assert pkt !in pending.spine by { Unlinked(pending.spine, old(pending.spine), i); }
      assert pending.Valid() && pending.Value() == left;
    }
  }
}
