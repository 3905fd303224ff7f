/** The vectored write as the connection carries it out, changing its message in place. */
module WriteBuffers {
  import opened Bytes
  import opened Bits
  import opened VectoredWrite

  lemma LoopStep(vs: seq<seq<byte>>, m: Message, dontBlock: bool, rounds: seq<Round>, i: nat)
    requires i < |rounds| && Ready(vs, m)
    ensures var r := Iterate(vs, m, dontBlock, rounds[i].available, rounds[i].answer);
            Loop(vs, m, dontBlock, rounds[i..]) ==
            if r.1.GoOn? && Ready(vs, r.0) then Loop(vs, r.0, dontBlock, rounds[i + 1..]) else r
  {
    hide Iterate;
    assert rounds[i..][1..] == rounds[i + 1..];
  }

  lemma LoopNone(vs: seq<seq<byte>>, m: Message, dontBlock: bool, rounds: seq<Round>)
    requires Ready(vs, m)
    ensures Loop(vs, m, dontBlock, rounds[|rounds|..]) == (m, GoOn)
  {
  }

  lemma {:induction false} FlatPrefix(vs: seq<seq<byte>>, i: nat)
    requires i <= |vs|
    ensures |Flat(vs[..i])| <= |Flat(vs)|
  {
    if i < |vs| {
      FlatAround(vs, i);
    } else {
      assert vs[..i] == vs;
    }
  }

  /**
    The size sum of `netconn_write_vectors_partly`, in a size type that wraps above `sizeMax`: an
    overflow is noticed whenever there is one.
   */
  method TotalSize(vectors: seq<seq<byte>>, sizeMax: nat) returns (r: Option<nat>)
    requires forall v :: v in vectors ==> |v| <= sizeMax
    ensures r == if |Flat(vectors)| <= sizeMax then Some(|Flat(vectors)|) else None
  {
    hide Flat;
    var size: nat := 0;
    assert vectors[..0] == [];
    FlatNone();
    for i := 0 to |vectors|
      invariant size == |Flat(vectors[..i])| <= sizeMax
    {
      FlatAround(vectors, i);
      FlatPrefix(vectors, i + 1);
      var n := |vectors[i]|;
      assert vectors[i] in vectors;
      WrapNoticed(size, n, sizeMax + 1);
      size := (size + n) % (sizeMax + 1);
      if size < n {
        return None;
      }
    }
    assert vectors[..|vectors|] == vectors;
    return Some(size);
  }

  lemma WrapNoticed(a: nat, b: nat, m: nat)
    requires a < m && b < m
    ensures (a + b) % m == if a + b < m then a + b else a + b - m
    ensures (a + b) % m < b <==> a + b >= m
  {
    if a + b < m {
      DivUnique(a + b, m, 0, a + b);
    } else {
      DivUnique(a + b, m, 1, a + b - m);
    }
  }

  class Connection {
    const vectors: seq<seq<byte>>
    const dontBlock: bool
    const timeout: bool
    var vector: nat
    var vectorCnt: nat
    var vectorOff: nat
    var offset: nat
    const len: nat
    /** What the TCP layer has accepted. */
    var accepted: seq<byte>

    ghost function Value(): Message
      reads this
    {
      Message(vector, vectorCnt, vectorOff, offset, len, accepted)
    }

    /** `netconn_write_vectors_partly` up to the first call. */
    constructor (vectors: seq<seq<byte>>, dontBlock: bool, timeout: bool)
      ensures this.vectors == vectors && this.dontBlock == dontBlock && this.timeout == timeout
      ensures StartWrite(vectors).message == Value()
    {
      this.vectors, this.dontBlock, this.timeout := vectors, dontBlock, timeout;
      vector, vectorCnt, vectorOff, offset, accepted := 0, |vectors|, 0, 0, [];
      len := |Flat(vectors)|;
    }

    /** One round of the loop: offer a chunk to `tcp_write` and move the cursor over what it accepts. */
    method WriteChunk(available: u16, answer: Answer) returns (out: Outcome)
      requires Inv(vectors, Value()) && vectorCnt > 0
      modifies this
      ensures Inv(vectors, old(Value()))
      ensures Ready(vectors, old(Value()))
      ensures (Value(), out) == Iterate(vectors, old(Value()), dontBlock, available, answer)
    {
      hide Flat;
      InvReady(vectors, Value());
      var diff := |vectors[vector]| - vectorOff;
      var size := if diff > MAX_CHUNK then MAX_CHUNK else diff;
      if available < size {
        size := available;
        if dontBlock && size == 0 {
          return Blocked;
        }
      }
      var more := (size == MAX_CHUNK && diff > MAX_CHUNK) || (size == diff % U16_SIZE && vectorCnt > 1);
      var err := AnswerTo(size, answer);
      if err.Accept? {
        accepted := accepted + vectors[vector][vectorOff..vectorOff + size];
        offset := offset + size;
        vectorOff := vectorOff + size;
        if vectorOff == |vectors[vector]| {
          vectorCnt := vectorCnt - 1;
          if vectorCnt > 0 {
            vector := vector + 1;
            vectorOff := 0;
          }
        }
      }
      return if more && err.Accept? then GoOn else Stop(err);
    }

    /**
      `lwip_netconn_do_writemore`: the new value of the message, whether the write is over, and
      how. It may be called as long as the write is pending.
     */
    method WriteMore(call: Call, checkSpace: bool) returns (c: Conn)
      requires ConnOk(vectors, dontBlock, timeout, Writing(Value(), checkSpace))
      modifies this
      ensures c.message == Value()
      ensures ConnOk(vectors, dontBlock, timeout, c)
      ensures Ready(vectors, old(Value()))
      ensures c == WriteCall(vectors, Writing(old(Value()), checkSpace), dontBlock, timeout, call)
    {
      hide Flat, Iterate, Loop, Inv;
      ghost var m := Value();
      InvReady(vectors, m);
      CallKeeps(vectors, Writing(m, checkSpace), dontBlock, timeout, call);
      if timeout && call.expired {
        var kept := Message(vector, vectorCnt, vectorOff, offset, len, accepted);
        return Done(if offset == 0 then WouldBlock else Ok, kept, checkSpace);
      }
      var out := GoOn;
      var i := 0;
      while i < |call.rounds| && out.GoOn?
        invariant i <= |call.rounds|
        invariant out.GoOn? ==> Inv(vectors, Value()) && vectorCnt > 0 && Ready(vectors, Value())
        invariant out.GoOn? ==>
                    Loop(vectors, Value(), dontBlock, call.rounds[i..]) == Loop(vectors, m, dontBlock, call.rounds)
        invariant !out.GoOn? ==> (Value(), out) == Loop(vectors, m, dontBlock, call.rounds)
        decreases |call.rounds| - i
      {
        LoopStep(vectors, Value(), dontBlock, call.rounds, i);
        IterateKeeps(vectors, Value(), dontBlock, call.rounds[i]);
        out := WriteChunk(call.rounds[i].available, call.rounds[i].answer);
        i := i + 1;
        if out.GoOn? {
          InvReady(vectors, Value());
        }
      }
      if out.GoOn? {
        LoopNone(vectors, Value(), dontBlock, call.rounds);
      }
      assert (Value(), out) == Loop(vectors, m, dontBlock, call.rounds);
      var value := Message(vector, vectorCnt, vectorOff, offset, len, accepted);
      var check := checkSpace || (dontBlock && offset < len);
      match out
      case GoOn => return Looping(value);
      case Blocked =>
        if offset == 0 {
          return Done(WouldBlock, value, check);
        }
        return Done(if call.noRoute then NoRoute else Ok, value, check);
      case Stop(answer) =>
        if answer.Refuse? {
          return Done(Fatal, value, checkSpace);
        }
        if call.noRoute {
          return Done(NoRoute, value, check);
        }
        if answer.Accept? {
          return if offset == len || dontBlock then Done(Ok, value, check) else Writing(value, check);
        }
        return if dontBlock then Done(if offset == 0 then WouldBlock else Ok, value, check) else Writing(value, check);
    }
  }
}
