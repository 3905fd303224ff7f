/**
  How a call of the vectored write ends, by what the TCP layer has answered.
 */
module WriteEndings {
  import opened Bytes
  import opened VectoredWrite

  // ----- The round that ends the loop

  /** The message in front of round `n`. */
  function Before(vs: seq<seq<byte>>, m: Message, dontBlock: bool, rounds: seq<Round>, n: nat): (w: Message)
    requires Ready(vs, m) && n <= |rounds|
  {
    Loop(vs, m, dontBlock, rounds[..n]).0
  }

  /** All rounds in front of round `n` have gone on. */
  predicate Arrives(vs: seq<seq<byte>>, m: Message, dontBlock: bool, rounds: seq<Round>, n: nat)
    requires Ready(vs, m)
  {
    && n < |rounds| && Loop(vs, m, dontBlock, rounds[..n]).1.GoOn?
    && Ready(vs, Before(vs, m, dontBlock, rounds, n))
  }

  /** What is left of the vector that the cursor is in. */
  function Remains(vs: seq<seq<byte>>, w: Message): (n: nat)
    requires Ready(vs, w)
  {
    |vs[w.vector]| - w.vectorOff
  }

  /** A write that must not block finds no space for the bytes it has. */
  predicate FullAt(vs: seq<seq<byte>>, m: Message, dontBlock: bool, rounds: seq<Round>, n: nat)
    requires Ready(vs, m)
  {
    && Arrives(vs, m, dontBlock, rounds, n)
    && dontBlock && rounds[n].available == 0 && Remains(vs, Before(vs, m, dontBlock, rounds, n)) > 0
  }

  predicate RefusedAt(vs: seq<seq<byte>>, m: Message, dontBlock: bool, rounds: seq<Round>, n: nat)
    requires Ready(vs, m)
  {
    && Arrives(vs, m, dontBlock, rounds, n) && !FullAt(vs, m, dontBlock, rounds, n)
    && rounds[n].answer.Refuse?
  }

  /** Out of memory for at least one byte. */
  predicate NoMemoryAt(vs: seq<seq<byte>>, m: Message, dontBlock: bool, rounds: seq<Round>, n: nat)
    requires Ready(vs, m)
  {
    && Arrives(vs, m, dontBlock, rounds, n)
    && rounds[n].answer.NoMemory? && rounds[n].available > 0 && Remains(vs, Before(vs, m, dontBlock, rounds, n)) > 0
  }

  /** The largest chunk: what is left of the vector, the free space, and 65535 bytes at most. */
  predicate IsChunk(len: nat, left: nat, available: nat) {
    && len <= left && len <= available && len <= 65535
    && (len == left || len == available || len == 65535)
  }

  /**
    Accepted, and nothing more is to be offered: neither is the chunk at its limit with more behind
    it, nor does it end its vector, as far as 16 bits can tell, with another one to come.
   */
  predicate AcceptedAt(vs: seq<seq<byte>>, m: Message, dontBlock: bool, rounds: seq<Round>, n: nat)
    requires Ready(vs, m)
  {
    && Arrives(vs, m, dontBlock, rounds, n) && !FullAt(vs, m, dontBlock, rounds, n)
    && !rounds[n].answer.Refuse? && !NoMemoryAt(vs, m, dontBlock, rounds, n)
    && var w := Before(vs, m, dontBlock, rounds, n);
    forall len | 0 <= len <= 65535 && IsChunk(len, Remains(vs, w), rounds[n].available) ::
      !(len == 65535 && Remains(vs, w) > 65535) && !(len == Remains(vs, w) % 65536 && w.vectorCnt > 1)
  }

  lemma ChunkIs(left: nat, available: u16, len: nat)
    ensures IsChunk(len, left, available) <==> len == Chunk(left, available)
  {
  }

  lemma FirstRound(vs: seq<seq<byte>>, m: Message, dontBlock: bool, rounds: seq<Round>)
    requires Ready(vs, m) && rounds != []
    ensures Arrives(vs, m, dontBlock, rounds, 0) && Before(vs, m, dontBlock, rounds, 0) == m
    ensures var out := Iterate(vs, m, dontBlock, rounds[0].available, rounds[0].answer).1;
            && (out == Blocked <==> FullAt(vs, m, dontBlock, rounds, 0))
            && (out == Stop(Refuse) <==> RefusedAt(vs, m, dontBlock, rounds, 0))
            && (out == Stop(NoMemory) <==> NoMemoryAt(vs, m, dontBlock, rounds, 0))
            && (out == Stop(Accept) <==> AcceptedAt(vs, m, dontBlock, rounds, 0))
  {
    hide Advance;
    assert rounds[..0] == [];
    var left, len := Remains(vs, m), Chunk(Remains(vs, m), rounds[0].available);
    ChunkIs(left, rounds[0].available, len);
    forall n: nat ensures IsChunk(n, left, rounds[0].available) <==> n == len {
      ChunkIs(left, rounds[0].available, n);
    }
  }

  /** The rounds behind the first are those of the rest. */
  lemma LaterRound(vs: seq<seq<byte>>, m: Message, dontBlock: bool, rounds: seq<Round>, n: nat)
    requires Ready(vs, m) && rounds != []
    ensures var r := Iterate(vs, m, dontBlock, rounds[0].available, rounds[0].answer);
            if r.1.GoOn? && Ready(vs, r.0) then
              && (Arrives(vs, m, dontBlock, rounds, n + 1) <==> Arrives(vs, r.0, dontBlock, rounds[1..], n))
              && (Arrives(vs, m, dontBlock, rounds, n + 1) ==>
                    Before(vs, m, dontBlock, rounds, n + 1) == Before(vs, r.0, dontBlock, rounds[1..], n))
            else !Arrives(vs, m, dontBlock, rounds, n + 1)
  {
    hide Iterate;
    if n + 1 < |rounds| {
      assert rounds[..n + 1][0] == rounds[0] && rounds[..n + 1][1..] == rounds[1..][..n];
    }
  }

  /** How the loop ends, by the round that ends it. */
  ghost predicate EndsBy(vs: seq<seq<byte>>, m: Message, dontBlock: bool, rounds: seq<Round>, out: Outcome)
    requires Ready(vs, m)
  {
    && (out == Blocked <==> exists n :: FullAt(vs, m, dontBlock, rounds, n))
    && (out == Stop(Refuse) <==> exists n :: RefusedAt(vs, m, dontBlock, rounds, n))
    && (out == Stop(NoMemory) <==> exists n :: NoMemoryAt(vs, m, dontBlock, rounds, n))
    && (out == Stop(Accept) <==> exists n :: AcceptedAt(vs, m, dontBlock, rounds, n))
  }

  /** The first round ends the loop. */
  lemma EndsNow(vs: seq<seq<byte>>, m: Message, dontBlock: bool, rounds: seq<Round>)
    requires Ready(vs, m) && rounds != []
    requires !Iterate(vs, m, dontBlock, rounds[0].available, rounds[0].answer).1.GoOn?
    ensures EndsBy(vs, m, dontBlock, rounds, Iterate(vs, m, dontBlock, rounds[0].available, rounds[0].answer).1)
  {
    hide Iterate, Arrives;
    FirstRound(vs, m, dontBlock, rounds);
    forall n: nat ensures Arrives(vs, m, dontBlock, rounds, n) ==> n == 0 {
      if n > 0 {
        LaterRound(vs, m, dontBlock, rounds, n - 1);
      }
    }
  }

  /** The first round goes on, and the rest of them end the loop. */
  lemma EndsLater(vs: seq<seq<byte>>, m: Message, dontBlock: bool, rounds: seq<Round>, out: Outcome)
    requires Ready(vs, m) && rounds != []
    requires var r := Iterate(vs, m, dontBlock, rounds[0].available, rounds[0].answer);
             r.1.GoOn? && Ready(vs, r.0) && EndsBy(vs, r.0, dontBlock, rounds[1..], out)
    ensures EndsBy(vs, m, dontBlock, rounds, out)
  {
    hide Iterate, FullAt, RefusedAt, NoMemoryAt, AcceptedAt;
    var m', rest := Iterate(vs, m, dontBlock, rounds[0].available, rounds[0].answer).0, rounds[1..];
    FirstRound(vs, m, dontBlock, rounds);
    forall n: nat | n > 0
      ensures FullAt(vs, m, dontBlock, rounds, n) ==> FullAt(vs, m', dontBlock, rest, n - 1)
      ensures RefusedAt(vs, m, dontBlock, rounds, n) ==> RefusedAt(vs, m', dontBlock, rest, n - 1)
      ensures NoMemoryAt(vs, m, dontBlock, rounds, n) ==> NoMemoryAt(vs, m', dontBlock, rest, n - 1)
      ensures AcceptedAt(vs, m, dontBlock, rounds, n) ==> AcceptedAt(vs, m', dontBlock, rest, n - 1)
    {
      SameRound(vs, m, dontBlock, rounds, n - 1);
    }
    forall n: nat
      ensures FullAt(vs, m', dontBlock, rest, n) ==> FullAt(vs, m, dontBlock, rounds, n + 1)
      ensures RefusedAt(vs, m', dontBlock, rest, n) ==> RefusedAt(vs, m, dontBlock, rounds, n + 1)
      ensures NoMemoryAt(vs, m', dontBlock, rest, n) ==> NoMemoryAt(vs, m, dontBlock, rounds, n + 1)
      ensures AcceptedAt(vs, m', dontBlock, rest, n) ==> AcceptedAt(vs, m, dontBlock, rounds, n + 1)
    {
      SameRound(vs, m, dontBlock, rounds, n);
    }
  }

  lemma SameRound(vs: seq<seq<byte>>, m: Message, dontBlock: bool, rounds: seq<Round>, n: nat)
    requires Ready(vs, m) && rounds != []
    requires var r := Iterate(vs, m, dontBlock, rounds[0].available, rounds[0].answer); r.1.GoOn? && Ready(vs, r.0)
    ensures var m', rest := Iterate(vs, m, dontBlock, rounds[0].available, rounds[0].answer).0, rounds[1..];
            && (FullAt(vs, m, dontBlock, rounds, n + 1) <==> FullAt(vs, m', dontBlock, rest, n))
            && (RefusedAt(vs, m, dontBlock, rounds, n + 1) <==> RefusedAt(vs, m', dontBlock, rest, n))
            && (NoMemoryAt(vs, m, dontBlock, rounds, n + 1) <==> NoMemoryAt(vs, m', dontBlock, rest, n))
            && (AcceptedAt(vs, m, dontBlock, rounds, n + 1) <==> AcceptedAt(vs, m', dontBlock, rest, n))
  {
    hide Iterate, IsChunk;
    LaterRound(vs, m, dontBlock, rounds, n);
    assert n + 1 < |rounds| ==> rounds[n + 1] == rounds[1..][n];
  }

  /** The loop ends by the first round that does not go on, and by what that round met. */
  lemma {:induction false} LoopEndsBy(vs: seq<seq<byte>>, m: Message, dontBlock: bool, rounds: seq<Round>)
    requires Inv(vs, m) && m.vectorCnt > 0
    ensures Ready(vs, m) && EndsBy(vs, m, dontBlock, rounds, Loop(vs, m, dontBlock, rounds).1)
    decreases |rounds|
  {
    hide Flat, Iterate, Inv, EndsBy;
    InvReady(vs, m);
    if rounds == [] {
      NoRounds(vs, m, dontBlock, rounds);
    } else {
      IterateKeeps(vs, m, dontBlock, rounds[0]);
      var r := Iterate(vs, m, dontBlock, rounds[0].available, rounds[0].answer);
      if r.1.GoOn? {
        LoopEndsBy(vs, r.0, dontBlock, rounds[1..]);
        EndsLater(vs, m, dontBlock, rounds, Loop(vs, r.0, dontBlock, rounds[1..]).1);
      } else {
        EndsNow(vs, m, dontBlock, rounds);
      }
    }
  }

  lemma NoRounds(vs: seq<seq<byte>>, m: Message, dontBlock: bool, rounds: seq<Round>)
    requires Ready(vs, m) && rounds == []
    ensures EndsBy(vs, m, dontBlock, rounds, GoOn) && Loop(vs, m, dontBlock, rounds) == (m, GoOn)
  {
  }

  // ----- The result of a call

  ghost predicate Full(vs: seq<seq<byte>>, m: Message, dontBlock: bool, call: Call)
    requires Ready(vs, m)
  {
    !call.expired && exists n :: FullAt(vs, m, dontBlock, call.rounds, n)
  }

  ghost predicate Refused(vs: seq<seq<byte>>, m: Message, dontBlock: bool, call: Call)
    requires Ready(vs, m)
  {
    !call.expired && exists n :: RefusedAt(vs, m, dontBlock, call.rounds, n)
  }

  ghost predicate OutOfMemory(vs: seq<seq<byte>>, m: Message, dontBlock: bool, call: Call)
    requires Ready(vs, m)
  {
    !call.expired && exists n :: NoMemoryAt(vs, m, dontBlock, call.rounds, n)
  }

  ghost predicate Accepted(vs: seq<seq<byte>>, m: Message, dontBlock: bool, call: Call)
    requires Ready(vs, m)
  {
    !call.expired && exists n :: AcceptedAt(vs, m, dontBlock, call.rounds, n)
  }

  /**
    How a call of a pending write ends, whatever the TCP layer answers. A refusal is fatal. A lost
    route is reported unless nothing could be sent. A timeout and a write that must not block are
    over, well if anything was accepted; a blocking write is over only once everything is accepted,
    and goes on waiting otherwise.
   */
  lemma CallEndsBy(vs: seq<seq<byte>>, c: Conn, dontBlock: bool, timeout: bool, call: Call)
    requires c.Writing? && ConnOk(vs, dontBlock, timeout, c) && (call.expired ==> timeout)
    ensures Ready(vs, c.message)
    ensures var m, c' := c.message, WriteCall(vs, c, dontBlock, timeout, call);
            var full, refused := Full(vs, m, dontBlock, call), Refused(vs, m, dontBlock, call);
            var noMemory, accepted := OutOfMemory(vs, m, dontBlock, call), Accepted(vs, m, dontBlock, call);
            var sent, all := c'.message.offset > 0, c'.message.offset == m.len;
            && (c'.Done? && c'.error == Fatal <==> refused)
            && (c'.Done? && c'.error == NoRoute <==> call.noRoute && (accepted || noMemory || (full && sent)))
            && (c'.Done? && c'.error == WouldBlock <==>
                  !sent && (call.expired || full || (noMemory && dontBlock && !call.noRoute)))
            && (c'.Done? && c'.error == Ok <==>
                  || (call.expired && sent)
                  || (!call.noRoute && accepted && (all || dontBlock))
                  || (!call.noRoute && sent && dontBlock && (full || noMemory)))
            && (c'.Writing? <==> !dontBlock && !call.noRoute && ((accepted && !all) || noMemory))
            && (!c'.Looping? ==>
                  (c'.checkSpace <==> c.checkSpace || (dontBlock && !all && !call.expired && !refused)))
  {
    hide Flat, Loop, FullAt, RefusedAt, NoMemoryAt, AcceptedAt;
    var m := c.message;
    InvReady(vs, m);
    LoopEndsBy(vs, m, dontBlock, call.rounds);
    LoopKeeps(vs, m, dontBlock, call.rounds);
  }

  /** Writing nothing is done at once and well; any other write starts in front of the first byte. */
  lemma WriteStarts(vs: seq<seq<byte>>)
    ensures var c := StartWrite(vs);
            && (c.Done? <==> Flat(vs) == []) && (c.Done? ==> c.error == Ok) && !c.Looping?
            && c.message.offset == 0 && c.message.len == |Flat(vs)| && c.message.accepted == [] && !c.checkSpace
  {
  }
}
