/**
  The resumable write of several buffers to a TCP connection (`lwip_netconn_do_writemore`), one
  call after the other, whatever the TCP layer answers.
 */
module VectoredWrite {
  import opened Bytes

  const MAX_CHUNK: nat := 0xFFFF

  type u16 = x: int | 0 <= x < U16_SIZE

  /** The bytes of all vectors, one after the other. */
  function Flat(vs: seq<seq<byte>>): (s: seq<byte>) {
    if vs == [] then [] else vs[0] + Flat(vs[1..])
  }

  /** The write message: the cursor over the vectors, what has been accepted and how much there is. */
  datatype Message = Message(vector: nat, vectorCnt: nat, vectorOff: nat, offset: nat, len: nat, accepted: seq<byte>)

  /** How `tcp_write` ends; an empty write cannot run out of memory. */
  datatype Answer = Accept | NoMemory | Refuse

  function AnswerTo(len: nat, a: Answer): (r: Answer) {
    if len == 0 && a.NoMemory? then Accept else a
  }

  /** How an iteration of the loop ends. */
  datatype Outcome = Blocked | GoOn | Stop(answer: Answer)

  predicate Ready(vs: seq<seq<byte>>, m: Message) {
    m.vectorCnt > 0 && m.vector < |vs| && m.vectorOff <= |vs[m.vector]|
  }

  // ----- One iteration

  function Chunk(diff: nat, available: u16): (len: nat)
    ensures len <= diff && len <= available && len <= MAX_CHUNK
  {
    var len := if diff > MAX_CHUNK then MAX_CHUNK else diff;
    if available < len then available else len
  }

  /** `len` bytes were accepted: offset and cursor move on. */
  function Advance(vs: seq<seq<byte>>, m: Message, len: nat): (m': Message)
    requires Ready(vs, m) && m.vectorOff + len <= |vs[m.vector]|
  {
    var off := m.vectorOff + len;
    var w := m.(offset := m.offset + len, vectorOff := off,
                accepted := m.accepted + vs[m.vector][m.vectorOff..off]);
    if off < |vs[m.vector]| then w
    else if m.vectorCnt > 1 then w.(vectorCnt := m.vectorCnt - 1, vector := m.vector + 1, vectorOff := 0)
    else w.(vectorCnt := 0)
  }

  /** The test that decides on another round, with the length cut to 16 bits. */
  predicate WriteMore(len: nat, diff: nat, vectorCnt: nat) {
    (len == MAX_CHUNK && diff > MAX_CHUNK) || (len == diff % U16_SIZE && vectorCnt > 1)
  }

  function Iterate(vs: seq<seq<byte>>, m: Message, dontBlock: bool, available: u16, a: Answer): (r: (Message, Outcome))
    requires Ready(vs, m)
  {
    var diff := |vs[m.vector]| - m.vectorOff;
    var len := Chunk(diff, available);
    if diff > 0 && available == 0 && dontBlock then (m, Blocked)
    else
      match AnswerTo(len, a)
      case Accept => (Advance(vs, m, len), if WriteMore(len, diff, m.vectorCnt) then GoOn else Stop(Accept))
      case NoMemory => (m, Stop(NoMemory))
      case Refuse => (m, Stop(Refuse))
  }

  /** What the TCP layer says in each iteration: free space of the send buffer, and how the write ends. */
  datatype Round = Round(available: u16, answer: Answer)

  /** The loop over the rounds given; `GoOn` when they run out before it ends. */
  function Loop(vs: seq<seq<byte>>, m: Message, dontBlock: bool, rounds: seq<Round>): (r: (Message, Outcome))
    requires Ready(vs, m)
    decreases |rounds|
  {
    if rounds == [] then (m, GoOn)
    else
      var r := Iterate(vs, m, dontBlock, rounds[0].available, rounds[0].answer);
      if r.1.GoOn? && Ready(vs, r.0) then Loop(vs, r.0, dontBlock, rounds[1..]) else r
  }

  // ----- One call

  datatype Error = Ok | WouldBlock | NoRoute | Fatal

  /** `checkSpace` asks the poll callback to report write space later on. */
  datatype Conn =
    | Writing(message: Message, checkSpace: bool)
    | Done(error: Error, message: Message, checkSpace: bool)
    | Looping(message: Message)

  /** One call of `lwip_netconn_do_writemore`. */
  datatype Call = Call(expired: bool, rounds: seq<Round>, noRoute: bool)

  function ByProgress(m: Message): (e: Error) {
    if m.offset == 0 then WouldBlock else Ok
  }

  function WriteCall(vs: seq<seq<byte>>, c: Conn, dontBlock: bool, timeout: bool, call: Call): (c': Conn)
    requires c.Writing? ==> Ready(vs, c.message)
  {
    if !c.Writing? then c
    else if timeout && call.expired then Done(ByProgress(c.message), c.message, c.checkSpace)
    else
      var (m, out) := Loop(vs, c.message, dontBlock, call.rounds);
      var check := c.checkSpace || (dontBlock && m.offset < m.len);
      match out
      case GoOn => Looping(m)
      case Blocked =>
        if m.offset == 0 then Done(WouldBlock, m, check)
        else Done(if call.noRoute then NoRoute else Ok, m, check)
      case Stop(Accept) =>
        if call.noRoute then Done(NoRoute, m, check)
        else if m.offset == m.len || dontBlock then Done(Ok, m, check)
        else Writing(m, check)
      case Stop(NoMemory) =>
        if call.noRoute then Done(NoRoute, m, check)
        else if dontBlock then Done(ByProgress(m), m, check)
        else Writing(m, check)
      case Stop(Refuse) => Done(Fatal, m, c.checkSpace)
  }

  /** `netconn_write_vectors_partly` sets the message up; writing nothing is over at once. */
  function StartWrite(vs: seq<seq<byte>>): (c: Conn) {
    var m := Message(0, |vs|, 0, 0, |Flat(vs)|, []);
    if m.len == 0 then Done(Ok, m, false) else Writing(m, false)
  }

  // ----- What every call keeps

  /** The cursor stands where the accepted bytes end. */
  ghost predicate Inv(vs: seq<seq<byte>>, m: Message) {
    && m.len == |Flat(vs)| && m.offset <= m.len && m.accepted == Flat(vs)[..m.offset]
    && m.vector < |vs|
    && (m.vectorCnt > 0 ==>
          && m.vector + m.vectorCnt == |vs|
          && m.offset == |Flat(vs[..m.vector])| + m.vectorOff
          && (m.vectorOff < |vs[m.vector]| || (m.vectorOff == 0 && vs[m.vector] == [])))
    && (m.vectorCnt == 0 ==> m.offset == m.len)
  }

  lemma {:induction false} FlatAround(vs: seq<seq<byte>>, i: nat)
    requires i < |vs|
    ensures Flat(vs) == Flat(vs[..i]) + vs[i] + Flat(vs[i + 1..])
    ensures Flat(vs[..i + 1]) == Flat(vs[..i]) + vs[i]
  {
    hide Flat;
    FlatCons(vs);
    FlatCons(vs[..i + 1]);
    assert vs[..i + 1][0] == vs[0] && vs[..i + 1][1..] == vs[1..][..i];
    if i == 0 {
      assert vs[..0] == [] && vs[1..][..0] == [];
      FlatNone();
    } else {
      FlatAround(vs[1..], i - 1);
      FlatCons(vs[..i]);
      assert vs[..i][0] == vs[0] && vs[..i][1..] == vs[1..][..i - 1];
      assert vs[1..][i..] == vs[i + 1..] && vs[1..][i - 1] == vs[i];
      FlatJoin(vs[0], Flat(vs[1..][..i - 1]), vs[i], Flat(vs[i + 1..]));
    }
  }

  lemma FlatCons(vs: seq<seq<byte>>)
    requires vs != []
    ensures Flat(vs) == vs[0] + Flat(vs[1..])
  {
  }

  lemma FlatJoin(a: seq<byte>, b: seq<byte>, c: seq<byte>, d: seq<byte>)
    ensures a + (b + c + d) == (a + b) + c + d
    ensures a + (b + c) == (a + b) + c
  {
  }

  lemma AdvanceKeeps(vs: seq<seq<byte>>, m: Message, len: nat)
    requires Inv(vs, m) && m.vectorCnt > 0 && m.vectorOff + len <= |vs[m.vector]|
    requires len > 0 || vs[m.vector] == [] || m.vectorOff < |vs[m.vector]|
    ensures Inv(vs, Advance(vs, m, len))
    ensures Advance(vs, m, len).accepted == Flat(vs)[..m.offset + len]
  {
    hide Flat;
    var i, off := m.vector, m.vectorOff;
    var v, before, after := vs[i], Flat(vs[..i]), Flat(vs[i + 1..]);
    FlatAround(vs, i);
    assert Flat(vs)[..m.offset + len] == Flat(vs)[..m.offset] + v[off..off + len];
    if off + len == |v| {
      if m.vectorCnt == 1 {
        assert vs[i + 1..] == [];
        FlatNone();
      }
    }
  }

  lemma FlatNone()
    ensures Flat([]) == []
  {
  }

  /** An iteration keeps the cursor right; it ends with data left unless it stops on an accepted write. */
  lemma IterateKeeps(vs: seq<seq<byte>>, m: Message, dontBlock: bool, r: Round)
    requires Inv(vs, m) && m.vectorCnt > 0
    ensures Ready(vs, m)
    ensures var (m', out) := Iterate(vs, m, dontBlock, r.available, r.answer);
            && Inv(vs, m') && m'.offset >= m.offset
            && (out.GoOn? ==> m'.vectorCnt > 0)
            && (out.Blocked? ==> dontBlock && m'.offset < m'.len)
            && (out == Stop(NoMemory) ==> m'.offset < m'.len)
            && (out == Stop(Accept) && dontBlock ==> m'.offset > 0 || m'.len == 0)
  {
    hide Flat;
    var v, diff := vs[m.vector], |vs[m.vector]| - m.vectorOff;
    var len := Chunk(diff, r.available);
    FlatAround(vs, m.vector);
    AdvanceKeeps(vs, m, len);
  }

  lemma {:induction false} LoopKeeps(vs: seq<seq<byte>>, m: Message, dontBlock: bool, rounds: seq<Round>)
    requires Inv(vs, m) && m.vectorCnt > 0
    ensures Ready(vs, m)
    ensures var (m', out) := Loop(vs, m, dontBlock, rounds);
            && Inv(vs, m') && m'.offset >= m.offset
            && (out.Blocked? ==> dontBlock && m'.offset < m'.len)
            && (out == Stop(NoMemory) ==> m'.offset < m'.len)
            && (out == Stop(Accept) && dontBlock ==> m'.offset > 0 || m'.len == 0)
    decreases |rounds|
  {
    hide Flat, Iterate, Inv;
    InvReady(vs, m);
    if rounds != [] {
      IterateKeeps(vs, m, dontBlock, rounds[0]);
      var r := Iterate(vs, m, dontBlock, rounds[0].available, rounds[0].answer);
      if r.1.GoOn? {
        LoopKeeps(vs, r.0, dontBlock, rounds[1..]);
      }
    }
  }

  lemma InvReady(vs: seq<seq<byte>>, m: Message)
    requires Inv(vs, m) && m.vectorCnt > 0
    ensures Ready(vs, m)
  {
  }

  /**
    The accepted bytes are the first `offset` bytes of all vectors. While the write is pending
    there are bytes left, as every retry asserts. A finished write has an honest result.
   */
  ghost predicate ConnOk(vs: seq<seq<byte>>, dontBlock: bool, timeout: bool, c: Conn) {
    var m := c.message;
    && m.len == |Flat(vs)| && m.offset <= m.len && m.accepted == Flat(vs)[..m.offset]
    && (c.Writing? ==> Inv(vs, m) && m.offset < m.len && m.vectorCnt > 0)
    && (c.Done? && c.error == Ok && !dontBlock && !timeout ==> m.offset == m.len)
    && (c.Done? && c.error == Ok && m.len > 0 ==> m.offset > 0)
    && (c.Done? && c.error == WouldBlock ==> m.offset == 0)
    && (c.Done? && (c.error == Ok || c.error == WouldBlock) && dontBlock && !timeout && m.offset < m.len ==>
          c.checkSpace)
  }

  lemma CallKeeps(vs: seq<seq<byte>>, c: Conn, dontBlock: bool, timeout: bool, call: Call)
    requires ConnOk(vs, dontBlock, timeout, c)
    ensures c.Writing? ==> Ready(vs, c.message)
    ensures ConnOk(vs, dontBlock, timeout, WriteCall(vs, c, dontBlock, timeout, call))
  {
    hide Flat, Loop;
    if c.Writing? {
      LoopKeeps(vs, c.message, dontBlock, call.rounds);
    }
  }

  /** A write and its retries by the callbacks. */
  function Retry(vs: seq<seq<byte>>, c: Conn, dontBlock: bool, timeout: bool, calls: seq<Call>): (c': Conn)
    decreases |calls|
  {
    if calls == [] || (c.Writing? && !Ready(vs, c.message)) then c
    else Retry(vs, WriteCall(vs, c, dontBlock, timeout, calls[0]), dontBlock, timeout, calls[1..])
  }

  lemma {:induction false} RetryKeeps(vs: seq<seq<byte>>, c: Conn, dontBlock: bool, timeout: bool, calls: seq<Call>)
    requires ConnOk(vs, dontBlock, timeout, c)
    ensures ConnOk(vs, dontBlock, timeout, Retry(vs, c, dontBlock, timeout, calls))
    decreases |calls|
  {
    hide ConnOk, WriteCall;
    if calls != [] && (c.Writing? ==> Ready(vs, c.message)) {
      CallKeeps(vs, c, dontBlock, timeout, calls[0]);
      RetryKeeps(vs, WriteCall(vs, c, dontBlock, timeout, calls[0]), dontBlock, timeout, calls[1..]);
    }
  }

  /** In every run, whatever the TCP layer answers and however often the write is retried. */
  lemma WriteIsHonest(vs: seq<seq<byte>>, dontBlock: bool, timeout: bool, calls: seq<Call>)
    ensures ConnOk(vs, dontBlock, timeout, Retry(vs, StartWrite(vs), dontBlock, timeout, calls))
  {
    hide Retry, Flat;
    var c := StartWrite(vs);
    assert Flat(vs)[..0] == [] && Flat(vs)[..|Flat(vs)|] == Flat(vs);
    assert vs[..0] == [];
    FlatNone();
    if c.Writing? {
      assert vs != [];
    }
    RetryKeeps(vs, c, dontBlock, timeout, calls);
  }

  // ----- Progress of the loop

  /** Bytes and vectors still to go. */
  function Left(vs: seq<seq<byte>>, m: Message): (n: int) {
    m.len - m.offset + m.vectorCnt
  }

  /** No space, and the rest of the vector is a multiple of 2^16 with another vector behind it. */
  predicate Stuck(vs: seq<seq<byte>>, m: Message, dontBlock: bool, available: u16)
    requires Ready(vs, m)
  {
    var diff := |vs[m.vector]| - m.vectorOff;
    !dontBlock && available == 0 && diff > 0 && diff % U16_SIZE == 0 && m.vectorCnt > 1
  }

  /**
    A round that goes on gets nearer to the end, except exactly where the cut length makes a
    blocking write take the lack of space for the end of the vector: then nothing changes, and
    with the core locked nothing will.
   */
  lemma RoundAdvances(vs: seq<seq<byte>>, m: Message, dontBlock: bool, r: Round)
    requires Inv(vs, m) && m.vectorCnt > 0 && Ready(vs, m)
    requires Iterate(vs, m, dontBlock, r.available, r.answer).1.GoOn?
    ensures var m' := Iterate(vs, m, dontBlock, r.available, r.answer).0;
            if Stuck(vs, m, dontBlock, r.available) then m' == m else Left(vs, m') < Left(vs, m)
  {
    hide Flat;
    var diff := |vs[m.vector]| - m.vectorOff;
    var len := Chunk(diff, r.available);
    if len == 0 {
      assert vs[m.vector][m.vectorOff..m.vectorOff] == [];
      assert m.accepted + [] == m.accepted;
    }
  }

  /** Some answers of the TCP layer keep the loop of a blocking write going for `n` rounds. */
  ghost predicate GoesOn(vs: seq<seq<byte>>, m: Message, n: nat)
    requires Ready(vs, m)
  {
    exists rounds: seq<Round> :: |rounds| == n && Loop(vs, m, false, rounds).1.GoOn?
  }

  /** The write wants another round, however many it is given. */
  ghost predicate Spins(vs: seq<seq<byte>>, m: Message)
    requires Ready(vs, m)
  {
    forall n: nat :: GoesOn(vs, m, n)
  }

  /** A round that goes on passes the spinning on. */
  lemma SpinsStep(vs: seq<seq<byte>>, m: Message, r: Round)
    requires Ready(vs, m)
    requires var (m', out) := Iterate(vs, m, false, r.available, r.answer);
             out.GoOn? && Ready(vs, m') && Spins(vs, m')
    ensures Spins(vs, m)
  {
    hide Iterate;
    var m' := Iterate(vs, m, false, r.available, r.answer).0;
    forall n: nat ensures GoesOn(vs, m, n) {
      if n == 0 {
        assert Loop(vs, m, false, []).1.GoOn?;
      } else {
        assert GoesOn(vs, m', n - 1);
        var rest :| |rest| == n - 1 && Loop(vs, m', false, rest).1.GoOn?;
        var rounds := [r] + rest;
        assert rounds[1..] == rest;
        assert Loop(vs, m, false, rounds).1.GoOn?;
      }
    }
  }

  /** In the stuck state nothing changes, so the loop never ends. */
  lemma StuckSpins(vs: seq<seq<byte>>, m: Message)
    requires Ready(vs, m) && Stuck(vs, m, false, 0)
    ensures Spins(vs, m)
  {
    hide Loop;
    forall n: nat ensures GoesOn(vs, m, n) {
      var rounds := seq<Round>(n, _ => Round(0, Accept));
      StuckFor(vs, m, rounds);
    }
  }

  lemma {:induction false} StuckFor(vs: seq<seq<byte>>, m: Message, rounds: seq<Round>)
    requires Ready(vs, m) && Stuck(vs, m, false, 0)
    requires forall i :: 0 <= i < |rounds| ==> rounds[i] == Round(0, Accept)
    ensures Loop(vs, m, false, rounds) == (m, GoOn)
    decreases |rounds|
  {
    if rounds != [] {
      StuckStays(vs, m);
      hide Iterate;
      StuckFor(vs, m, rounds[1..]);
    }
  }

  lemma StuckStays(vs: seq<seq<byte>>, m: Message)
    requires Ready(vs, m) && Stuck(vs, m, false, 0)
    ensures Iterate(vs, m, false, 0, Accept) == (m, GoOn)
  {
    assert vs[m.vector][m.vectorOff..m.vectorOff] == [];
    assert m.accepted + [] == m.accepted;
  }

  /** At the start of vector `j`. */
  predicate AtVector(vs: seq<seq<byte>>, m: Message, j: nat) {
    m.vector == j < |vs| && m.vectorOff == 0 && m.vectorCnt == |vs| - j
  }

  /**
    The way into the trap: the vectors in front of the first large one are accepted whole, and of
    that one as much as makes the rest a multiple of 2^16; then there is no more space.
   */
  lemma {:induction false} TrapSpins(vs: seq<seq<byte>>, m: Message, j: nat, i: nat)
    requires j <= i < |vs| - 1 && AtVector(vs, m, j) && Ready(vs, m)
    requires |vs[i]| >= U16_SIZE && forall k :: 0 <= k < i ==> |vs[k]| < U16_SIZE
    ensures Spins(vs, m)
    decreases i - j
  {
    hide Loop, Spins;
    var r := Round(if j < i then 0xFFFF else |vs[i]| % U16_SIZE, Accept);
    var m' := Iterate(vs, m, false, r.available, r.answer).0;
    if j < i {
      TrapSpins(vs, m', j + 1, i);
    } else {
      StuckSpins(vs, m');
    }
    SpinsStep(vs, m, r);
  }

  /** Some answers of the TCP layer, in some call of a blocking write of these vectors, make it spin. */
  ghost predicate CanSpin(vs: seq<seq<byte>>) {
    exists timeout: bool, calls: seq<Call> :: SpinsAfter(vs, Retry(vs, StartWrite(vs), false, timeout, calls))
  }

  ghost predicate SpinsAfter(vs: seq<seq<byte>>, c: Conn) {
    c.Writing? && Ready(vs, c.message) && Spins(vs, c.message)
  }

  /**
    What a caller can go by: a blocking write can spin, its thread holding the core, if and only
    if one of its vectors other than the last has 2^16 bytes or more.
   */
  lemma SpinsExactly(vs: seq<seq<byte>>)
    ensures CanSpin(vs) <==> exists i :: 0 <= i < |vs| - 1 && |vs[i]| >= U16_SIZE
  {
    hide Flat, Loop, Spins, Retry, ConnOk;
    if i :| 0 <= i < |vs| - 1 && |vs[i]| >= U16_SIZE {
      var first := FirstLarge(vs, i);
      FlatAround(vs, first);
      var c := StartWrite(vs);
      TrapSpins(vs, c.message, 0, first);
      assert Retry(vs, c, false, false, []) == c by { NoCalls(vs, c); }
      assert SpinsAfter(vs, Retry(vs, c, false, false, []));
    }
    if CanSpin(vs) {
      var timeout: bool, calls: seq<Call> :| SpinsAfter(vs, Retry(vs, StartWrite(vs), false, timeout, calls));
      var c := Retry(vs, StartWrite(vs), false, timeout, calls);
      WriteIsHonest(vs, false, timeout, calls);
      if forall i :: 0 <= i < |vs| - 1 ==> |vs[i]| < U16_SIZE {
        SmallNeverSpins(vs, timeout, c);
      }
    }
  }

  lemma NoCalls(vs: seq<seq<byte>>, c: Conn)
    ensures Retry(vs, c, false, false, []) == c
  {
  }

  lemma FirstLarge(vs: seq<seq<byte>>, i: nat) returns (first: nat)
    requires i < |vs| - 1 && |vs[i]| >= U16_SIZE
    ensures first <= i && |vs[first]| >= U16_SIZE && forall k :: 0 <= k < first ==> |vs[k]| < U16_SIZE
  {
    first := 0;
    while |vs[first]| < U16_SIZE
      invariant first <= i && forall k :: 0 <= k < first ==> |vs[k]| < U16_SIZE
      decreases i - first
    {
      first := first + 1;
    }
  }

  lemma SmallNeverSpins(vs: seq<seq<byte>>, timeout: bool, c: Conn)
    requires ConnOk(vs, false, timeout, c) && (forall i :: 0 <= i < |vs| - 1 ==> |vs[i]| < U16_SIZE)
    ensures !SpinsAfter(vs, c)
  {
    hide Flat, Loop;
    if SpinsAfter(vs, c) {
      var n: nat := Left(vs, c.message);
      assert GoesOn(vs, c.message, n);
      var rounds :| |rounds| == n && Loop(vs, c.message, false, rounds).1.GoOn?;
      LoopEnds(vs, c.message, false, rounds);
    }
  }

  /**
    The loop ends within as many rounds as there are bytes and vectors left, if the write does not
    block, or there is always some space, or every vector but the last is shorter than 2^16 bytes.
   */
  lemma {:induction false} LoopEnds(vs: seq<seq<byte>>, m: Message, dontBlock: bool, rounds: seq<Round>)
    requires Inv(vs, m) && m.vectorCnt > 0 && Ready(vs, m)
    requires dontBlock || (forall i :: 0 <= i < |rounds| ==> rounds[i].available > 0)
             || (forall i :: 0 <= i < |vs| - 1 ==> |vs[i]| < U16_SIZE)
    requires |rounds| >= Left(vs, m)
    ensures !Loop(vs, m, dontBlock, rounds).1.GoOn?
    decreases |rounds|
  {
    hide Flat, Iterate;
    var r := Iterate(vs, m, dontBlock, rounds[0].available, rounds[0].answer);
    IterateKeeps(vs, m, dontBlock, rounds[0]);
    if r.1.GoOn? {
      RoundAdvances(vs, m, dontBlock, rounds[0]);
      LoopEnds(vs, r.0, dontBlock, rounds[1..]);
    }
  }
}
