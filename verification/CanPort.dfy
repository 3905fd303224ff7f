/** The CAN bridge of one interface: its two queues, the packer, the parser and the main loop step. */
module CanPort {
  import opened Bytes
  import opened FrameQueue
  import opened Cannelloni

  /** `memcpy` into a packet buffer. */
  method Store(data: array<byte>, at: nat, s: seq<byte>)
    requires at + |s| <= data.Length
    modifies data
    ensures data[..] == Splice(old(data[..]), at, s)
  {
    for i := 0 to |s|
      invariant data[..at] == old(data[..at]) && data[at + i..] == old(data[at + i..])
      invariant data[at..at + i] == s[..i]
    {
      data[at + i] := s[i];
    }
    assert data[..] == data[..at] + data[at..at + |s|] + data[at + |s|..];
  }

  /** One frame into the datagram: identifier, length, payload. */
  method StoreFrame(data: array<byte>, start: nat, f: Frame) returns (pos: nat)
    requires Sendable(f) && start + FRAME_BASE + Dlc(f.len) <= data.Length
    modifies data
    ensures data[..] == Splice(old(data[..]), start, Wire(f)) && pos == start + |Wire(f)|
  {
    hide Be32;
    ghost var was := data[..];
    pos := start;
    Store(data, pos, Be32(f.id));
    pos := pos + 4;
    data[pos] := f.len;
    pos := pos + 1;
    ghost var mid := data[..];
    Store(data, pos, f.data[..Dlc(f.len)]);
    pos := pos + Dlc(f.len);
    StoreParts(was, mid, start, f);
  }

  lemma StoreParts(was: seq<byte>, mid: seq<byte>, start: nat, f: Frame)
    requires Sendable(f) && start + FRAME_BASE + Dlc(f.len) <= |was|
    requires mid == Splice(was, start, Be32(f.id))[start + 4 := f.len]
    ensures Splice(mid, start + 5, f.data[..Dlc(f.len)]) == Splice(was, start, Wire(f))
  {
    hide Be32;
    var a, b := Splice(mid, start + 5, f.data[..Dlc(f.len)]), Splice(was, start, Wire(f));
    forall i | 0 <= i < |was| ensures a[i] == b[i] {
      SpliceAt(mid, start + 5, f.data[..Dlc(f.len)], i);
      SpliceAt(was, start, Be32(f.id), i);
      SpliceAt(was, start, Wire(f), i);
    }
  }

  lemma {:induction false} WiresAppend(fs: seq<Frame>, f: Frame)
    requires AllSendable(fs) && Sendable(f)
    ensures AllSendable(fs + [f]) && Wires(fs + [f]) == Wires(fs) + Wire(f)
    decreases |fs|
  {
    hide Wire, Sendable, Wires;
    if fs == [] {
      assert fs + [f] == [f];
      OneWire(f);
      NoWires(fs);
    } else {
      WiresAppend(fs[1..], f);
      assert (fs + [f])[1..] == fs[1..] + [f] && (fs + [f])[0] == fs[0];
      WiresCons(fs + [f]);
      WiresCons(fs);
    }
  }

  lemma NoWires(fs: seq<Frame>)
    requires fs == []
    ensures AllSendable(fs) && Wires(fs) == []
  {
  }

  lemma WiresCons(fs: seq<Frame>)
    requires AllSendable(fs) && fs != []
    ensures Sendable(fs[0]) && AllSendable(fs[1..]) && Wires(fs) == Wire(fs[0]) + Wires(fs[1..])
  {
    hide Wire, Sendable;
  }

  /** What is packed so far lies behind the header. */
  ghost predicate Packing(data: seq<byte>, pos: nat, all: seq<Frame>, k: nat, left: seq<Frame>) {
    && HEADER_SIZE <= pos <= |data| && k <= |all| && left == all[k..]
    && AllSendable(all) && AllSendable(all[..k])
    && data[HEADER_SIZE..pos] == Wires(all[..k])
    && Fitting(HEADER_SIZE, all) == k + Fitting(pos, left)
  }

  lemma PackingStart(data: seq<byte>, all: seq<Frame>)
    requires AllSendable(all) && |data| >= HEADER_SIZE
    ensures Packing(data, HEADER_SIZE, all, 0, all)
  {
  }

  lemma PackingStep(data: seq<byte>, pos: nat, all: seq<Frame>, k: nat, left: seq<Frame>, data': seq<byte>)
    requires Packing(data, pos, all, k, left) && left != [] && |data| == DATAGRAM_BUFFER
    requires pos + FRAME_BASE + Dlc(left[0].len) < DATAGRAM_BUFFER
    requires Sendable(left[0]) && data' == Splice(data, pos, Wire(left[0]))
    ensures Packing(data', pos + |Wire(left[0])|, all, k + 1, left[1..])
  {
    hide Wire, Sendable, Wires;
    assert all[..k + 1] == all[..k] + [left[0]];
    WiresAppend(all[..k], left[0]);
    var end := pos + |Wire(left[0])|;
    assert data'[HEADER_SIZE..end] == data'[HEADER_SIZE..pos] + data'[pos..end];
    assert data'[HEADER_SIZE..pos] == data'[..pos][HEADER_SIZE..] == data[HEADER_SIZE..pos];
  }

  lemma PackingDone(data: seq<byte>, pos: nat, all: seq<Frame>, k: nat, left: seq<Frame>, seqNo: nat, data': seq<byte>)
    requires Packing(data, pos, all, k, left) && k < U16_SIZE
    requires left == [] || pos + FRAME_BASE + Dlc(left[0].len) >= DATAGRAM_BUFFER
    requires data' == Splice(data, 0, Header(seqNo, k))
    ensures k == Fitting(HEADER_SIZE, all) && left == all[k..] && pos <= |data'|
    ensures AllSendable(all[..k]) && data'[..pos] == Datagram(seqNo, all[..k])
  {
    hide Wires, Header;
    assert data'[..pos] == data'[0..0 + HEADER_SIZE] + data'[HEADER_SIZE..][..pos - HEADER_SIZE];
    assert data'[HEADER_SIZE..][..pos - HEADER_SIZE] == data[HEADER_SIZE..pos];
  }

  lemma PackingNext(data: seq<byte>, pos: nat, all: seq<Frame>, k: nat, left: seq<Frame>)
    requires Packing(data, pos, all, k, left) && left != []
    ensures Sendable(left[0])
  {
    assert all[k] in all;
  }

  lemma SmallCount(data: seq<byte>, pos: nat, all: seq<Frame>, k: nat, left: seq<Frame>)
    requires Packing(data, pos, all, k, left)
    ensures k < U16_SIZE
  {
  }

  /** The next datagram of a drain. */
  lemma DrainStep(seqNo: nat, fs: seq<Frame>)
    requires AllSendable(fs)
    ensures fs == [] ==> Datagrams(seqNo, fs) == []
    ensures fs != [] ==>
              var k := Fitting(HEADER_SIZE, fs);
              && k > 0 && AllSendable(fs[..k]) && AllSendable(fs[k..])
              && Datagrams(seqNo, fs) == [Datagram(seqNo, fs[..k])] + Datagrams((seqNo + 1) % U32_SIZE, fs[k..])
  {
  }

  /** What has been sent so far and what the queue still holds add up to the whole drain. */
  ghost predicate Draining(log: seq<seq<byte>>, seqNo: nat, all: seq<Frame>,
                           sent: seq<seq<byte>>, next: nat, left: seq<Frame>)
  {
    && AllSendable(all) && AllSendable(left)
    && |left| <= |all| && left == all[|all| - |left|..]
    && log + Datagrams(seqNo, all) == sent + Datagrams(next, left)
  }

  lemma DrainingStart(log: seq<seq<byte>>, seqNo: nat, all: seq<Frame>)
    requires AllSendable(all)
    ensures Draining(log, seqNo, all, log, seqNo, all)
  {
    hide Datagrams, AllSendable;
    assert all == all[|all| - |all|..];
  }

  lemma DrainingStep(log: seq<seq<byte>>, seqNo: nat, all: seq<Frame>, sent: seq<seq<byte>>, next: nat,
                     left: seq<Frame>, sent': seq<seq<byte>>, next': nat, left': seq<Frame>)
    requires Draining(log, seqNo, all, sent, next, left) && AllSendable(left)
    requires var k := Fitting(HEADER_SIZE, left);
             || (sent' == sent && next' == next && left' == left)
             || (left != [] && AllSendable(left[..k]) && sent' == sent + [Datagram(next, left[..k])]
                 && next' == (next + 1) % U32_SIZE && left' == left[k..])
    ensures Draining(log, seqNo, all, sent', next', left') && AllSendable(left') && |left'| <= |left|
    ensures left' != left ==> |left'| < |left|
  {
    hide Datagrams, Datagram, Fitting, AllSendable;
    if sent' != sent || next' != next || left' != left {
      var k := Fitting(HEADER_SIZE, left);
      DrainStep(next, left);
      assert left[k..] == all[|all| - |left[k..]|..];
      assert sent + ([Datagram(next, left[..k])] + Datagrams(next', left')) == sent' + Datagrams(next', left');
    }
  }

  lemma DrainingEnd(log: seq<seq<byte>>, seqNo: nat, all: seq<Frame>, sent: seq<seq<byte>>, next: nat, left: seq<Frame>)
    requires Draining(log, seqNo, all, sent, next, left)
    ensures AllSendable(all) && |left| <= |all| && left == all[|all| - |left|..]
    ensures left == [] ==> sent == log + Datagrams(seqNo, all)
    ensures AllSendable(left) && log + Datagrams(seqNo, all) == sent + Datagrams(next, left)
  {
    hide AllSendable;
    DrainStep(next, left);
  }

  lemma ContentsBound(r: Ring)
    requires ValidRing(r)
    ensures |Contents(r)| < |r.slots|
  {
  }

  /** The messages taken so far and the parse of the rest make up the whole parse. */
  ghost predicate Parsing(whole: Parse, got: seq<Message>, rest: Parse) {
    whole == Parse(got + rest.messages, rest.end)
  }

  lemma ParsingStep(whole: Parse, got: seq<Message>, m: Message, rest: Parse)
    requires Parsing(whole, got, rest.(messages := [m] + rest.messages))
    ensures Parsing(whole, got + [m], rest)
    ensures |got| < |whole.messages| && whole.messages[..|got|] == got
  {
    assert got + ([m] + rest.messages) == (got + [m]) + rest.messages;
  }

  /**
    All messages of the parse were queued, or as many as there was room for. A frame that overruns
    its data field does so in a slot that is queued already, if there is one.
   */
  ghost predicate Handled(whole: Parse, before: seq<Message>, after: seq<Message>, room: nat, end: End) {
    var n := |whole.messages|;
    if n > room || (n == room && whole.end == Overrun) then
      end == Refused && after == before + whole.messages[..room]
    else if whole.end == Overrun then
      end == Overrun && |after| == |before| + n + 1 && after[..|before| + n] == before + whole.messages
    else end == whole.end && after == before + whole.messages
  }

  lemma ParsingStart(whole: Parse)
    ensures Parsing(whole, [], whole)
  {
    assert [] + whole.messages == whole.messages;
  }

  lemma HandledAll(whole: Parse, before: seq<Message>, got: seq<Message>, rest: Parse, room: nat)
    requires rest.messages == [] && rest.end != Overrun && |got| <= room
    requires Parsing(whole, got, rest) || (got == [] && whole == rest)
    ensures Handled(whole, before, before + got, room, rest.end)
  {
    assert got + [] == got;
    assert whole.messages[..|got|] == got;
  }

  lemma ParsingEnds(whole: Parse, before: seq<Message>, got: seq<Message>, rest: Parse, room: nat)
    requires Parsing(whole, got, rest) && |got| <= room
    ensures rest.messages == [] && rest.end != Overrun ==> Handled(whole, before, before + got, room, rest.end)
  {
    if rest.messages == [] && rest.end != Overrun {
      HandledAll(whole, before, got, rest, room);
    }
  }

  lemma HandledFull(whole: Parse, before: seq<Message>, got: seq<Message>, room: nat)
    requires |got| == room <= |whole.messages| && whole.messages[..room] == got
    requires |whole.messages| == room ==> whole.end == Overrun
    ensures Handled(whole, before, before + got, room, Refused)
  {
  }

  lemma GotMore(before: seq<Message>, got: seq<Message>, m: Message)
    ensures before + (got + [m]) == (before + got) + [m]
  {
  }

  /** The frame that overruns: without a slot it is refused, else its slot is the last one queued. */
  lemma HandledOverrun(whole: Parse, before: seq<Message>, got: seq<Message>, room: nat)
    requires Parsing(whole, got, Parse([], Overrun)) && |got| <= room
    ensures |got| == room ==> Handled(whole, before, before + got, room, Refused)
    ensures |got| < room ==> forall m :: Handled(whole, before, before + got + [m], room, Overrun)
  {
    assert got + [] == got && whole.messages[..|got|] == got;
  }

  lemma HeaderParse(d: seq<byte>)
    ensures ParseDatagram(d) ==
            if |d| > HEADER_SIZE && d[0] == VERSION && d[1] == DATA then ParseFrom(d, HEADER_SIZE, FromBe16(d[3..5]))
            else Parse([], Complete)
  {
  }

  /** What the parser makes of the bytes at `pos`: a frame and where the next one begins, or an end. */
  datatype Turn = Ends(end: End) | Frames(message: Message, next: nat)

  function TurnAt(d: seq<byte>, pos: nat): (t: Turn) {
    if pos + FRAME_BASE > |d| then Ends(Truncated)
    else
      var id, len := FromBe32(d[pos..pos + 4]), d[pos + 4];
      var at := pos + FRAME_BASE + if len >= FD_BIT then 1 else 0;
      if at > |d| then Ends(Overread)
      else
        var flags := if len >= FD_BIT then d[at - 1] else 0;
        if Remote(id) then Frames(Message(id, len, flags, []), at)
        else if at + Dlc(len) > |d| then Ends(Truncated)
        else if Dlc(len) > MAX_DLEN then Ends(Overrun)
        else Frames(Message(id, len, flags, d[at..at + Dlc(len)]), at + Dlc(len))
  }

  /** One frame of a parse. */
  lemma ParseStep(d: seq<byte>, pos: nat, n: nat)
    requires n > 0
    ensures var t := TurnAt(d, pos);
            if t.Ends? then ParseFrom(d, pos, n) == Parse([], t.end)
            else
              var rest := ParseFrom(d, t.next, n - 1);
              ParseFrom(d, pos, n) == rest.(messages := [t.message] + rest.messages)
    ensures var t := TurnAt(d, pos);
            t.Frames? ==> t.next <= |d| && |t.message.payload| <= MAX_DLEN
                          && |t.message.payload| == if Remote(t.message.id) then 0 else Dlc(t.message.len)
  {
    hide FromBe32, Remote;
  }

  /** The part of the loop of `handle_cannelloni_frame` that reads one frame. */
  method ReadFrame(d: seq<byte>, start: nat) returns (t: Turn)
    ensures t == TurnAt(d, start)
  {
    hide FromBe32, Remote;
    var pos := start;
    if pos + FRAME_BASE > |d| {
      return Ends(Truncated);
    }
    var id := FromBe32(d[pos..pos + 4]);
    pos := pos + 4;
    var len := d[pos];
    pos := pos + 1;
    var dlc := Dlc(len);
    var flags: byte := 0;
    if len >= FD_BIT {
      if pos >= |d| {
        return Ends(Overread);
      }
      flags := d[pos];
      pos := pos + 1;
    }
    if !Remote(id) {
      if pos + dlc > |d| {
        return Ends(Truncated);
      }
      if dlc > MAX_DLEN {
        return Ends(Overrun);
      }
      return Frames(Message(id, len, flags, d[pos..pos + dlc]), pos + dlc);
    }
    return Frames(Message(id, len, flags, []), pos);
  }

  lemma ShownAppend(fs: seq<Frame>, f: Frame)
    ensures ShownAll(fs + [f]) == ShownAll(fs) + [Shown(f)]
  {
  }

  lemma ShownIs(id: nat, len: byte, flags: byte, data: seq<byte>, m: Message)
    requires m.id == id && m.len == len && m.flags == flags
    requires if Remote(id) then m.payload == [] else Dlc(len) <= |data| && m.payload == data[..Dlc(len)]
    ensures Shown(Frame(id, len, flags, data)) == m
  {
  }

  class Port {
    const rx: Queue
    const tx: Queue
    var sequenceNumber: nat
    var received: nat
    /** The datagrams handed to the network. */
    var sent: seq<seq<byte>>

    /** Each queue has its buffer to itself. */
    ghost predicate Valid()
      reads this, rx, tx, rx.frames, tx.frames
    {
      && rx != tx && rx.frames != tx.frames && rx.Valid() && tx.Valid()
      && sequenceNumber < U32_SIZE && received < U32_SIZE
      && forall i :: 0 <= i < tx.frames.Length ==> |tx.frames[i].data| == MAX_DLEN
    }

    constructor (rx: Queue, tx: Queue)
      requires rx != tx && rx.frames != tx.frames && rx.Valid() && tx.Valid()
      requires forall i :: 0 <= i < tx.frames.Length ==> |tx.frames[i].data| == MAX_DLEN
      ensures Valid() && this.rx == rx && this.tx == tx && sequenceNumber == 0 && sent == []
    {
      this.rx, this.tx := rx, tx;
      sequenceNumber, received, sent := 0, 0, [];
    }

    /** The loop of `transmit_udp_frame`: takes frames from the queue as long as they fit behind the header. */
    method Fill(data: array<byte>) returns (pos: nat, frameCount: nat)
      requires rx.Valid() && AllSendable(rx.Frames()) && data.Length == DATAGRAM_BUFFER
      modifies data, rx`head
      ensures rx.Valid() && frameCount < U16_SIZE
      ensures Packing(data[..], pos, old(rx.Frames()), frameCount, rx.Frames())
      ensures rx.Frames() == [] || pos + FRAME_BASE + Dlc(rx.Frames()[0].len) >= DATAGRAM_BUFFER
    {
      hide Contents, ValidRing, Wire, Wires, Fitting, Sendable, Packing, AllSendable;
      ghost var all := rx.Frames();
      pos, frameCount := HEADER_SIZE, 0;
      PackingStart(data[..], all);
      var slot := rx.Peek();
      while slot.Some? && pos + FRAME_BASE + Dlc(rx.frames[slot.value].len) < DATAGRAM_BUFFER
        invariant rx.Valid()
        invariant slot == if rx.Frames() == [] then None else Some(rx.head)
        invariant slot.Some? ==> slot.value < rx.frames.Length && rx.frames[slot.value] == rx.Frames()[0]
        invariant Packing(data[..], pos, all, frameCount, rx.Frames())
        decreases |rx.Frames()|
      {
        ghost var left, was := rx.Frames(), data[..];
        PackingNext(was, pos, all, frameCount, left);
        var frame := rx.Take();
        pos := StoreFrame(data, pos, frame.value);
        PackingStep(was, pos - |Wire(left[0])|, all, frameCount, left, data[..]);
        frameCount := frameCount + 1;
        slot := rx.Peek();
      }
      SmallCount(data[..], pos, all, frameCount, rx.Frames());
    }

    /**
      `transmit_udp_frame`: one datagram with as many frames as fit, in a buffer that may not be
      had. Says whether more frames are waiting.
     */
    method TransmitUdpFrame(granted: bool) returns (more: bool)
      requires Valid() && AllSendable(rx.Frames())
      modifies this`sequenceNumber, this`sent, rx`head
      ensures Valid()
      ensures var fs := old(rx.Frames()); var k := Fitting(HEADER_SIZE, fs);
              if fs == [] || !granted then
                !more && sent == old(sent) && rx.Frames() == fs && sequenceNumber == old(sequenceNumber)
              else
                && AllSendable(fs[..k]) && sent == old(sent) + [Datagram(old(sequenceNumber), fs[..k])]
                && rx.Frames() == fs[k..] && sequenceNumber == (old(sequenceNumber) + 1) % U32_SIZE
                && (more <==> fs[k..] != [])
    {
      hide Contents, ValidRing, Wires, Fitting, Header, Datagram, Sendable, Packing, AllSendable;
      var slot := rx.Peek();
      if slot.None? || !granted {
        return false;
      }
      ghost var all := rx.Frames();
      var data := new byte[DATAGRAM_BUFFER](_ => 0);
      var pos, frameCount := Fill(data);
      ghost var was := data[..];
      Store(data, 0, Header(sequenceNumber, frameCount));
      PackingDone(was, pos, all, frameCount, rx.Frames(), sequenceNumber, data[..]);
      sequenceNumber := (sequenceNumber + 1) % U32_SIZE;
      sent := sent + [data[..pos]];
      slot := rx.Peek();
      return slot.Some?;
    }

    /**
      The last loop of `run_cannelloni`. With buffers for all datagrams it empties the queue;
      without, what was not sent stays queued in order.
     */
    method Drain(granted: nat -> bool)
      requires Valid() && AllSendable(rx.Frames())
      modifies this`sequenceNumber, this`sent, rx`head
      ensures Valid()
      ensures (forall i: nat :: granted(i)) ==>
                rx.Frames() == [] && sent == old(sent) + Datagrams(old(sequenceNumber), old(rx.Frames()))
      ensures |rx.Frames()| <= |old(rx.Frames())|
      ensures rx.Frames() == old(rx.Frames())[|old(rx.Frames())| - |rx.Frames()|..]
      ensures AllSendable(rx.Frames()) && old(sent) <= sent
      ensures old(sent) + Datagrams(old(sequenceNumber), old(rx.Frames())) == sent + Datagrams(sequenceNumber, rx.Frames())
      ensures var n := |sent| - |old(sent)|;
              (forall i: nat :: i < n ==> granted(i)) && (rx.Frames() != [] ==> !granted(n))
    {
      hide Contents, ValidRing, Draining, Datagrams, Datagram, Fitting, AllSendable;
      ghost var all, log, seqNo := rx.Frames(), sent, sequenceNumber;
      DrainingStart(log, seqNo, all);
      var round: nat := 0;
      var more := TransmitUdpFrame(granted(0));
      DrainingStep(log, seqNo, all, log, seqNo, all, sent, sequenceNumber, rx.Frames());
      ghost var n: nat := |sent| - |log|;
      while more
        invariant Valid() && AllSendable(rx.Frames()) && AllSendable(all)
        invariant Draining(log, seqNo, all, sent, sequenceNumber, rx.Frames())
        invariant more ==> rx.Frames() != []
        invariant log <= sent && |sent| == |log| + n && (more ==> n == round + 1)
        invariant forall i: nat :: i < n ==> granted(i)
        invariant !more && rx.Frames() != [] ==> !granted(n)
        invariant (forall i: nat :: granted(i)) && !more ==> rx.Frames() == []
        decreases |rx.Frames()|, more
      {
        round := round + 1;
        ghost var before, s, next := rx.Frames(), sent, sequenceNumber;
        more := TransmitUdpFrame(granted(round));
        DrainingStep(log, seqNo, all, s, next, before, sent, sequenceNumber, rx.Frames());
        n := |sent| - |log|;
      }
      DrainingEnd(log, seqNo, all, sent, sequenceNumber, rx.Frames());
    }

    /** A slot of the transmit queue is taken and filled; the bytes behind the payload stay. */
    method Deliver(id: nat, len: byte, flags: byte, payload: seq<byte>) returns (ok: bool)
      requires Valid() && |payload| <= MAX_DLEN
      requires |payload| == if Remote(id) then 0 else Dlc(len)
      modifies tx`tail, tx.frames
      ensures Valid() && rx.Frames() == old(rx.Frames())
      ensures ok <==> |old(tx.Frames())| < tx.frames.Length - 1
      ensures |tx.Frames()| == |old(tx.Frames())| + if ok then 1 else 0
      ensures ShownAll(tx.Frames()) ==
              if ok then ShownAll(old(tx.Frames())) + [Message(id, len, flags, payload)] else ShownAll(old(tx.Frames()))
    {
      hide Contents, ValidRing, Shown, ShownAll, Remote;
      ghost var before, r, rest := tx.Frames(), tx.Value(), rx.Frames();
      var slot := tx.Put();
      if slot.None? {
        return false;
      }
      var was := tx.frames[slot.value].data;
      var frame := Frame(id, len, flags, payload + was[|payload|..]);
      tx.frames[slot.value] := frame;
      PutAppends(r, frame);
      assert tx.Value() == PutRing(r, frame);
      ShownAppend(before, frame);
      assert frame.data[..|payload|] == payload;
      ShownIs(id, len, flags, frame.data, Message(id, len, flags, payload));
      return true;
    }

    /**
      `handle_cannelloni_frame`: the frames of a datagram go to the transmit queue until it is full
      or the datagram ends badly. Accesses out of bounds end the model of the call; the slot of the
      frame that overruns has been queued by then.
     */
    method HandleDatagram(d: seq<byte>) returns (end: End)
      requires Valid() && |d| <= MAX_UDP
      modifies this`received, tx`tail, tx.frames
      ensures Valid()
      ensures received == if |d| > 5 && d[0] == 2 && d[1] == 0 then (old(received) + 1) % U32_SIZE else old(received)
      ensures |old(tx.Frames())| < tx.frames.Length
      ensures Handled(ParseDatagram(d), ShownAll(old(tx.Frames())), ShownAll(tx.Frames()),
                      tx.frames.Length - 1 - |old(tx.Frames())|, end)
      ensures rx.Frames() == old(rx.Frames())
    {
      hide Contents, ValidRing, ParseFrom, ParseDatagram, ShownAll, FromBe32, FromBe16, Remote, Parsing, Handled, TurnAt;
      HeaderParse(d);
      ContentsBound(tx.Value());
      ghost var before, room := ShownAll(tx.Frames()), tx.frames.Length - 1 - |tx.Frames()|;
      ghost var parse, got := ParseDatagram(d), [];
      assert before == before + got;
      if |d| <= HEADER_SIZE || d[0] != VERSION || d[1] != DATA {
        HandledAll(parse, before, [], Parse([], Complete), room);
        return Complete;
      }
      received := (received + 1) % U32_SIZE;
      var count := FromBe16(d[3..5]);
      var pos: nat := HEADER_SIZE;
      ParsingStart(parse);
      for i := 0 to count
        invariant Valid() && rx.Frames() == old(rx.Frames())
        invariant pos <= |d|
        invariant received == (old(received) + 1) % U32_SIZE
        invariant |got| <= room && |tx.Frames()| == old(|tx.Frames()|) + |got|
        invariant ShownAll(tx.Frames()) == before + got
        invariant Parsing(parse, got, ParseFrom(d, pos, count - i))
      {
        ParseStep(d, pos, count - i);
        ParsingEnds(parse, before, got, ParseFrom(d, pos, count - i), room);
        var turn := ReadFrame(d, pos);
        if turn.Ends? {
          if turn.end == Overrun {
            HandledOverrun(parse, before, got, room);
            ghost var queued := tx.Frames();
            var slot := tx.Put();
            if slot.None? {
              return Refused;
            }
            ShownAppend(queued, tx.frames[slot.value]);
          }
          return turn.end;
        }
        var m := turn.message;
        ParsingStep(parse, got, m, ParseFrom(d, turn.next, count - i - 1));
        GotMore(before, got, m);
        var ok := Deliver(m.id, m.len, m.flags, m.payload);
        if !ok {
          HandledFull(parse, before, got, room);
          return Refused;
        }
        pos := turn.next;
        got := got + [m];
      }
      ParseNone(d, pos);
      HandledAll(parse, before, got, Parse([], Complete), room);
      return Complete;
    }
  }
}
