/** The Linux side's UDP endpoint (`UDPEndpoint` in `bridge/cannelloni_bridge.cpp`), its loops over a datagram. */
module BridgeEndpoint {
  import opened Bytes
  import opened FrameQueue
  import opened Cannelloni
  import opened CanPort

  /** The messages read so far and those of the rest make up the datagram. */
  ghost predicate Reading(whole: Option<seq<Message>>, got: seq<Message>, rest: Option<seq<Message>>) {
    if rest.None? then whole.None? else whole == Some(got + rest.value)
  }

  lemma ReadingStep(b: seq<byte>, pos: nat, whole: Option<seq<Message>>, got: seq<Message>)
    requires pos < |b| && Reading(whole, got, BridgeFrames(b, pos))
    ensures pos + FRAME_BASE > |b| ==> whole.None?
    ensures pos + FRAME_BASE <= |b| ==>
              var len := b[pos + 4];
              var next := pos + FRAME_BASE + len as int;
              if len as int > MAX_DLEN || next > |b| then whole.None?
              else
                var m := Message(FromBe32(b[pos..pos + 4]), len, 0, b[pos + 5..next]);
                Reading(whole, got + [m], BridgeFrames(b, next))
  {
    hide FromBe32;
    if pos + FRAME_BASE <= |b| {
      var len := b[pos + 4];
      var next := pos + FRAME_BASE + len as int;
      if len as int <= MAX_DLEN && next <= |b| && BridgeFrames(b, next).Some? {
        var m := Message(FromBe32(b[pos..pos + 4]), len, 0, b[pos + 5..next]);
        assert got + ([m] + BridgeFrames(b, next).value) == (got + [m]) + BridgeFrames(b, next).value;
      }
    }
  }

  lemma ReadingEnds(b: seq<byte>, pos: nat, whole: Option<seq<Message>>, got: seq<Message>)
    requires pos >= |b| && Reading(whole, got, BridgeFrames(b, pos))
    ensures whole == Some(got)
  {
    assert got + [] == got;
  }

  /**
    `read`, on what the socket delivered (nothing delivered ends the program): the frames, and how
    many the count announced beyond them, modulo 2^16. The header is not looked at otherwise.
   */
  method Read(d: seq<byte>) returns (frames: Option<seq<Message>>, missing: nat)
    requires |d| > 0
    ensures frames == BridgeRead(d)
    ensures frames.Some? && |d| >= HEADER_SIZE ==>
              missing < U16_SIZE && (missing + |frames.value|) % U16_SIZE == FromBe16(d[3..5])
  {
    hide FromBe16, FromBe32, BridgeFrames, Reading;
    var buffer := if |d| <= BRIDGE_RX then d else d[..BRIDGE_RX];
    var count: nat := if |d| >= HEADER_SIZE then FromBe16(d[3..5]) else 0;
    ghost var announced := count;
    var got := [];
    var pos: nat := HEADER_SIZE;
    ReadingStart(buffer);
    while pos < |buffer|
      invariant Reading(BridgeRead(d), got, BridgeFrames(buffer, pos))
      invariant count < U16_SIZE && (count + |got|) % U16_SIZE == announced
      decreases |buffer| - pos
    {
      ReadingStep(buffer, pos, BridgeRead(d), got);
      if pos + FRAME_BASE > |buffer| {
        return None, count;
      }
      var id, len := FromBe32(buffer[pos..pos + 4]), buffer[pos + 4];
      pos := pos + 5;
      if len as int > MAX_DLEN || pos + len as int > |buffer| {
        return None, count;
      }
      var data: seq<byte> := [];
      ghost var start := pos;
      for i := 0 to len
        invariant pos == start + i && data == buffer[start..pos]
      {
        data := data + [buffer[pos]];
        pos := pos + 1;
      }
      got := got + [Message(id, len, 0, data)];
      count := if count == 0 then U16_SIZE - 1 else count - 1;
    }
    ReadingEnds(buffer, pos, BridgeRead(d), got);
    return Some(got), count;
  }

  lemma ReadingStart(b: seq<byte>)
    ensures Reading(BridgeFrames(b, HEADER_SIZE), [], BridgeFrames(b, HEADER_SIZE))
  {
    var r := BridgeFrames(b, HEADER_SIZE);
    assert r.Some? ==> [] + r.value == r.value;
  }

  /** `write`: the header with a count of one, then every frame, in a buffer of 128 bytes. */
  method Write(frames: seq<Frame>) returns (sent: Option<seq<byte>>)
    requires AllSendable(frames)
    ensures sent == BridgeWrite(frames)
  {
    hide Wire, Sendable, Be32, Wires, AllSendable;
    var tx := new byte[BRIDGE_TX](_ => 0);
    var pos: nat := HEADER_SIZE;
    tx[0], tx[1], tx[2], tx[3], tx[4] := VERSION, DATA, 0, 0, 1;
    assert tx[..pos] == Header(0, 1);
    NoWires(frames[..0]);
    for i := 0 to |frames|
      invariant pos <= BRIDGE_TX && AllSendable(frames[..i])
      invariant tx[..pos] == Header(0, 1) + Wires(frames[..i])
    {
      var frame := frames[i];
      assert frames[..i + 1] == frames[..i] + [frame];
      SendableAt(frames, i);
      WiresAppend(frames[..i], frame);
      if pos + FRAME_BASE + Dlc(frame.len) > BRIDGE_TX {
        WiresPrefix(frames, i + 1);
        return None;
      }
      ghost var was := tx[..];
      ghost var start := pos;
      pos := StoreFrame(tx, pos, frame);
      assert tx[..pos] == tx[..start] + tx[start..pos];
    }
    assert frames[..|frames|] == frames;
    return Some(tx[..pos]);
  }

  lemma SendableAt(fs: seq<Frame>, i: nat)
    requires AllSendable(fs) && i < |fs|
    ensures Sendable(fs[i])
  {
  }

  lemma {:induction false} WiresPrefix(fs: seq<Frame>, k: nat)
    requires AllSendable(fs) && k <= |fs|
    ensures AllSendable(fs[..k]) && |Wires(fs[..k])| <= |Wires(fs)|
  {
    hide Wire, Sendable, Wires;
    if k > 0 {
      assert fs[..k][1..] == fs[1..][..k - 1];
      WiresPrefix(fs[1..], k - 1);
      WiresCons(fs);
      WiresCons(fs[..k]);
    } else {
      NoWires(fs[..k]);
    }
  }
}
