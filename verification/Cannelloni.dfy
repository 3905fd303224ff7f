/**
  The datagrams of the CAN bridge: the packer and the parser of `src/cannelloni.c`, and the byte
  formats of the Linux side (`bridge/cannelloni_bridge.cpp`).
 */
module Cannelloni {
  import opened Bytes
  import opened FrameQueue

  const VERSION: byte := 2
  const DATA: byte := 0
  const HEADER_SIZE: nat := 5
  const FRAME_BASE: nat := 5
  const DATAGRAM_BUFFER: nat := 1200
  const FD_BIT: nat := 0x80
  const RTR_BIT: nat := 0x4000_0000
  const BRIDGE_RX: nat := 1024
  const BRIDGE_TX: nat := 128
  const MAX_UDP: nat := 65507

  /** `canfd_len`. */
  function Dlc(len: byte): (n: nat)
    ensures n < 128
  {
    len % FD_BIT
  }

  predicate Remote(id: nat) {
    id / RTR_BIT % 2 == 1
  }

  /** What a frame says: the payload without the bytes left over in its slot. */
  datatype Message = Message(id: nat, len: byte, flags: byte, payload: seq<byte>)

  function Shown(f: Frame): (m: Message) {
    Message(f.id, f.len, f.flags,
            if Remote(f.id) then [] else if Dlc(f.len) <= |f.data| then f.data[..Dlc(f.len)] else f.data)
  }

  function ShownAll(fs: seq<Frame>): (ms: seq<Message>)
    ensures |ms| == |fs|
    ensures forall i :: 0 <= i < |fs| ==> ms[i] == Shown(fs[i])
  {
    seq(|fs|, i requires 0 <= i < |fs| => Shown(fs[i]))
  }

  /** A frame whose payload lies in its data field. */
  predicate Sendable(f: Frame) {
    f.id < U32_SIZE && |f.data| == MAX_DLEN && Dlc(f.len) <= MAX_DLEN
  }

  /** A frame without the FD bit and its flags; a remote frame without a payload. */
  predicate Classic(f: Frame) {
    Sendable(f) && f.len < FD_BIT && f.flags == 0 && (Remote(f.id) ==> f.len == 0)
  }

  predicate AllSendable(fs: seq<Frame>) {
    forall f :: f in fs ==> Sendable(f)
  }

  predicate AllClassic(fs: seq<Frame>) {
    forall f :: f in fs ==> Classic(f)
  }

  // ----- The sender

  function Wire(f: Frame): (bs: seq<byte>)
    requires Sendable(f)
    ensures |bs| == FRAME_BASE + Dlc(f.len)
  {
    Be32(f.id) + [f.len] + f.data[..Dlc(f.len)]
  }

  function Wires(fs: seq<Frame>): (bs: seq<byte>)
    requires AllSendable(fs)
  {
    if fs == [] then [] else Wire(fs[0]) + Wires(fs[1..])
  }

  function Header(seqNo: nat, count: nat): (bs: seq<byte>)
    requires count < U16_SIZE
    ensures |bs| == HEADER_SIZE
  {
    [VERSION, DATA, seqNo % U8_SIZE] + Be16(count)
  }

  function Datagram(seqNo: nat, fs: seq<Frame>): (bs: seq<byte>)
    requires AllSendable(fs) && |fs| < U16_SIZE
  {
    Header(seqNo, |fs|) + Wires(fs)
  }

  /** How many frames a datagram takes that is filled up to `pos`. */
  function Fitting(pos: nat, fs: seq<Frame>): (k: nat)
    ensures k <= |fs|
    ensures k > 0 ==> pos + FRAME_BASE * k < DATAGRAM_BUFFER
    ensures fs != [] && pos == HEADER_SIZE ==> k > 0
    decreases |fs|
  {
    if fs == [] || pos + FRAME_BASE + Dlc(fs[0].len) >= DATAGRAM_BUFFER then 0
    else 1 + Fitting(pos + FRAME_BASE + Dlc(fs[0].len), fs[1..])
  }

  /** The datagrams that empty a queue, with the sequence numbers counted modulo 2^32. */
  function Datagrams(seqNo: nat, fs: seq<Frame>): (ds: seq<seq<byte>>)
    requires AllSendable(fs)
    decreases |fs|
  {
    if fs == [] then []
    else
      var k := Fitting(HEADER_SIZE, fs);
      [Datagram(seqNo, fs[..k])] + Datagrams((seqNo + 1) % U32_SIZE, fs[k..])
  }

  // ----- The receiver on the device

  /**
    How a call ends: `Overread` and `Overrun` are accesses outside of the packet and of the data
    field, and `Refused` is a frame that the queue has no room for.
   */
  datatype End = Complete | Truncated | Overread | Overrun | Refused

  datatype Parse = Parse(messages: seq<Message>, end: End)

  function ParseFrom(d: seq<byte>, pos: nat, n: nat): (r: Parse)
    decreases n
  {
    if n == 0 then Parse([], Complete)
    else if pos + FRAME_BASE > |d| then Parse([], Truncated)
    else
      var id, len := FromBe32(d[pos..pos + 4]), d[pos + 4];
      var fd := len >= FD_BIT;
      var at := pos + FRAME_BASE + if fd then 1 else 0;
      if at > |d| then Parse([], Overread)
      else
        var flags := if fd then d[at - 1] else 0;
        if Remote(id) then
          var rest := ParseFrom(d, at, n - 1);
          rest.(messages := [Message(id, len, flags, [])] + rest.messages)
        else if at + Dlc(len) > |d| then Parse([], Truncated)
        else if Dlc(len) > MAX_DLEN then Parse([], Overrun)
        else
          var rest := ParseFrom(d, at + Dlc(len), n - 1);
          rest.(messages := [Message(id, len, flags, d[at..at + Dlc(len)])] + rest.messages)
  }

  /** The tests in front of the frames; a datagram that fails them carries none. */
  predicate IsData(d: seq<byte>) {
    |d| > HEADER_SIZE && d[0] == VERSION && d[1] == DATA
  }

  function ParseDatagram(d: seq<byte>): (r: Parse) {
    if IsData(d) then ParseFrom(d, HEADER_SIZE, FromBe16(d[3..5])) else Parse([], Complete)
  }

  /** What a row of datagrams brings. */
  function ParseAll(ds: seq<seq<byte>>): (ms: seq<Message>) {
    if ds == [] then [] else ParseDatagram(ds[0]).messages + ParseAll(ds[1..])
  }

  // ----- Round trip to another device

  /** Where the parts of a frame are found. */
  lemma WireParts(d: seq<byte>, pos: nat, f: Frame)
    requires Sendable(f) && Holds(d, pos, Wire(f))
    ensures var at := pos + FRAME_BASE; at + Dlc(f.len) <= |d|
    ensures FromBe32(d[pos..pos + 4]) == f.id && d[pos + 4] == f.len
    ensures d[pos + FRAME_BASE..pos + FRAME_BASE + Dlc(f.len)] == f.data[..Dlc(f.len)]
  {
    hide FromBe32, Be32;
    var w, dlc := Wire(f), Dlc(f.len);
    var got := d[pos..pos + |w|];
    assert d[pos..pos + 4] == got[..4] == Be32(f.id);
    Be32RoundTrip(f.id);
    assert d[pos + 4] == got[4];
    assert d[pos + 5..pos + 5 + dlc] == got[5..];
  }

  lemma WireReads(d: seq<byte>, pos: nat, f: Frame, n: nat)
    requires Classic(f) && Holds(d, pos, Wire(f))
    ensures var r := ParseFrom(d, pos + |Wire(f)|, n);
            ParseFrom(d, pos, n + 1) == r.(messages := [Shown(f)] + r.messages)
  {
    hide FromBe32, Be32, Remote, Wire;
    WireParts(d, pos, f);
  }

  lemma ParseNone(d: seq<byte>, pos: nat)
    ensures ParseFrom(d, pos, 0) == Parse([], Complete)
  {
  }

  lemma ShownCons(fs: seq<Frame>)
    ensures fs == [] ==> ShownAll(fs) == []
    ensures fs != [] ==> ShownAll(fs) == [Shown(fs[0])] + ShownAll(fs[1..])
  {
  }

  lemma {:induction false} WiresRead(d: seq<byte>, pos: nat, fs: seq<Frame>)
    requires AllClassic(fs) && AllSendable(fs) && Holds(d, pos, Wires(fs))
    ensures ParseFrom(d, pos, |fs|) == Parse(ShownAll(fs), Complete)
    decreases |fs|
  {
    hide Wire, Shown, ShownAll, Classic, Sendable, ParseFrom;
    ShownCons(fs);
    if fs != [] {
      HoldsSplit(d, pos, Wire(fs[0]), Wires(fs[1..]));
      WireReads(d, pos, fs[0], |fs| - 1);
      WiresRead(d, pos + |Wire(fs[0])|, fs[1..]);
    } else {
      ParseNone(d, pos);
    }
  }

  /** A datagram of classic frames parses as exactly these frames. */
  lemma DatagramReads(seqNo: nat, fs: seq<Frame>)
    requires AllClassic(fs) && AllSendable(fs) && 0 < |fs| < U16_SIZE
    ensures ParseDatagram(Datagram(seqNo, fs)) == Parse(ShownAll(fs), Complete)
  {
    hide ParseFrom, Wire, Classic, Sendable;
    var d, h := Datagram(seqNo, fs), Header(seqNo, |fs|);
    assert d == h + Wires(fs) && |Wires(fs)| > 0;
    assert d[3..5] == h[3..5] == Be16(|fs|);
    Be16RoundTrip(|fs|);
    assert d[HEADER_SIZE..HEADER_SIZE + |Wires(fs)|] == Wires(fs);
    WiresRead(d, HEADER_SIZE, fs);
  }

  /** How long the frames of one datagram get: below the limit, and the next one would not be. */
  lemma {:induction false} FittingWires(pos: nat, fs: seq<Frame>)
    requires AllSendable(fs)
    ensures var k := Fitting(pos, fs);
            && AllSendable(fs[..k]) && (k > 0 ==> pos + |Wires(fs[..k])| < 1200)
            && (k < |fs| ==> pos + |Wires(fs[..k])| + 5 + fs[k].len as int % 128 >= 1200)
    decreases |fs|
  {
    hide Wire, Sendable;
    var k := Fitting(pos, fs);
    if k > 0 {
      FittingWires(pos + FRAME_BASE + Dlc(fs[0].len), fs[1..]);
      assert fs[..k][1..] == fs[1..][..k - 1];
      assert k == 1 ==> fs[..k][1..] == [];
    }
  }

  lemma AllConcat(fs: seq<Frame>, k: nat)
    requires k <= |fs|
    ensures ShownAll(fs[..k]) + ShownAll(fs[k..]) == ShownAll(fs)
  {
  }

  /** The datagrams are numbered from `seqNo` on, non-empty and short enough, and carry `fs` in order. */
  lemma {:induction false} DrainReads(seqNo: nat, fs: seq<Frame>)
    requires AllClassic(fs) && AllSendable(fs) && seqNo < U32_SIZE
    ensures ParseAll(Datagrams(seqNo, fs)) == ShownAll(fs)
    ensures forall i :: 0 <= i < |Datagrams(seqNo, fs)| ==> WellMade(Datagrams(seqNo, fs)[i], seqNo + i)
    decreases |fs|
  {
    hide ParseDatagram, Datagram, Fitting, Classic, Sendable, ShownAll, WellMade;
    if fs != [] {
      var k := Fitting(HEADER_SIZE, fs);
      var ds, rest := Datagrams(seqNo, fs), Datagrams((seqNo + 1) % U32_SIZE, fs[k..]);
      DatagramReads(seqNo, fs[..k]);
      DatagramWellMade(seqNo, fs);
      DrainReads((seqNo + 1) % U32_SIZE, fs[k..]);
      AllConcat(fs, k);
      assert ds[0] == Datagram(seqNo, fs[..k]) && ds[1..] == rest;
      forall i | 0 <= i < |ds| ensures WellMade(ds[i], seqNo + i) {
        if i > 0 {
          assert ds[i] == rest[i - 1];
          NumberedAlike(rest[i - 1], seqNo + 1, i - 1);
        }
      }
    } else {
      ShownCons(fs);
    }
  }

  lemma NumberedAlike(d: seq<byte>, a: nat, b: nat)
    requires WellMade(d, a % U32_SIZE + b)
    ensures WellMade(d, a + b)
  {
    hide ParseDatagram;
    WrapKeepsLowByte(a, b);
  }

  /** Under 1200 bytes, at least one frame, the number of frames it parses as, the low byte of the sequence number. */
  ghost predicate WellMade(d: seq<byte>, seqNo: nat) {
    && HEADER_SIZE < |d| < DATAGRAM_BUFFER
    && d[2] == seqNo % U8_SIZE
    && ParseDatagram(d).end == Complete
    && 0 < |ParseDatagram(d).messages| == FromBe16(d[3..5])
  }

  lemma WrapKeepsLowByte(a: nat, b: nat)
    ensures (a % U32_SIZE + b) % U8_SIZE == (a + b) % U8_SIZE
  {
    assert a == a / U32_SIZE * 0x100_0000 * U8_SIZE + a % U32_SIZE;
  }

  lemma DatagramWellMade(seqNo: nat, fs: seq<Frame>)
    requires AllClassic(fs) && AllSendable(fs) && fs != []
    ensures var k := Fitting(HEADER_SIZE, fs);
            AllSendable(fs[..k]) && WellMade(Datagram(seqNo, fs[..k]), seqNo)
  {
    hide ParseDatagram, Fitting, Classic, Sendable, Wire;
    var k := Fitting(HEADER_SIZE, fs);
    FittingWires(HEADER_SIZE, fs);
    DatagramReads(seqNo, fs[..k]);
    var d, h := Datagram(seqNo, fs[..k]), Header(seqNo, k);
    assert d[3..5] == h[3..5] == Be16(k);
    Be16RoundTrip(k);
    assert d[2] == h[2];
    assert |Wires(fs[..k])| > 0;
  }

  /**
    A single frame comes through if and only if it has neither the FD bit nor flags. The sender
    never sends the flags byte that the receiver takes from behind the length of an FD frame; only
    for a remote frame can the first data byte pass for it.
   */
  lemma OneFrameReads(seqNo: nat, f: Frame)
    requires Sendable(f)
    ensures AllSendable([f])
    ensures ParseDatagram(Datagram(seqNo, [f])).messages == [Shown(f)] <==>
            if f.len < FD_BIT then f.flags == 0 else Remote(f.id) && Dlc(f.len) > 0 && f.flags == f.data[0]
  {
    hide FromBe32, Be32, Remote, Wire;
    var d, h, w := Datagram(seqNo, [f]), Header(seqNo, 1), Wire(f);
    assert Wires([f]) == w + Wires([f][1..]) && [f][1..] == [];
    assert d == h + w;
    assert d[3..5] == h[3..5] == Be16(1);
    Be16RoundTrip(1);
    assert d[HEADER_SIZE..HEADER_SIZE + |w|] == w;
    WireParts(d, HEADER_SIZE, f);
    OneFrameParses(d, f);
  }

  lemma OneFrameParses(d: seq<byte>, f: Frame)
    requires Sendable(f) && |d| == HEADER_SIZE + FRAME_BASE + Dlc(f.len)
    requires FromBe32(d[5..9]) == f.id && d[9] == f.len && d[10..10 + Dlc(f.len)] == f.data[..Dlc(f.len)]
    ensures ParseFrom(d, HEADER_SIZE, 1).messages == [Shown(f)] <==>
            if f.len < FD_BIT then f.flags == 0 else Remote(f.id) && Dlc(f.len) > 0 && f.flags == f.data[0]
  {
    hide FromBe32, Remote;
    var at := HEADER_SIZE + FRAME_BASE + if f.len < FD_BIT then 0 else 1;
    ParseNone(d, at);
    ParseNone(d, at + Dlc(f.len));
    if Dlc(f.len) > 0 {
      assert d[10] == d[10..10 + Dlc(f.len)][0] == f.data[0];
    }
    var ms := ParseFrom(d, HEADER_SIZE, 1).messages;
    assert |ms| <= 1;
    assert ms == [Shown(f)] <==> |ms| == 1 && ms[0] == Shown(f);
  }

  /** What is read where a frame is expected is that classic frame if and only if its bytes are there. */
  lemma ReadsAsFrame(d: seq<byte>, pos: nat, f: Frame)
    requires Classic(f) && pos + |Wire(f)| <= |d|
    ensures ParseFrom(d, pos, 1) == Parse([Shown(f)], Complete) <==> Holds(d, pos, Wire(f))
  {
    hide Be32;
    if Holds(d, pos, Wire(f)) {
      WireReads(d, pos, f, 0);
      ParseNone(d, pos + |Wire(f)|);
    }
    hide ParseFrom, Remote, FromBe32;
    if ParseFrom(d, pos, 1) == Parse([Shown(f)], Complete) {
      FrameFound(d, pos, f);
      Be32Unique(d[pos..pos + 4]);
      assert d[pos..pos + |Wire(f)|] == d[pos..pos + 4] + [d[pos + 4]] + d[pos + 5..pos + |Wire(f)|];
    }
  }

  lemma FrameFound(d: seq<byte>, pos: nat, f: Frame)
    requires Classic(f) && pos + |Wire(f)| <= |d| && ParseFrom(d, pos, 1) == Parse([Shown(f)], Complete)
    ensures FromBe32(d[pos..pos + 4]) == f.id && d[pos + 4] == f.len
    ensures d[pos + 5..pos + |Wire(f)|] == f.data[..Dlc(f.len)]
  {
    hide Be32, FromBe32, Remote;
    var m := ParseFrom(d, pos, 1).messages[0];
    assert m == Shown(f);
  }

  lemma Be32Unique(s: seq<byte>)
    requires |s| == 4
    ensures Be32(FromBe32(s)) == s
  {
    var hi, lo := FromBe16(s[..2]), FromBe16(s[2..]);
    assert FromBe32(s) / 0x1_0000 == hi && FromBe32(s) % 0x1_0000 == lo;
    assert Be16(hi) == s[..2] && Be16(lo) == s[2..];
  }

  /**
    A remote frame with a length in front of a classic frame. The sender writes the data bytes of
    the remote frame and the receiver does not skip them, so the two come through if and only if
    the bytes from there on happen to begin like the second frame; always without a length.
   */
  lemma RemoteInFront(seqNo: nat, r: Frame, c: Frame)
    requires Sendable(r) && Remote(r.id) && r.len < FD_BIT && r.flags == 0 && Classic(c)
    ensures AllSendable([r, c])
    ensures ParseDatagram(Datagram(seqNo, [r, c])) == Parse(ShownAll([r, c]), Complete)
        <==> Wire(c) <= r.data[..r.len] + Wire(c)
  {
    hide Be32, FromBe32, Be16, Remote;
    var data := r.data[..r.len];
    var d := Datagram(seqNo, [r, c]);
    TwoWires(seqNo, r, c);
    var pos := HEADER_SIZE + FRAME_BASE;
    WireParts(d, HEADER_SIZE, r);
    RemoteReads(d, r, c);
    ReadsAsFrame(d, pos, c);
    assert d[pos..] == data + Wire(c);
    assert Wire(c) <= d[pos..] <==> Holds(d, pos, Wire(c)) by {
      assert d[pos..pos + |Wire(c)|] == d[pos..][..|Wire(c)|];
    }
  }

  lemma TwoWires(seqNo: nat, r: Frame, c: Frame)
    requires Sendable(r) && r.len < FD_BIT && Sendable(c) && AllSendable([r, c])
    ensures var d := Datagram(seqNo, [r, c]);
            && IsData(d) && FromBe16(d[3..5]) == 2 && Holds(d, HEADER_SIZE, Wire(r))
            && |d| == HEADER_SIZE + |Wire(r)| + |Wire(c)|
            && d[HEADER_SIZE + FRAME_BASE..] == r.data[..r.len] + Wire(c)
  {
    hide Be32;
    var d, h := Datagram(seqNo, [r, c]), Header(seqNo, 2);
    assert [r, c][1..] == [c];
    OneWire(c);
    assert Wires([r, c]) == Wire(r) + Wire(c);
    assert d == h + (Wire(r) + Wire(c));
    assert d[3..5] == h[3..5] == Be16(2);
    Be16RoundTrip(2);
    assert d[HEADER_SIZE..HEADER_SIZE + |Wire(r)|] == Wire(r);
    assert d[HEADER_SIZE + FRAME_BASE..] == Wire(r)[FRAME_BASE..] + Wire(c);
  }

  lemma OneWire(f: Frame)
    requires Sendable(f)
    ensures AllSendable([f]) && Wires([f]) == Wire(f)
  {
    hide Wire;
    assert [f][1..] == [];
  }

  /** Behind a remote frame the receiver goes on where the identifier and the length end. */
  lemma RemoteReads(d: seq<byte>, r: Frame, c: Frame)
    requires IsData(d) && FromBe16(d[3..5]) == 2 && HEADER_SIZE + FRAME_BASE <= |d|
    requires Sendable(r) && Remote(r.id) && r.len < FD_BIT && r.flags == 0
    requires FromBe32(d[5..9]) == r.id && d[9] == r.len
    ensures ParseDatagram(d) == Parse(ShownAll([r, c]), Complete)
        <==> ParseFrom(d, HEADER_SIZE + FRAME_BASE, 1) == Parse([Shown(c)], Complete)
  {
    hide FromBe32, FromBe16, Remote, Shown;
    var rest := ParseFrom(d, HEADER_SIZE + FRAME_BASE, 1);
    assert Shown(r) == Message(r.id, r.len, 0, []) by { ShownRemote(r); }
    assert ParseDatagram(d) == rest.(messages := [Shown(r)] + rest.messages);
    assert ShownAll([r, c]) == [Shown(r)] + [Shown(c)];
    assert rest.messages == ([Shown(r)] + rest.messages)[1..];
    assert [Shown(c)] == ([Shown(r)] + [Shown(c)])[1..];
  }

  lemma ShownRemote(r: Frame)
    requires Remote(r.id)
    ensures Shown(r) == Message(r.id, r.len, r.flags, [])
  {
  }

  /** A remote frame with one data byte shifts the frame behind it by one byte. */
  lemma RemoteShifts()
    ensures var r, c := Frame(RTR_BIT, 1, 0, seq(MAX_DLEN, _ => 0)), Frame(0x1234_5678, 0, 0, seq(MAX_DLEN, _ => 0));
            && Sendable(r) && Remote(r.id) && Classic(c) && AllSendable([r, c])
            && ParseDatagram(Datagram(0, [r, c])) != Parse(ShownAll([r, c]), Complete)
  {
    var r, c := Frame(RTR_BIT, 1, 0, seq(MAX_DLEN, _ => 0)), Frame(0x1234_5678, 0, 0, seq(MAX_DLEN, _ => 0));
    RemoteInFront(0, r, c);
    assert Wire(c)[0] == 0x12 && (r.data[..1] + Wire(c))[0] == 0;
  }

  // ----- Payloads that do not fit

  /** Where the frame behind the one at `pos` begins; behind the end for a frame that is cut off. */
  function NextFrame(d: seq<byte>, pos: nat): (n: nat)
    ensures n > pos || n > |d|
  {
    if pos + FRAME_BASE > |d| then |d| + 1
    else
      pos + FRAME_BASE + (if d[pos + 4] >= FD_BIT then 1 else 0)
      + if Remote(FromBe32(d[pos..pos + 4])) then 0 else Dlc(d[pos + 4])
  }

  /** The `i`-th frame boundary, going by the length bytes from `pos` on. */
  function Boundary(d: seq<byte>, pos: nat, i: nat): (n: nat)
    decreases i
  {
    if i == 0 then pos else Boundary(d, NextFrame(d, pos), i - 1)
  }

  /** A whole data frame at `pos` whose length byte says more than a data field holds. */
  predicate TooLong(d: seq<byte>, pos: nat) {
    && pos + FRAME_BASE <= |d| && NextFrame(d, pos) <= |d|
    && !Remote(FromBe32(d[pos..pos + 4])) && Dlc(d[pos + 4]) > MAX_DLEN
  }

  lemma {:induction false} BehindTheEnd(d: seq<byte>, pos: nat, i: nat)
    requires pos > |d|
    ensures !TooLong(d, Boundary(d, pos, i))
  {
    if i > 0 {
      BehindTheEnd(d, NextFrame(d, pos), i - 1);
    }
  }

  /** One turn of the parser, by the boundaries. */
  lemma OverrunTurn(d: seq<byte>, pos: nat, n: nat)
    requires n > 0
    ensures TooLong(d, pos) ==> ParseFrom(d, pos, n).end == Overrun
    ensures !TooLong(d, pos) ==>
              if NextFrame(d, pos) > |d| then ParseFrom(d, pos, n).end != Overrun
              else ParseFrom(d, pos, n).end == ParseFrom(d, NextFrame(d, pos), n - 1).end
  {
    hide FromBe32, Remote;
  }

  /** One of the first `n` frames from `pos` on is too long. */
  predicate SomeTooLong(d: seq<byte>, pos: nat, n: nat) {
    exists i: nat :: i < n && TooLong(d, Boundary(d, pos, i))
  }

  lemma SomeTooLongCons(d: seq<byte>, pos: nat, n: nat)
    requires n > 0
    ensures SomeTooLong(d, pos, n) <==> TooLong(d, pos) || SomeTooLong(d, NextFrame(d, pos), n - 1)
  {
    hide TooLong, NextFrame;
    var next := NextFrame(d, pos);
    if SomeTooLong(d, pos, n) {
      var i: nat :| i < n && TooLong(d, Boundary(d, pos, i));
      if i > 0 {
        assert TooLong(d, Boundary(d, next, i - 1));
      }
    }
    if TooLong(d, pos) {
      assert TooLong(d, Boundary(d, pos, 0));
    }
    if SomeTooLong(d, next, n - 1) {
      var i: nat :| i < n - 1 && TooLong(d, Boundary(d, next, i));
      assert TooLong(d, Boundary(d, pos, i + 1));
    }
  }

  lemma {:induction false} OverrunFrom(d: seq<byte>, pos: nat, n: nat)
    ensures ParseFrom(d, pos, n).end == Overrun <==> SomeTooLong(d, pos, n)
    decreases n
  {
    hide ParseFrom, TooLong, NextFrame, Boundary;
    if n == 0 {
      ParseNone(d, pos);
    } else {
      var next := NextFrame(d, pos);
      OverrunTurn(d, pos, n);
      SomeTooLongCons(d, pos, n);
      OverrunFrom(d, next, n - 1);
      if next > |d| {
        forall i: nat | i < n - 1 ensures !TooLong(d, Boundary(d, next, i)) {
          BehindTheEnd(d, next, i);
        }
      }
    }
  }

  /**
    The parser copies a payload over the end of the eight-byte data field if and only if one of
    the announced frames lies whole inside the datagram, is no remote frame, and has a length byte
    of more than eight, the FD bit aside.
   */
  lemma OverrunExact(d: seq<byte>)
    ensures ParseDatagram(d).end == Overrun <==>
            IsData(d) && SomeTooLong(d, HEADER_SIZE, FromBe16(d[3..5]))
  {
    hide ParseFrom, SomeTooLong;
    if IsData(d) {
      OverrunFrom(d, HEADER_SIZE, FromBe16(d[3..5]));
    }
  }

  /** A datagram of nineteen bytes that does so: one frame, identifier 1, of nine bytes. */
  lemma OverrunExample()
    ensures ParseDatagram(Header(0, 1) + (Be32(1) + [9] + seq(9, _ => 0))).end == Overrun
  {
    hide Be32, FromBe32, Be16, FromBe16, Header, ParseFrom;
    var h, w := Header(0, 1), Be32(1) + [9] + seq<byte>(9, _ => 0);
    var d := h + w;
    HeaderParts(0, 1);
    assert d[0] == h[0] && d[1] == h[1] && d[3..5] == h[3..5];
    assert d[5..9] == w[..4] == Be32(1) && d[9] == w[4] == 9;
    Be16RoundTrip(1);
    Be32RoundTrip(1);
    OverrunTurn(d, HEADER_SIZE, 1);
    assert !Remote(1);
  }

  lemma HeaderParts(seqNo: nat, count: nat)
    requires count < U16_SIZE
    ensures var h := Header(seqNo, count); h[0] == VERSION && h[1] == DATA && h[3..5] == Be16(count)
  {
  }

  // ----- The Linux side

  /**
    `UDPEndpoint::read` over the bytes received: frames until the bytes run out, whatever the
    count says. None when it reads bytes that were not received or overruns a frame's data.
   */
  function BridgeFrames(b: seq<byte>, pos: nat): (r: Option<seq<Message>>)
    decreases |b| - pos
  {
    if pos >= |b| then Some([])
    else if pos + FRAME_BASE > |b| then None
    else
      var len := b[pos + 4];
      var next := pos + FRAME_BASE + len as int;
      if len as int > MAX_DLEN || next > |b| then None
      else
        var rest := BridgeFrames(b, next);
        if rest.None? then None
        else Some([Message(FromBe32(b[pos..pos + 4]), len, 0, b[pos + 5..next])] + rest.value)
  }

  /** A datagram longer than the buffer is cut. */
  function BridgeRead(d: seq<byte>): (r: Option<seq<Message>>) {
    BridgeFrames(if |d| <= BRIDGE_RX then d else d[..BRIDGE_RX], HEADER_SIZE)
  }

  lemma BridgeWireReads(b: seq<byte>, pos: nat, f: Frame)
    requires Classic(f) && Holds(b, pos, Wire(f)) && BridgeFrames(b, pos + |Wire(f)|).Some?
    ensures BridgeFrames(b, pos) == Some([Shown(f)] + BridgeFrames(b, pos + |Wire(f)|).value)
  {
    hide FromBe32, Be32, Remote, Wire;
    WireParts(b, pos, f);
  }

  lemma {:induction false} BridgeWiresRead(b: seq<byte>, pos: nat, fs: seq<Frame>)
    requires AllClassic(fs) && AllSendable(fs) && Holds(b, pos, Wires(fs)) && |b| == pos + |Wires(fs)|
    ensures BridgeFrames(b, pos) == Some(ShownAll(fs))
    decreases |fs|
  {
    hide Wire, Shown, ShownAll, Classic, Sendable, BridgeFrames;
    ShownCons(fs);
    if fs != [] {
      HoldsSplit(b, pos, Wire(fs[0]), Wires(fs[1..]));
      BridgeWiresRead(b, pos + |Wire(fs[0])|, fs[1..]);
      BridgeWireReads(b, pos, fs[0]);
    } else {
      BridgeNone(b);
    }
  }

  lemma BridgeNone(b: seq<byte>)
    ensures BridgeFrames(b, |b|) == Some([])
  {
  }

  /** The frames read account for every byte of the buffer. */
  lemma {:induction false} BridgeSize(b: seq<byte>, pos: nat, fs: seq<Frame>)
    requires AllSendable(fs) && AllClassic(fs) && pos <= |b| && BridgeFrames(b, pos) == Some(ShownAll(fs))
    ensures |b| == pos + |Wires(fs)|
    decreases |b| - pos
  {
    hide FromBe32, Remote;
    if fs == [] {
      assert |ShownAll(fs)| == 0;
    } else {
      assert |ShownAll(fs)| == |fs| && ShownAll(fs)[0] == Shown(fs[0]);
      var next := pos + FRAME_BASE + b[pos + 4] as int;
      assert ShownAll(fs)[1..] == ShownAll(fs[1..]);
      assert Some([ShownAll(fs)[0]] + BridgeFrames(b, next).value) == Some(ShownAll(fs));
      assert BridgeFrames(b, next).value == ([ShownAll(fs)[0]] + BridgeFrames(b, next).value)[1..];
      BridgeSize(b, next, fs[1..]);
    }
  }

  /** The Linux side reads a device's datagram as the frames in it if and only if it fits its buffer. */
  lemma BridgeReadsDatagram(seqNo: nat, fs: seq<Frame>)
    requires AllClassic(fs) && AllSendable(fs) && |fs| < U16_SIZE
    ensures BridgeRead(Datagram(seqNo, fs)) == Some(ShownAll(fs)) <==> |Datagram(seqNo, fs)| <= 1024
  {
    hide BridgeFrames, Wire, Classic, Sendable, Shown;
    var d := Datagram(seqNo, fs);
    if |d| <= BRIDGE_RX {
      assert d[HEADER_SIZE..HEADER_SIZE + |Wires(fs)|] == Wires(fs);
      BridgeWiresRead(d, HEADER_SIZE, fs);
    } else if BridgeRead(d) == Some(ShownAll(fs)) {
      BridgeSize(d[..BRIDGE_RX], HEADER_SIZE, fs);
    }
  }

  /** `UDPEndpoint::write`: all frames behind a count of one; None when they overrun its buffer. */
  function BridgeWrite(fs: seq<Frame>): (d: Option<seq<byte>>)
    requires AllSendable(fs)
  {
    if HEADER_SIZE + |Wires(fs)| > BRIDGE_TX then None else Some(Header(0, 1) + Wires(fs))
  }

  /** The Linux side has room for 128 bytes, header included. */
  lemma BridgeWriteFits(fs: seq<Frame>)
    requires AllSendable(fs)
    ensures BridgeWrite(fs).Some? <==> |Wires(fs)| <= 123
    ensures BridgeWrite(fs).Some? ==> BridgeWrite(fs).value == [2, 0, 0, 0, 1] + Wires(fs)
  {
    hide Wires;
  }

  /** A device takes the first frame of what the Linux side writes and drops the others. */
  lemma BridgeWriteReads(fs: seq<Frame>)
    requires AllClassic(fs) && AllSendable(fs) && BridgeWrite(fs).Some?
    ensures ParseDatagram(BridgeWrite(fs).value).messages == ShownAll(fs[..if fs == [] then 0 else 1])
    ensures ParseDatagram(BridgeWrite(fs).value).messages == ShownAll(fs) <==> |fs| <= 1
  {
    hide ParseFrom, Wire, Classic, Sendable, Shown;
    var d, h := BridgeWrite(fs).value, Header(0, 1);
    if fs == [] {
      assert ShownAll(fs[..0]) == [];
    } else {
      assert d == h + Wires(fs);
      assert d[3..5] == h[3..5] == Be16(1);
      Be16RoundTrip(1);
      assert d[HEADER_SIZE..HEADER_SIZE + |Wires(fs)|] == Wires(fs);
      HoldsSplit(d, HEADER_SIZE, Wire(fs[0]), Wires(fs[1..]));
      WireReads(d, HEADER_SIZE, fs[0], 0);
      ParseNone(d, HEADER_SIZE + |Wire(fs[0])|);
      assert ShownAll(fs[..1]) == [Shown(fs[0])];
    }
  }
}
