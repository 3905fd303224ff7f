/**
  The bytes on the wire: what the device sends, byte for byte, and what its parser takes in,
  frames with the FD bit and remote frames included.
 */
module CannelloniFormat {
  import opened Bytes
  import opened FrameQueue
  import opened Cannelloni

  // ----- What is sent

  /** Where frame `i` begins in a datagram. */
  function Place(fs: seq<Frame>, i: nat): (pos: nat)
    requires i <= |fs|
  {
    if i == 0 then 5 else Place(fs, i - 1) + 5 + fs[i - 1].len as int % 128
  }

  lemma {:induction false} PlaceCons(fs: seq<Frame>, i: nat)
    requires 0 < i <= |fs|
    ensures Place(fs, i) == Place(fs[1..], i - 1) + 5 + fs[0].len as int % 128
  {
    if i > 1 {
      PlaceCons(fs, i - 1);
    }
  }

  lemma {:induction false} WiresHold(d: seq<byte>, pos: nat, fs: seq<Frame>, i: nat)
    requires AllSendable(fs) && Holds(d, pos, Wires(fs)) && i < |fs|
    ensures Holds(d, pos + Place(fs, i) - 5, Wire(fs[i]))
    decreases |fs|
  {
    hide Wire, Sendable;
    HoldsSplit(d, pos, Wire(fs[0]), Wires(fs[1..]));
    if i > 0 {
      PlaceCons(fs, i);
      WiresHold(d, pos + |Wire(fs[0])|, fs[1..], i - 1);
    }
  }

  /** The header of a datagram. */
  lemma HeaderBytes(seqNo: nat, fs: seq<Frame>)
    requires AllSendable(fs) && |fs| < U16_SIZE
    ensures var d := Datagram(seqNo, fs);
            && |d| >= 5 && d[0] == 2 && d[1] == 0 && d[2] == seqNo % 256
            && 256 * d[3] as int + d[4] as int == |fs|
  {
    hide Wires;
  }

  /** Every frame in its place: identifier in network order, length byte, data. */
  lemma FrameBytes(seqNo: nat, fs: seq<Frame>, i: nat)
    requires AllSendable(fs) && |fs| < U16_SIZE && i < |fs| && Sendable(fs[i])
    ensures var d, pos, f := Datagram(seqNo, fs), Place(fs, i), fs[i];
            && pos + 5 + f.len as int % 128 <= |d|
            && d[pos] == f.id / 0x100_0000 && d[pos + 1] == f.id / 0x1_0000 % 256
            && d[pos + 2] == f.id / 256 % 256 && d[pos + 3] == f.id % 256
            && d[pos + 4] == f.len
            && d[pos + 5..pos + 5 + f.len as int % 128] == f.data[..f.len as int % 128]
  {
    hide Wires, Header, Be32;
    var d, f := Datagram(seqNo, fs), fs[i];
    assert d[5..5 + |Wires(fs)|] == Wires(fs);
    WiresHold(d, 5, fs, i);
    NetworkOrder(f.id);
    var w, pos := Wire(f), Place(fs, i);
    var got := d[pos..pos + |w|];
    assert got == w;
    assert got[0] == d[pos] && got[1] == d[pos + 1] && got[2] == d[pos + 2] && got[3] == d[pos + 3] && got[4] == d[pos + 4];
    assert got[5..] == d[pos + 5..pos + |w|];
  }

  // ----- What is taken in

  /** A frame as the format has it: flags only behind the FD bit, no payload with the remote bit. */
  predicate Formed(m: Message) {
    && m.id < U32_SIZE && (m.len < 128 ==> m.flags == 0)
    && |m.payload| == (if m.id / 0x4000_0000 % 2 == 1 then 0 else m.len as int % 128) && |m.payload| <= 8
  }

  predicate AllFormed(ms: seq<Message>) {
    forall m :: m in ms ==> Formed(m)
  }

  function Form(m: Message): (bs: seq<byte>)
    requires Formed(m)
    ensures |bs| >= 5
  {
    [m.id / 0x100_0000, m.id / 0x1_0000 % 256, m.id / 256 % 256, m.id % 256, m.len]
    + (if m.len >= 128 then [m.flags] else []) + m.payload
  }

  function Forms(ms: seq<Message>): (bs: seq<byte>)
    requires AllFormed(ms)
  {
    if ms == [] then [] else Form(ms[0]) + Forms(ms[1..])
  }

  /** One frame in the format is read as such. */
  lemma FormRead(d: seq<byte>, pos: nat, m: Message, n: nat)
    requires Formed(m) && Holds(d, pos, Form(m))
    ensures var r := ParseFrom(d, pos + |Form(m)|, n);
            ParseFrom(d, pos, n + 1) == r.(messages := [m] + r.messages)
  {
    hide FromBe32, Be32;
    var w := Form(m);
    var got := d[pos..pos + |w|];
    NetworkOrder(m.id);
    Be32RoundTrip(m.id);
    assert d[pos..pos + 4] == got[..4] == Be32(m.id);
    assert d[pos + 4] == got[4] == m.len;
    var at := pos + if m.len >= 128 then 6 else 5;
    assert m.len >= 128 ==> d[at - 1] == got[5] == m.flags;
    assert d[at..pos + |w|] == got[at - pos..] == m.payload;
  }

  lemma {:induction false} FormsRead(d: seq<byte>, pos: nat, ms: seq<Message>)
    requires AllFormed(ms) && Holds(d, pos, Forms(ms))
    ensures ParseFrom(d, pos, |ms|) == Parse(ms, Complete)
    decreases |ms|
  {
    hide Form, Formed, ParseFrom;
    if ms == [] {
      ParseNone(d, pos);
    } else {
      HoldsSplit(d, pos, Form(ms[0]), Forms(ms[1..]));
      FormRead(d, pos, ms[0], |ms| - 1);
      FormsRead(d, pos + |Form(ms[0])|, ms[1..]);
      assert ms == [ms[0]] + ms[1..];
    }
  }

  /** Version 2, data, a sequence number, and the number of frames. */
  function FormHeader(seqNo: byte, n: nat): (bs: seq<byte>)
    requires n < 0x1_0000
    ensures |bs| == 5
  {
    [2, 0, seqNo, n / 256, n % 256]
  }

  lemma FormHeaderRead(d: seq<byte>, seqNo: byte, n: nat)
    requires n < 0x1_0000 && |d| > 5 && d[..5] == FormHeader(seqNo, n)
    ensures IsData(d) && FromBe16(d[3..5]) == n
  {
    assert d[3..5] == d[..5][3..5] == [n / 256, n % 256];
    assert d[0] == d[..5][0] && d[1] == d[..5][1];
  }

  /**
    The parser understands the whole format: a datagram with any frames in it, whatever its
    sequence number, is read as exactly these frames.
   */
  lemma FormatReads(seqNo: byte, ms: seq<Message>)
    requires AllFormed(ms) && 0 < |ms| < 0x1_0000
    ensures ParseDatagram(FormHeader(seqNo, |ms|) + Forms(ms)) == Parse(ms, Complete)
  {
    hide Form, Formed, ParseFrom, FormHeader, IsData, FromBe16;
    var d := FormHeader(seqNo, |ms|) + Forms(ms);
    assert d[5..5 + |Forms(ms)|] == Forms(ms) && d[..5] == FormHeader(seqNo, |ms|);
    FormHeaderRead(d, seqNo, |ms|);
    FormsRead(d, 5, ms);
  }

  lemma CutHere(d: seq<byte>, pos: nat, n: nat)
    requires n > 0 && |d| < pos + 5
    ensures ParseFrom(d, pos, n) == Parse([], Truncated)
  {
  }

  lemma FormsCons(ms: seq<Message>)
    requires AllFormed(ms)
    ensures ms == [] ==> Forms(ms) == []
    ensures ms != [] ==> Formed(ms[0]) && AllFormed(ms[1..]) && Forms(ms) == Form(ms[0]) + Forms(ms[1..])
  {
    hide Form, Formed;
  }

  lemma {:induction false} FormsThenCut(d: seq<byte>, pos: nat, ms: seq<Message>, n: nat)
    requires AllFormed(ms) && Holds(d, pos, Forms(ms)) && n > |ms| && |d| < pos + |Forms(ms)| + 5
    ensures ParseFrom(d, pos, n) == Parse(ms, Truncated)
    decreases |ms|
  {
    hide Form, Formed, Forms, AllFormed, ParseFrom, Holds;
    FormsCons(ms);
    if ms == [] {
      CutHere(d, pos, n);
    } else {
      HoldsSplit(d, pos, Form(ms[0]), Forms(ms[1..]));
      FormRead(d, pos, ms[0], n - 1);
      FormsThenCut(d, pos + |Form(ms[0])|, ms[1..], n - 1);
      assert ms == [ms[0]] + ms[1..];
    }
  }

  /** A datagram that announces more frames than it holds: the whole ones are taken, and the rest is noticed. */
  lemma CutOffReads(seqNo: byte, ms: seq<Message>, n: nat, tail: seq<byte>)
    requires AllFormed(ms) && |ms| < n < 0x1_0000 && |tail| < 5 && |Forms(ms)| + |tail| > 0
    ensures ParseDatagram(FormHeader(seqNo, n) + (Forms(ms) + tail)) == Parse(ms, Truncated)
  {
    hide Form, Formed, ParseFrom, FormHeader, IsData, FromBe16, Forms;
    var d := FormHeader(seqNo, n) + (Forms(ms) + tail);
    assert d[5..5 + |Forms(ms)|] == Forms(ms) && d[..5] == FormHeader(seqNo, n);
    FormHeaderRead(d, seqNo, n);
    FormsThenCut(d, 5, ms, n);
  }

  /** Short datagrams, other versions and other operations carry no frames. */
  lemma OthersIgnored(d: seq<byte>)
    requires |d| <= 5 || d[0] != 2 || d[1] != 0
    ensures ParseDatagram(d) == Parse([], Complete)
  {
  }
}
