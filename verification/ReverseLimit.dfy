/**
  How many addresses a host may have: with six every message reads back, with seven the reverse
  lookup names can follow each other like stairs, each compressed against the one before it, and
  the seventh takes one jump more than the reader follows.
 */
module ReverseLimit {
  import opened Bytes
  import opened DomainNames
  import opened NameReader
  import opened NameWriter
  import opened NameRoundTrip
  import opened NameRuns
  import opened NameLists
  import opened Records
  import opened RecordRuns
  import opened SelfParse
  import opened Packets
  import opened Families
  import opened Outpackets
  import opened SentPackets

  /** The packet buffer of a responder with several services. */
  const OUTPUT_PACKET_SIZE: nat := 1450

  // ----- The stairs

  /** An address that is zero but for one bit in octet `i`. */
  function StairOctets(i: nat): (octets: seq<byte>)
    ensures |octets| == 16
  {
    seq(16, n => if n == i then 1 else 0)
  }

  function Stair(i: nat): (ls: seq<Label>) { ReverseName(StairOctets(i)) }

  /** Label `q` of a reverse name is a nibble of octet `|octets| - 1 - q / 2`. */
  lemma {:induction false} NibbleAt(octets: seq<byte>, q: nat)
    requires q < 2 * |octets|
    ensures var b := octets[|octets| - 1 - q / 2];
            Nibbles(octets)[q] == [HexDigit(if q % 2 == 0 then b % 16 else b / 16)]
  {
    if q >= 2 {
      NibbleAt(octets[..|octets| - 1], q - 2);
    }
  }

  /** The stairs differ from each other in two places only. */
  lemma StairAt(i: nat, q: nat)
    requires i < 16 && q < 34
    ensures |Stair(i)| == 34
    ensures Stair(i)[q] == if q == 30 - 2 * i then [49] else if q < 32 then [48] else if q == 32 then IP6 else ARPA
  {
    if q < 32 {
      NibbleAt(StairOctets(i), q);
    }
  }

  /** Two stairs have a common tail exactly behind the later difference. */
  lemma CommonStairs(i: nat, t: nat, b: nat, p: nat)
    requires t < i < 16 && b < 34 && p < 34
    ensures |Stair(i)| == |Stair(t)| == 34
    ensures Stair(t)[b..] == Stair(i)[p..] <==> b == p && p > 30 - 2 * t
  {
    hide Stair;
    StairAt(i, 0);
    StairAt(t, 0);
    var x, y := Stair(t)[b..], Stair(i)[p..];
    if b == p && p > 30 - 2 * t {
      forall n | 0 <= n < 34 - p ensures x[n] == y[n] {
        StairAt(i, p + n);
        StairAt(t, p + n);
      }
    } else if b == p {
      var n := 30 - 2 * t - p;
      StairAt(i, 30 - 2 * t);
      StairAt(t, 30 - 2 * t);
      assert x[n] == [49] && y[n] == [48];
    } else {
      assert |x| != |y|;
    }
  }

  function StairAddress(i: int): (a: Address)
    ensures |a.octets| == 16
  {
    Address(true, StairOctets(if 0 <= i < 7 then i else 0))
  }

  /** A host with these addresses, and the message that looks up the first seven. */
  function StairHost(n: nat): (h: Host)
    ensures HostOk(h) && |h.addresses| == n && h.name == [97] && h.services == []
    ensures forall i :: 0 <= i < n ==> h.addresses[i] == StairAddress(i)
  {
    Host([97], [], seq(n, i => StairAddress(i)))
  }

  function StairMsg(): Msg {
    Msg(0, 0x84, true, false, false, [], false, true, 127, [])
  }

  function StairRecord(i: nat): (r: Record)
    requires i < 7
    ensures RecordOk(r)
  {
    HostPtr(StairHost(0), StairMsg(), StairAddress(i))
  }

  /** The records from the `i`-th on. */
  function StairRecords(i: nat): (rs: seq<Record>)
    requires i <= 7
    ensures AllOk(rs)
    decreases 7 - i
  {
    if i == 7 then [] else [StairRecord(i)] + StairRecords(i + 1)
  }

  /** A mask of `c` ones. */
  function Ones(c: nat): (mask: nat) { if c == 0 then 0 else 2 * Ones(c - 1) + 1 }

  lemma {:induction false} OnesFit(c: nat, n: nat)
    requires c <= n
    ensures MaskFits(Ones(c), n)
  {
    if c > 0 {
      OnesFit(c - 1, n - 1);
      assert Ones(c) / 2 == Ones(c - 1);
    }
  }

  lemma {:induction false} StairReverses(n: nat, i: nat)
    requires i <= 7 <= n
    ensures MaskFits(Ones(7 - i), n - i)
    ensures Reverses(StairHost(n), StairMsg(), Ones(7 - i), i) == StairRecords(i)
    decreases 7 - i
  {
    hide StairHost, HostPtr, Ones, MaskFits, Reverses, StairRecords, StairRecord;
    OnesFit(7 - i, n - i);
    if i < 7 {
      OnesStep(7 - i);
      StairReverses(n, i + 1);
      SameRecord(n, i);
      ReversesOn(StairHost(n), StairMsg(), Ones(7 - i), i);
      StairsOn(i);
    } else {
      NoOnes();
      ReversesOver(StairHost(n), StairMsg(), i);
    }
  }

  lemma ReversesOn(h: Host, m: Msg, mask: nat, i: nat)
    requires HostOk(h) && i < |h.addresses| && MaskFits(mask, |h.addresses| - i) && mask % 2 == 1
    ensures MaskFits(mask / 2, |h.addresses| - (i + 1))
    ensures Reverses(h, m, mask, i) == [HostPtr(h, m, h.addresses[i])] + Reverses(h, m, mask / 2, i + 1)
  {
    hide HostPtr;
  }

  lemma ReversesOver(h: Host, m: Msg, i: nat)
    requires HostOk(h) && i <= |h.addresses| && MaskFits(0, |h.addresses| - i)
    ensures Reverses(h, m, 0, i) == [] == StairRecords(7)
  {
  }

  lemma StairsOn(i: nat)
    requires i < 7
    ensures StairRecords(i) == [StairRecord(i)] + StairRecords(i + 1)
  {
    hide StairRecord;
  }

  lemma OnesStep(c: nat)
    requires c > 0
    ensures Ones(c) % 2 == 1 && Ones(c) / 2 == Ones(c - 1) && Ones(c) != 0
  {
  }

  lemma NoOnes()
    ensures Ones(0) == 0
  {
  }

  lemma SameRecord(n: nat, i: nat)
    requires i < 7 <= n
    ensures HostPtr(StairHost(n), StairMsg(), StairHost(n).addresses[i]) == StairRecord(i)
  {
    hide ReverseName;
    assert HostName(StairHost(n)) == HostName(StairHost(0));
  }

  lemma StairPlan(n: nat)
    requires n >= 7
    ensures MsgOk(StairHost(n), StairMsg())
    ensures PlanOf(StairHost(n), StairMsg()) == Plan([], StairRecords(0))
  {
    hide Reverses, StairRecords, StairRecord;
    var h, m := StairHost(n), StairMsg();
    assert Ones(7) == 127 by { OnesSeven(); }
    StairReverses(n, 0);
    assert MsgOk(h, m);
    assert Selected(h, m) == StairRecords(0);
    assert Additional(h, m, 0) == [];
    assert Selected(h, m) + Additional(h, m, 0) == StairRecords(0);
    assert ProbeQuestions(h, m) == [];
  }

  lemma OnesSeven()
    ensures Ones(7) == 127
  {
    assert Ones(3) == 7;
    assert Ones(5) == 31;
  }

  // ----- One record

  /** Fields in front of a name. */
  lemma {:induction false} RawsThenName(k: Pkt, l: seq<Entry>, raws: seq<Op>, op: Op) returns (k': Pkt)
    requires Lists(k, l) && (forall n :: 0 <= n < |raws| ==> raws[n].Raw?)
    requires op.Name? && |Encode(op.ls)| < DOMAIN_MAXLEN
    requires WellSized(k) && Writable(raws + [op]) && Run(k, raws + [op]).status == Ok && AllSafe(k, raws + [op])
    ensures Lists(k', l) && WellSized(k') && Safe(k', op.ls, op.skip) && Run(k, raws + [op]) == Apply(k', op)
    decreases |raws|
  {
    hide Encode, Apply, Safe, Lists, Run, AllSafe, Writable, WellSized;
    var ops := raws + [op];
    AllSafeStep(k, ops);
    if raws == [] {
      k' := k;
      assert ops == [op];
      NoOps(Apply(k, op).pkt, ops[1..]);
    } else {
      assert ops[0] == raws[0] && ops[1..] == raws[1..] + [op];
      RawListed(k, l, raws[0]);
      k' := RawsThenName(Apply(k, raws[0]).pkt, l, raws[1..], op);
    }
  }

  lemma RawListed(k: Pkt, l: seq<Entry>, op: Op)
    requires op.Raw? && Lists(k, l) && WellSized(k) && Apply(k, op).status == Ok
    ensures Lists(Apply(k, op).pkt, l)
  {
    hide Lists, TakeRaw;
    RawKeepsLists(k, l, op.data);
  }

  /** A record of an owner and a name, written safely: what it adds to the list, name by name. */
  lemma RecordListed(k: Pkt, l: seq<Entry>, a: Record)
    returns (e: Entry, l1: seq<Entry>, k2: Pkt, t: Entry, l2: seq<Entry>)
    requires Lists(k, l) && Inv(k) && RecordOk(a) && a.fixed.None? && a.target.Some? && !a.target.value.skip
    requires a.rr.name != [] && a.target.value.ls != []
    requires AddAnswer(k, a).status == Ok && SafeAnswer(k, a)
    ensures e.ls == a.rr.name && WellSized(k) && |Encode(e.ls)| < DOMAIN_MAXLEN && WrittenAs(k, e, false)
    ensures l1 == (if e.a == 0 || |l| == NUM_DOMAIN_OFFSETS then l else l + [e])
    ensures Lists(k2, l1) && WellSized(k2) && t.ls == a.target.value.ls && |Encode(t.ls)| < DOMAIN_MAXLEN
    ensures WrittenAs(k2, t, false)
    ensures l2 == (if t.a == 0 || |l1| == NUM_DOMAIN_OFFSETS then l1 else l1 + [t])
    ensures Lists(AddAnswer(k, a).pkt, l2)
  {
    hide Encode, Apply, Safe, Lists, Run, AllSafe, AddAnswer, WrittenAs, Writable, WellSized, AnswerOps, RecordOk;
    hide Inv, DataLen;
    InvSized(k);
    AnswerIsRun(k, a);
    var own, op := Name(a.rr.name, false), Name(a.target.value.ls, false);
    var ops := AnswerOps(a, DataLen(k, a));
    var raws := AnswerShape(a, DataLen(k, a));
    AllSafeStep(k, ops);
    e, l1 := NameListed(k, l, own);
    k2 := RawsThenName(Apply(k, own).pkt, l1, raws, op);
    t, l2 := NameListed(k2, l1, op);
  }

  /** The stores of a record without fixed data: its owner, four fields, its name. */
  lemma AnswerShape(a: Record, len: nat) returns (raws: seq<Op>)
    requires RecordOk(a) && len < U16_SIZE && a.fixed.None? && a.target.Some? && !a.target.value.skip
    ensures |Encode(a.rr.name)| < DOMAIN_MAXLEN && |Encode(a.target.value.ls)| < DOMAIN_MAXLEN
    ensures forall n :: 0 <= n < |raws| ==> raws[n].Raw?
    ensures var ops, op := AnswerOps(a, len), Name(a.target.value.ls, false);
            ops != [] && ops[0] == Name(a.rr.name, false) && ops[1..] == raws + [op]
  {
    hide Encode, Be16, Be32;
    raws := [Raw(Be16(a.rr.rtype)), Raw(Be16(ClassField(a.rr))), Raw(Be32(a.ttl)), Raw(Be16(len))];
    var op := Name(a.target.value.ls, false);
    assert DataOps(a) == [op];
    assert AnswerOps(a, len) == [Name(a.rr.name, false)] + (raws + [op]);
  }

  lemma NameListed(k: Pkt, l: seq<Entry>, op: Op) returns (e: Entry, l': seq<Entry>)
    requires op.Name? && !op.skip && op.ls != [] && |Encode(op.ls)| < DOMAIN_MAXLEN
    requires Lists(k, l) && WellSized(k) && Apply(k, op).status == Ok && Safe(k, op.ls, op.skip)
    ensures e.ls == op.ls && WrittenAs(k, e, false)
    ensures l' == (if e.a == 0 || |l| == NUM_DOMAIN_OFFSETS then l else l + [e])
    ensures Lists(Apply(k, op).pkt, l')
  {
    hide Encode, Safe, Lists, WriteDomain, WrittenAs;
    e, l' := WriteListed(k, l, op.ls, op.skip);
  }

  // ----- Climbing the stairs

  function TheHost(): (ls: seq<Label>) { HostName(StairHost(0)) }

  /** After the first `i` records: each stair is stored up to its pointer into the one before. */
  ghost predicate Climbed(l: seq<Entry>, i: nat) {
    && 1 <= i <= 7 && |l| == i + 1
    && l[0] == Entry(Stair(0), 0, 34) && l[1] == Entry(TheHost(), 0, 2)
    && forall t :: 1 <= t < i ==> l[t + 1] == Entry(Stair(t), t, 33 - 2 * t)
  }

  lemma StairFits(i: nat)
    requires i < 16
    ensures |Stair(i)| == 34 && |Encode(Stair(i))| == 74 && PrintableName(Stair(i)) && Stair(i)[33] == ARPA
  {
    hide Encode;
    StairAt(i, 33);
    ReverseLength(StairOctets(i));
    PrintableReverse(StairOctets(i));
  }

  lemma HostFits()
    ensures |TheHost()| == 2 && |Encode(TheHost())| < DOMAIN_MAXLEN && PrintableName(TheHost()) && TheHost()[1] == LOCAL
  {
    hide Encode;
    FixedNamesFit(StairHost(0));
  }

  /** The entry of a stored stair, and of everything else that is stored. */
  lemma ClimbedEntry(l: seq<Entry>, i: nat, n: nat) returns (t: nat)
    requires Climbed(l, i) && n < |l|
    ensures t <= 6
    ensures n == 1 ==> l[n] == Entry(TheHost(), 0, 2)
    ensures n != 1 ==> t < i && n == (if t == 0 then 0 else t + 1)
                       && l[n] == Entry(Stair(t), t, if t == 0 then 34 else 33 - 2 * t)
  {
    t := if n < 2 then 0 else n - 1;
  }

  lemma ClimbedLen(l: seq<Entry>, i: nat)
    requires Climbed(l, i)
    ensures |l| == i + 1
  {
  }

  lemma ClimbedNoClash(l: seq<Entry>, i: nat, ls: seq<Label>)
    requires Climbed(l, i) && PrintableName(ls)
    ensures forall e :: e in l ==> NoClash(e.ls, ls)
  {
    hide Climbed, NoClash, PrintableName;
    forall e | e in l ensures NoClash(e.ls, ls) {
      var n :| 0 <= n < |l| && l[n] == e;
      var t := ClimbedEntry(l, i, n);
      HostFits();
      if n != 1 {
        StairFits(t);
      }
      PrintableNoClash(e.ls, ls);
    }
  }

  /** The stair written next is matched against the one before it, and no other. */
  lemma StairMatch(k: Pkt, l: seq<Entry>, i: nat)
    requires Lists(k, l) && Climbed(l, i) && i <= 6
    ensures WellSized(k) && |Encode(Stair(i))| < DOMAIN_MAXLEN && 33 - 2 * i <= |Stair(i)|
    ensures var m := Chosen(k, Encode(Stair(i)), false);
            m.At? && m.writelen == Start(Stair(i), 33 - 2 * i) && Jumps(k.bytes, m.from, 0) == i - 1
  {
    hide Encode, Start, Chosen, Jumps, Lists, Climbed, Stair, Aligned, PrintableName, TheHost;
    ListsInv(k, l);
    InvSized(k);
    ClimbedLen(l, i);
    var ls, p := Stair(i), 33 - 2 * i;
    StairFits(i);
    ClimbedNoClash(l, i, ls);
    var before := if i == 1 then 0 else i;
    var t := ClimbedEntry(l, i, before);
    StairFits(t);
    CommonStairs(i, t, p, p);
    ChosenIsBest(k, l, ls, before, p, p);
    var m := Chosen(k, Encode(ls), false);
    var n, q, b := ChosenEntry(k, l, ls, false);
    if q > p {
      StartGrows(ls, p, q);
    }
    HostFits();
    if n == 1 {
      t := ClimbedEntry(l, i, 1);
      TopsDiffer(TheHost(), b, ls, q);
    } else {
      t := ClimbedEntry(l, i, n);
      StairFits(t);
      CommonStairs(i, t, b, q);
    }
  }

  lemma TopsDiffer(t: seq<Label>, b: nat, ls: seq<Label>, q: nat)
    requires b < |t| && q < |ls| && t[|t| - 1] != ls[|ls| - 1]
    ensures t[b..] != ls[q..]
  {
    assert t[|t| - 1] == t[b..][|t| - b - 1];
    assert ls[|ls| - 1] == ls[q..][|ls| - q - 1];
  }

  /** The seventh stair takes one jump too many. */
  lemma SeventhUnsafe(k: Pkt, l: seq<Entry>)
    requires Lists(k, l) && Climbed(l, 6) && WellSized(k) && |Encode(Stair(6))| < DOMAIN_MAXLEN
    ensures !Safe(k, Stair(6), false)
  {
    hide Encode, Start, Chosen, Jumps, Lists, Climbed, Stair, Aligned;
    StairMatch(k, l, 6);
  }

  lemma StartInjective(ls: seq<Label>, a: nat, b: nat)
    requires a <= |ls| && b <= |ls| && Start(ls, a) == Start(ls, b)
    ensures a == b
  {
    hide Start;
    if a < b {
      StartGrows(ls, a, b);
    } else if b < a {
      StartGrows(ls, b, a);
    }
  }

  /** The host's name is found whole once it is stored. */
  lemma HostFound(k: Pkt, l: seq<Entry>, t: Entry)
    requires Lists(k, l) && WellSized(k) && 2 <= |l| && l[1] == Entry(TheHost(), 0, 2) && t.ls == TheHost()
    requires |Encode(t.ls)| < DOMAIN_MAXLEN && WrittenAs(k, t, false)
    ensures t.a == 0
  {
    hide Encode, Start, Chosen, Jumps, Lists, TheHost;
    HostFits();
    ChosenIsBest(k, l, t.ls, 1, 0, 0);
    StartZero(t.ls);
    StartPositive(t.ls, t.a);
  }

  /** One stair up. */
  lemma NextStair(k: Pkt, l: seq<Entry>, i: nat) returns (l': seq<Entry>)
    requires Lists(k, l) && Climbed(l, i) && i <= 5 && Inv(k)
    requires AddAnswer(k, StairRecord(i)).status == Ok && SafeAnswer(k, StairRecord(i))
    ensures Lists(AddAnswer(k, StairRecord(i)).pkt, l') && Climbed(l', i + 1)
  {
    hide Encode, Start, Chosen, Jumps, Lists, Stair, SafeAnswer, AddAnswer, TheHost, RecordOk, Inv;
    StairFits(i);
    HostFits();
    assert StairRecord(i).rr.name == Stair(i) && StairRecord(i).target == Some(DataName(TheHost(), false)) by {
      StairRecordNames(i);
    }
    var e, l1, k2, t, l2 := RecordListed(k, l, StairRecord(i));
    StairMatch(k, l, i);
    StartInjective(Stair(i), e.a, 33 - 2 * i);
    HostFound(k2, l1, t);
    l' := l2;
  }

  lemma StairRecordNames(i: nat)
    requires i < 7
    ensures var r := StairRecord(i);
            r.rr.name == Stair(i) && r.fixed.None? && r.target == Some(DataName(TheHost(), false))
  {
  }

  /** The first record finds nothing to point to. */
  lemma FirstStair(bytes: seq<byte>) returns (l: seq<Entry>)
    requires |bytes| == OUTPUT_PACKET_SIZE && Inv(Fresh(bytes))
    requires AddAnswer(Fresh(bytes), StairRecord(0)).status == Ok && SafeAnswer(Fresh(bytes), StairRecord(0))
    ensures Lists(AddAnswer(Fresh(bytes), StairRecord(0)).pkt, l) && Climbed(l, 1)
  {
    hide Encode, Start, Chosen, Jumps, Stair, SafeAnswer, AddAnswer, TheHost, RecordOk, Inv, StoredName;
    hide PrintableName, NoClash;
    var k := Fresh(bytes);
    assert Lists(k, []);
    StairFits(0);
    HostFits();
    StairRecordNames(0);
    var e, l1, k2, t, l2 := RecordListed(k, [], StairRecord(0));
    var n, q, b := ChosenEntry(k, [], e.ls, false);
    PrintableNoClash(Stair(0), TheHost());
    n, q, b := ChosenEntry(k2, l1, t.ls, false);
    if Chosen(k2, Encode(t.ls), false) != NoMatch {
      TopsDiffer(Stair(0), b, TheHost(), q);
    }
    l := l2;
  }

  /** The stairs cannot all be written safely. */
  lemma {:induction false} StairsUnsafe(k: Pkt, l: seq<Entry>, i: nat)
    requires Lists(k, l) && Climbed(l, i) && i <= 6 && Inv(k) && AddAnswers(k, StairRecords(i)).status == Ok
    ensures !AnswersSafe(k, StairRecords(i))
    decreases 7 - i
  {
    hide Encode, Lists, Climbed, SafeAnswer, AddAnswer, StairRecord, RecordOk, Inv, Stair;
    var rs := StairRecords(i);
    InvSized(k);
    assert rs[0] == StairRecord(i) && rs[1..] == StairRecords(i + 1);
    if AnswersSafe(k, rs) {
      if i == 6 {
        SeventhRecord(k, l);
      } else {
        var l' := NextStair(k, l, i);
        AnswerKeepsInv(k, StairRecord(i));
        StairsUnsafe(AddAnswer(k, StairRecord(i)).pkt, l', i + 1);
      }
    }
  }

  lemma SeventhRecord(k: Pkt, l: seq<Entry>)
    requires Lists(k, l) && Climbed(l, 6) && Inv(k) && AddAnswer(k, StairRecord(6)).status == Ok
    ensures !SafeAnswer(k, StairRecord(6))
  {
    hide Encode, Lists, Climbed, AddAnswer, RecordOk, Stair, Safe, Run;
    StairFits(6);
    InvSized(k);
    SeventhUnsafe(k, l);
    StairRecordNames(6);
  }

  // ----- The packet is completed

  lemma StairLen(i: nat)
    requires i < 7
    ensures AnswerLen(StairRecord(i)) <= 100 && |Encode(StairRecord(i).rr.name)| == 74
  {
    hide Encode;
    StairFits(i);
    StairRecordNames(i);
    var ls := TheHost();
    EncodeCons(ls);
    assert ls[1..] == [LOCAL];
    EncodeCons([LOCAL]);
    RootLength([LOCAL][1..]);
  }

  lemma StairSpace(k: Pkt, i: nat)
    requires WellSized(k) && i < 7 && k.writeOffset + 100 <= |k.bytes|
    ensures var r := AddAnswer(k, StairRecord(i));
            && r.status == Ok && WellSized(r.pkt) && |r.pkt.bytes| == |k.bytes|
            && r.pkt.writeOffset <= k.writeOffset + 200
  {
    hide Encode, Run, WriteData, OpenRecord, AddQuestion, StairRecord, AnswerLen;
    var a := StairRecord(i);
    StairLen(i);
    StairRecordNames(i);
    AnswerSpace(k, a);
    OpenRecordFits(k, a);
    AnswerAppends(k, a);
    QuestionFits(k, a.rr);
    AnswerEnd(k, a);
  }

  lemma {:induction false} StairsFit(k: Pkt, i: nat)
    requires WellSized(k) && i <= 7 && |k.bytes| == OUTPUT_PACKET_SIZE && k.writeOffset <= 12 + 200 * i
    ensures AddAnswers(k, StairRecords(i)).status == Ok
    decreases 7 - i
  {
    hide AddAnswer, StairRecord, RecordOk, WellSized;
    if i < 7 {
      var rs := StairRecords(i);
      assert rs[0] == StairRecord(i) && rs[1..] == StairRecords(i + 1);
      StairSpace(k, i);
      StairsFit(AddAnswer(k, rs[0]).pkt, i + 1);
    }
  }

  // ----- The limit

  /** If the message of the host is completed in this buffer, its datagram reads as the message. */
  ghost predicate Heard(h: Host, m: Msg, bytes: seq<byte>) {
    && MsgOk(h, m) && ClashFree(h) && Opcode(m.flags) == 0 && |bytes| == OUTPUT_PACKET_SIZE
    && Build(Fresh(bytes), PlanOf(h, m)).status == Ok
    ==> SentReads(h, m, bytes)
  }

  /** Seven addresses: a completed packet that does not read as the message. */
  lemma SevenFail(n: nat, bytes: seq<byte>)
    requires n >= 7 && |bytes| == OUTPUT_PACKET_SIZE
    ensures var h, m := StairHost(n), StairMsg();
            && MsgOk(h, m) && ClashFree(h) && Build(Fresh(bytes), PlanOf(h, m)).status == Ok
            && !SentReads(h, m, bytes) && !Heard(h, m, bytes)
  {
    hide PlanOf, SentReads, StairRecords, AddAnswers, AddAnswer, Inv, AnswersSafe, ClashFree, PrintableHost;
    var h, m := StairHost(n), StairMsg();
    var k := Fresh(bytes);
    FreshInv(bytes);
    StairPlan(n);
    assert PrintableHost(h) by { StairPrintable(n); }
    PrintableClashFree(h);
    StairsFit(k, 0);
    NoQuestions(k, []);
    SentReadsBack(h, m, bytes);
    StairsNotSafe(bytes);
  }

  lemma StairPrintable(n: nat)
    ensures PrintableHost(StairHost(n))
  {
  }

  lemma StairsNotSafe(bytes: seq<byte>)
    requires |bytes| == OUTPUT_PACKET_SIZE && Inv(Fresh(bytes))
    requires AddAnswers(Fresh(bytes), StairRecords(0)).status == Ok
    ensures !AnswersSafe(Fresh(bytes), StairRecords(0))
  {
    hide Encode, Lists, Climbed, SafeAnswer, AddAnswer, StairRecord, RecordOk, Inv, Stair;
    var rs := StairRecords(0);
    assert rs[0] == StairRecord(0) && rs[1..] == StairRecords(1);
    if AnswersSafe(Fresh(bytes), rs) {
      var l := FirstStair(bytes);
      AnswerKeepsInv(Fresh(bytes), StairRecord(0));
      StairsUnsafe(AddAnswer(Fresh(bytes), StairRecord(0)).pkt, l, 1);
    }
  }

  lemma SixHeard(h: Host, m: Msg, bytes: seq<byte>)
    requires |h.addresses| <= MAX_JUMPS + 1
    ensures Heard(h, m, bytes)
  {
    hide PlanOf, SentReads, Build, ClashFree, MsgOk;
    if !Heard(h, m, bytes) {
      HostIsHeard(h, m, bytes);
    }
  }

  /**
    The limit on addresses, exactly: with names that do not clash, all messages of all hosts with
    `n` addresses are read as they were meant if and only if `n` is at most six.
   */
  lemma AddressLimit(n: nat)
    ensures (forall h: Host, m: Msg, bytes: seq<byte> | |h.addresses| == n :: Heard(h, m, bytes)) <==> n <= MAX_JUMPS + 1
  {
    hide Heard, StairHost;
    if n <= MAX_JUMPS + 1 {
      forall h: Host, m: Msg, bytes: seq<byte> | |h.addresses| == n ensures Heard(h, m, bytes) {
        SixHeard(h, m, bytes);
      }
    } else {
      var bytes: seq<byte> := seq(OUTPUT_PACKET_SIZE, _ => 0);
      SevenFail(n, bytes);
    }
  }
}
