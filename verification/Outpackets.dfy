/**
  What `mdns_create_outpacket` puts into a packet for a message: the names it builds and the
  questions and records it selects.
 */
module Outpackets {
  import opened Bytes
  import opened DomainNames
  import opened NameReader
  import opened NameWriter
  import opened NameRoundTrip
  import opened NameRuns
  import opened Records
  import opened Packets
  import opened Families

  const TTL_10: nat := 10
  const TTL_120: nat := 120
  const TTL_4500: nat := 4500

  // The labels "local", "_udp", "_tcp", "_services", "_dns-sd", "ip6" and "arpa".
  const LOCAL: Label := [108, 111, 99, 97, 108]
  const UDP: Label := [95, 117, 100, 112]
  const TCP: Label := [95, 116, 99, 112]
  const SERVICES: Label := [95, 115, 101, 114, 118, 105, 99, 101, 115]
  const DNS_SD: Label := [95, 100, 110, 115, 45, 115, 100]
  const IP6: Label := [105, 112, 54]
  const ARPA: Label := [97, 114, 112, 97]

  datatype Service = Service(name: Label, service: Label, tcp: bool, port: nat, txt: seq<byte>)

  datatype Address = Address(valid: bool, octets: seq<byte>)

  /** `struct mdns_host` with the addresses of its interface. */
  datatype Host = Host(name: Label, services: seq<Option<Service>>, addresses: seq<Address>)

  /** The reply bits of one service. */
  datatype Reply = Reply(typePtr: bool, namePtr: bool, srv: bool, txt: bool)

  /** `struct mdns_outmsg`. */
  datatype Msg = Msg(id: nat, flags: byte, cacheFlush: bool, legacy: bool, probeHost: bool, probeService: seq<bool>,
                     aaaa: bool, ptrV6: bool, reverse: nat, replies: seq<Reply>)

  predicate HostOk(h: Host) {
    && (forall i :: 0 <= i < |h.addresses| ==> |h.addresses[i].octets| == 16)
    && (forall i :: 0 <= i < |h.services| && h.services[i].Some? ==>
          h.services[i].value.port < U16_SIZE && |h.services[i].value.txt| <= DOMAIN_MAXLEN)
  }

  /** The mask has no bit at or above position `n`. */
  predicate MaskFits(mask: nat, n: nat) {
    mask == 0 || (n > 0 && MaskFits(mask / 2, n - 1))
  }

  predicate MsgOk(h: Host, m: Msg) {
    && HostOk(h) && m.id < U16_SIZE && |m.probeService| == |m.replies| == |h.services|
    && MaskFits(m.reverse, |h.addresses|)
  }

  // ----- Names

  function HostName(h: Host): (ls: seq<Label>) { [h.name, LOCAL] }

  function ServiceType(s: Service): (ls: seq<Label>) { [s.service, if s.tcp then TCP else UDP, LOCAL] }

  function Instance(s: Service): (ls: seq<Label>) { [s.name] + ServiceType(s) }

  function DnsSd(): (ls: seq<Label>) { [SERVICES, DNS_SD, UDP, LOCAL] }

  function HexDigit(n: nat): (b: byte)
    requires n < 16
    ensures 48 <= b <= 57 || 97 <= b <= 102
  {
    if n < 10 then 48 + n else 97 + n - 10
  }

  /** The nibbles of an address from its last octet on, low nibble first. */
  function Nibbles(octets: seq<byte>): (ls: seq<Label>)
    ensures |ls| == 2 * |octets|
  {
    if octets == [] then []
    else
      var b := octets[|octets| - 1];
      [[HexDigit(b % 16)], [HexDigit(b / 16)]] + Nibbles(octets[..|octets| - 1])
  }

  function ReverseName(octets: seq<byte>): (ls: seq<Label>) { Nibbles(octets) + [IP6, ARPA] }

  lemma TwoShortLabels(x: Label, y: Label, rest: seq<Label>)
    requires |x| == |y| == 1
    ensures |Encode([x, y] + rest)| == 4 + |Encode(rest)|
  {
    hide Encode;
    var ls := [x, y] + rest;
    EncodeCons(ls);
    assert ls[1..] == [y] + rest;
    EncodeCons(ls[1..]);
    assert ls[1..][1..] == rest;
  }

  lemma ReverseEnd()
    ensures |Encode([IP6, ARPA])| == 10
  {
    hide Encode;
    EncodeCons([IP6, ARPA]);
    assert [IP6, ARPA][1..] == [ARPA];
    EncodeCons([ARPA]);
    RootLength([ARPA][1..]);
  }

  lemma RootLength(ls: seq<Label>)
    requires ls == []
    ensures |Encode(ls)| == 1
  {
  }

  lemma {:induction false} ReverseLength(octets: seq<byte>)
    ensures |Encode(ReverseName(octets))| == 4 * |octets| + 10
  {
    hide Encode;
    if octets == [] {
      ReverseEnd();
      assert ReverseName(octets) == [IP6, ARPA];
    } else {
      var rest, b := octets[..|octets| - 1], octets[|octets| - 1];
      ReverseLength(rest);
      TwoShortLabels([HexDigit(b % 16)], [HexDigit(b / 16)], ReverseName(rest));
      assert ReverseName(octets) == [[HexDigit(b % 16)], [HexDigit(b / 16)]] + ReverseName(rest);
    }
  }

  /** A name takes at most 64 bytes a label, and one for the root. */
  lemma {:induction false} ShortName(ls: seq<Label>)
    ensures |Encode(ls)| <= 64 * |ls| + 1
  {
    if ls != [] {
      EncodeCons(ls);
      ShortName(ls[1..]);
    }
  }

  lemma InstanceFits(s: Service)
    ensures |Encode(Instance(s))| < DOMAIN_MAXLEN && |Encode(ServiceType(s))| < DOMAIN_MAXLEN
  {
    var ls, t := Instance(s), ServiceType(s);
    assert ls[1..] == t;
    assert t[1..] == [if s.tcp then TCP else UDP, LOCAL];
    ShortName([LOCAL]);
    EncodeCons(ls);
    EncodeCons(t);
    assert t[1..][1..] == [LOCAL];
    EncodeCons(t[1..]);
    assert Encode([LOCAL]) == [5] + LOCAL + Encode([]);
  }

  lemma FixedNamesFit(h: Host)
    ensures |Encode(HostName(h))| < DOMAIN_MAXLEN && |Encode(DnsSd())| < DOMAIN_MAXLEN
  {
    ShortName(HostName(h));
    DnsSdFits();
  }

  lemma DnsSdFits()
    ensures |Encode(DnsSd())| < DOMAIN_MAXLEN
  {
    InstanceFits(Service(SERVICES, DNS_SD, false, 0, []));
    assert Instance(Service(SERVICES, DNS_SD, false, 0, [])) == DnsSd();
  }

  // ----- Questions and records

  function Ttl(m: Msg, t: nat): nat { if m.legacy then TTL_10 else t }

  function AnyQuestion(ls: seq<Label>): (q: Rr)
    requires |Encode(ls)| < DOMAIN_MAXLEN
    ensures RrOk(q)
  {
    Rr(ls, TYPE_ANY, CLASS_IN, true)
  }

  function Aaaa(h: Host, m: Msg, a: Address): (r: Record)
    requires |a.octets| == 16
    ensures RecordOk(r)
  {
    FixedNamesFit(h);
    Record(Rr(HostName(h), TYPE_AAAA, CLASS_IN, m.cacheFlush), Ttl(m, TTL_120), Some(a.octets), None)
  }

  function HostPtr(h: Host, m: Msg, a: Address): (r: Record)
    requires |a.octets| == 16
    ensures RecordOk(r)
  {
    FixedNamesFit(h);
    ReverseLength(a.octets);
    Record(Rr(ReverseName(a.octets), TYPE_PTR, CLASS_IN, m.cacheFlush), Ttl(m, TTL_120), None,
           Some(DataName(HostName(h), false)))
  }

  function TypePtr(m: Msg, s: Service): (r: Record)
    ensures RecordOk(r)
  {
    DnsSdFits();
    InstanceFits(s);
    Record(Rr(DnsSd(), TYPE_PTR, CLASS_IN, false), Ttl(m, TTL_4500), None, Some(DataName(ServiceType(s), false)))
  }

  function NamePtr(m: Msg, s: Service): (r: Record)
    ensures RecordOk(r)
  {
    InstanceFits(s);
    Record(Rr(ServiceType(s), TYPE_PTR, CLASS_IN, false), Ttl(m, TTL_120), None, Some(DataName(Instance(s), false)))
  }

  /** Names in service records are not compressed for legacy queriers (section 18.14 of RFC 6762). */
  function Srv(h: Host, m: Msg, s: Service): (r: Record)
    requires s.port < U16_SIZE
    ensures RecordOk(r)
  {
    FixedNamesFit(h);
    InstanceFits(s);
    Record(Rr(Instance(s), TYPE_SRV, CLASS_IN, m.cacheFlush), Ttl(m, TTL_120), Some([0, 0, 0, 0] + Be16(s.port)),
           Some(DataName(HostName(h), m.legacy)))
  }

  function Txt(m: Msg, s: Service): (r: Record)
    requires |s.txt| <= DOMAIN_MAXLEN
    ensures RecordOk(r)
  {
    InstanceFits(s);
    Record(Rr(Instance(s), TYPE_TXT, CLASS_IN, m.cacheFlush), Ttl(m, TTL_120), Some(s.txt), None)
  }

  predicate AllOk(rs: seq<Record>) {
    forall a :: a in rs ==> RecordOk(a)
  }

  function If<T>(c: bool, x: T): seq<T> { if c then [x] else [] }

  function Probes(h: Host, m: Msg, i: nat): (qs: seq<Rr>)
    requires MsgOk(h, m) && i <= |h.services|
    ensures forall q :: q in qs ==> RrOk(q)
    decreases |h.services| - i
  {
    if i == |h.services| then []
    else
      (if h.services[i].Some? then
         InstanceFits(h.services[i].value);
         If(m.probeService[i], AnyQuestion(Instance(h.services[i].value)))
       else [])
      + Probes(h, m, i + 1)
  }

  function Addresses(h: Host, m: Msg, i: nat): (rs: seq<Record>)
    requires HostOk(h) && i <= |h.addresses|
    ensures AllOk(rs)
    decreases |h.addresses| - i
  {
    if i == |h.addresses| then []
    else If(h.addresses[i].valid, Aaaa(h, m, h.addresses[i])) + Addresses(h, m, i + 1)
  }

  function Reverses(h: Host, m: Msg, mask: nat, i: nat): (rs: seq<Record>)
    requires HostOk(h) && i <= |h.addresses| && MaskFits(mask, |h.addresses| - i)
    ensures AllOk(rs)
    decreases mask
  {
    if mask == 0 then []
    else If(mask % 2 == 1, HostPtr(h, m, h.addresses[i])) + Reverses(h, m, mask / 2, i + 1)
  }

  /** The records selected for one service. */
  function OwnRecords(h: Host, m: Msg, i: nat): (rs: seq<Record>)
    requires MsgOk(h, m) && i < |h.services|
    ensures AllOk(rs)
  {
    if h.services[i].None? then []
    else
      var s, r := h.services[i].value, m.replies[i];
      If(r.typePtr, TypePtr(m, s)) + (If(r.namePtr, NamePtr(m, s)) + (If(r.srv, Srv(h, m, s)) + If(r.txt, Txt(m, s))))
  }

  function Services(h: Host, m: Msg, i: nat): (rs: seq<Record>)
    requires MsgOk(h, m) && i <= |h.services|
    ensures AllOk(rs)
    decreases |h.services| - i
  {
    if i == |h.services| then [] else OwnRecords(h, m, i) + Services(h, m, i + 1)
  }

  /** Records that go with those selected for one service: its data and the host's addresses. */
  function Extras(h: Host, m: Msg, i: nat): (rs: seq<Record>)
    requires MsgOk(h, m) && i < |h.services|
    ensures AllOk(rs)
  {
    if h.services[i].None? then []
    else
      var s, r := h.services[i].value, m.replies[i];
      If(r.namePtr && !r.srv, Srv(h, m, s))
      + (If(r.namePtr && !r.txt, Txt(m, s))
         + (if (r.namePtr || r.srv || m.aaaa) && !m.aaaa then Addresses(h, m, 0) else []))
  }

  function Additional(h: Host, m: Msg, i: nat): (rs: seq<Record>)
    requires MsgOk(h, m) && i <= |h.services|
    ensures AllOk(rs)
    decreases |h.services| - i
  {
    if i == |h.services| then [] else Extras(h, m, i) + Additional(h, m, i + 1)
  }

  function Selected(h: Host, m: Msg): (rs: seq<Record>)
    requires MsgOk(h, m)
    ensures AllOk(rs)
  {
    (if m.aaaa then Addresses(h, m, 0) else [])
    + ((if m.ptrV6 then Reverses(h, m, m.reverse, 0) else []) + Services(h, m, 0))
  }

  /** The questions of a message itself: those of a probe. */
  function ProbeQuestions(h: Host, m: Msg): (qs: seq<Rr>)
    requires MsgOk(h, m)
    ensures forall q :: q in qs ==> RrOk(q)
  {
    FixedNamesFit(h);
    If(m.probeHost, AnyQuestion(HostName(h))) + Probes(h, m, 0)
  }

  /** Everything the message asks for; a legacy reply repeats the question of its first record. */
  function PlanOf(h: Host, m: Msg): (plan: Plan)
    requires MsgOk(h, m)
    ensures PlanOk(plan)
    ensures plan.records == Selected(h, m) + Additional(h, m, 0)
  {
    var rs, qs := Selected(h, m) + Additional(h, m, 0), ProbeQuestions(h, m);
    if m.legacy && qs == [] && rs != [] then
      assert rs[0] in rs;
      Plan([rs[0].rr.(top := false)], rs)
    else Plan(qs, rs)
  }

  /** The message of a probe: `mdns_define_probe_rrs_to_send`. */
  function ProbeMsg(h: Host): (m: Msg) {
    Msg(0, 0, false, false, true, seq(|h.services|, i requires 0 <= i < |h.services| => h.services[i].Some?),
        exists i :: 0 <= i < |h.addresses| && h.addresses[i].valid, false, 0,
        seq(|h.services|, i requires 0 <= i < |h.services| => Reply(false, false, h.services[i].Some?, false)))
  }

  // ----- The plan is well formed, and which names it uses

  /** The names below "local": of the host, of its services, and of their enumeration. */
  ghost function LocalNames(h: Host): set<seq<Label>> {
    {HostName(h), DnsSd()}
    + (set i | 0 <= i < |h.services| && h.services[i].Some? :: ServiceType(h.services[i].value))
    + (set i | 0 <= i < |h.services| && h.services[i].Some? :: Instance(h.services[i].value))
  }

  ghost function ReverseNames(h: Host): set<seq<Label>> {
    set i | 0 <= i < |h.addresses| :: ReverseName(h.addresses[i].octets)
  }

  /** All names built for a host. */
  ghost function Names(h: Host): set<seq<Label>> {
    LocalNames(h) + ReverseNames(h)
  }

  ghost predicate LocalUses(h: Host, a: Record) {
    RecordOk(a) && a.rr.name in LocalNames(h) && (a.target.Some? ==> a.target.value.ls in LocalNames(h))
  }

  lemma LocalShort(h: Host, ls: seq<Label>)
    requires ls in LocalNames(h)
    ensures 0 < |ls| <= 4 && |Encode(ls)| < DOMAIN_MAXLEN && ls[|ls| - 1] == LOCAL
  {
    hide Encode;
    FixedNamesFit(h);
    if ls != HostName(h) && ls != DnsSd() {
      var i :| 0 <= i < |h.services| && h.services[i].Some?
               && (ls == ServiceType(h.services[i].value) || ls == Instance(h.services[i].value));
      InstanceFits(h.services[i].value);
    }
  }

  lemma LocalRecord(h: Host, a: Record)
    requires LocalUses(h, a)
    ensures RecordUses(a, Names(h)) && !Long(a.rr.name)
  {
    hide Encode, LocalNames;
    LocalShort(h, a.rr.name);
    if a.target.Some? {
      LocalShort(h, a.target.value.ls);
    }
  }

  lemma ReverseShape(octets: seq<byte>)
    requires |octets| == 16
    ensures var ls := ReverseName(octets);
            |ls| == 34 && |Encode(ls)| < DOMAIN_MAXLEN && ls[33] == ARPA && Long(ls)
  {
    hide Encode;
    ReverseLength(octets);
  }

  lemma ServiceUses(h: Host, m: Msg, i: nat)
    requires MsgOk(h, m) && i < |h.services| && h.services[i].Some?
    ensures var s := h.services[i].value;
            && |Encode(Instance(s))| < DOMAIN_MAXLEN && Instance(s) in LocalNames(h)
            && LocalUses(h, TypePtr(m, s)) && LocalUses(h, NamePtr(m, s))
            && LocalUses(h, Srv(h, m, s)) && LocalUses(h, Txt(m, s))
  {
    hide Encode;
    InstanceFits(h.services[i].value);
    FixedNamesFit(h);
  }

  lemma {:induction false} ProbesOk(h: Host, m: Msg, i: nat)
    requires MsgOk(h, m) && i <= |h.services|
    ensures forall q :: q in Probes(h, m, i) ==> RrOk(q) && q.name in LocalNames(h)
    decreases |h.services| - i
  {
    hide Encode, Instance;
    if i < |h.services| {
      ProbesOk(h, m, i + 1);
      if h.services[i].Some? {
        ServiceUses(h, m, i);
      }
    }
  }

  lemma {:induction false} AddressesOk(h: Host, m: Msg, i: nat)
    requires HostOk(h) && i <= |h.addresses|
    ensures forall a :: a in Addresses(h, m, i) ==> LocalUses(h, a)
    decreases |h.addresses| - i
  {
    hide Encode;
    if i < |h.addresses| {
      FixedNamesFit(h);
      AddressesOk(h, m, i + 1);
    }
  }

  lemma {:induction false} ReversesOk(h: Host, m: Msg, mask: nat, i: nat)
    requires HostOk(h) && i <= |h.addresses| && MaskFits(mask, |h.addresses| - i)
    ensures forall a :: a in Reverses(h, m, mask, i) ==> RecordOk(a) && RecordUses(a, Names(h))
    decreases mask
  {
    hide Encode, ReverseName;
    if mask != 0 {
      FixedNamesFit(h);
      ReverseShape(h.addresses[i].octets);
      ReversesOk(h, m, mask / 2, i + 1);
    }
  }

  lemma OwnRecordsOk(h: Host, m: Msg, i: nat)
    requires MsgOk(h, m) && i < |h.services|
    ensures forall a :: a in OwnRecords(h, m, i) ==> LocalUses(h, a)
  {
    hide Encode, LocalUses, TypePtr, NamePtr, Srv, Txt;
    if h.services[i].Some? {
      ServiceUses(h, m, i);
      var s := h.services[i].value;
      forall a | a in OwnRecords(h, m, i) ensures LocalUses(h, a) {
        assert a == TypePtr(m, s) || a == NamePtr(m, s) || a == Srv(h, m, s) || a == Txt(m, s);
      }
    }
  }

  lemma {:induction false} ServicesOk(h: Host, m: Msg, i: nat)
    requires MsgOk(h, m) && i <= |h.services|
    ensures forall a :: a in Services(h, m, i) ==> LocalUses(h, a)
    decreases |h.services| - i
  {
    hide Encode, LocalUses, OwnRecords, MsgOk;
    if i < |h.services| {
      ServicesOk(h, m, i + 1);
      OwnRecordsOk(h, m, i);
    }
  }

  lemma ExtrasOk(h: Host, m: Msg, i: nat)
    requires MsgOk(h, m) && i < |h.services|
    ensures forall a :: a in Extras(h, m, i) ==> LocalUses(h, a)
  {
    hide Encode, LocalUses, Srv, Txt, Addresses;
    AddressesOk(h, m, 0);
    if h.services[i].Some? {
      ServiceUses(h, m, i);
      var s := h.services[i].value;
      forall a | a in Extras(h, m, i) ensures LocalUses(h, a) {
        assert a in Addresses(h, m, 0) || a == Srv(h, m, s) || a == Txt(m, s);
      }
    }
  }

  lemma {:induction false} AdditionalOk(h: Host, m: Msg, i: nat)
    requires MsgOk(h, m) && i <= |h.services|
    ensures forall a :: a in Additional(h, m, i) ==> LocalUses(h, a)
    decreases |h.services| - i
  {
    hide Encode, LocalUses, Extras, MsgOk;
    if i < |h.services| {
      AdditionalOk(h, m, i + 1);
      ExtrasOk(h, m, i);
    }
  }

  lemma PlanIsOk(h: Host, m: Msg)
    requires MsgOk(h, m)
    ensures PlanOk(PlanOf(h, m)) && PlanUses(PlanOf(h, m), Names(h))
  {
    hide Encode, Addresses, Reverses, Services, Additional, Probes, LocalNames, LocalUses, ReverseNames;
    FixedNamesFit(h);
    assert HostName(h) in LocalNames(h) by { HostNameUsed(h); }
    ProbesOk(h, m, 0);
    AddressesOk(h, m, 0);
    ReversesOk(h, m, m.reverse, 0);
    ServicesOk(h, m, 0);
    AdditionalOk(h, m, 0);
    var rs := Selected(h, m) + Additional(h, m, 0);
    forall a | a in rs ensures RecordOk(a) && RecordUses(a, Names(h)) {
      assert a in Selected(h, m) || a in Additional(h, m, 0);
      if LocalUses(h, a) {
        LocalRecord(h, a);
        LocalIsOk(h, a);
      }
    }
    if rs != [] {
      assert rs[0] in rs;
    }
  }

  lemma LocalIsOk(h: Host, a: Record)
    requires LocalUses(h, a)
    ensures RecordOk(a)
  {
  }

  lemma HostNameUsed(h: Host)
    ensures HostName(h) in LocalNames(h)
  {
  }

  // ----- How many reverse lookup names a packet has

  lemma {:induction false} ShortSparse(written: set<seq<Label>>, owners: seq<seq<Label>>)
    requires forall ls :: ls in owners ==> !Long(ls)
    ensures Sparse(written, owners) && AllMarked(written, owners) == written
    decreases |owners|
  {
    if owners != [] {
      ShortSparse(written, owners[1..]);
    }
  }

  lemma {:induction false} OwnersConcat(xs: seq<Record>, ys: seq<Record>)
    ensures Owners(xs + ys) == Owners(xs) + Owners(ys)
    decreases |xs|
  {
    if xs == [] {
      assert xs + ys == ys;
    } else {
      assert (xs + ys)[1..] == xs[1..] + ys;
      OwnersConcat(xs[1..], ys);
    }
  }

  lemma {:induction false} LocalSparse(h: Host, written: set<seq<Label>>, rs: seq<Record>)
    requires forall a :: a in rs ==> LocalUses(h, a)
    ensures Sparse(written, Owners(rs)) && AllMarked(written, Owners(rs)) == written
    decreases |rs|
  {
    hide LocalUses;
    if rs != [] {
      LocalRecord(h, rs[0]);
      LocalSparse(h, written, rs[1..]);
      assert Owners(rs)[1..] == Owners(rs[1..]);
    }
  }

  lemma {:induction false} QuestionsSparse(h: Host, written: set<seq<Label>>, qs: seq<Rr>)
    requires forall q :: q in qs ==> q.name in LocalNames(h)
    ensures Sparse(written, QuestionOwners(qs)) && AllMarked(written, QuestionOwners(qs)) == written
    decreases |qs|
  {
    hide LocalNames;
    if qs != [] {
      LocalShort(h, qs[0].name);
      QuestionsSparse(h, written, qs[1..]);
      assert QuestionOwners(qs)[1..] == QuestionOwners(qs[1..]);
    }
  }

  /** Nothing but reverse names of earlier addresses has been written, or just the next one. */
  ghost predicate FewWritten(h: Host, m: Msg, mask: nat, i: nat, written: set<seq<Label>>)
    requires HostOk(h) && i <= |h.addresses| && MaskFits(mask, |h.addresses| - i)
  {
    |written| <= i || (Reverses(h, m, mask, i) != [] && written <= {Reverses(h, m, mask, i)[0].rr.name})
  }

  /** With at most six addresses every reverse name follows at most five others. */
  lemma {:induction false} ReversesSparse(h: Host, m: Msg, mask: nat, i: nat, written: set<seq<Label>>)
    requires HostOk(h) && |h.addresses| <= MAX_JUMPS + 1
    requires i <= |h.addresses| && MaskFits(mask, |h.addresses| - i) && FewWritten(h, m, mask, i, written)
    ensures Sparse(written, Owners(Reverses(h, m, mask, i)))
    decreases mask
  {
    hide ReverseName;
    if mask != 0 {
      var rest := Reverses(h, m, mask / 2, i + 1);
      if mask % 2 == 1 {
        var name := ReverseName(h.addresses[i].octets);
        ReverseShape(h.addresses[i].octets);
        assert Reverses(h, m, mask, i)[1..] == rest;
        SmallSet(written, name);
        ReversesSparse(h, m, mask / 2, i + 1, written + {name});
        assert Owners(Reverses(h, m, mask, i))[1..] == Owners(rest);
      } else {
        assert Reverses(h, m, mask, i) == rest;
        ReversesSparse(h, m, mask / 2, i + 1, written);
      }
    }
  }

  lemma SmallSet(w: set<seq<Label>>, x: seq<Label>)
    ensures |w + {x}| <= |w| + 1
    ensures w <= {x} ==> |w| <= 1 && |w + {x}| == 1
  {
    if w <= {x} {
      assert w == {} || w == {x};
      assert w + {x} == {x};
    }
  }

  /** The long names that the question section may have: the owner of the first record, repeated. */
  lemma QuestionSection(h: Host, m: Msg) returns (written: set<seq<Label>>)
    requires MsgOk(h, m)
    ensures var plan := PlanOf(h, m);
            && Sparse({}, QuestionOwners(plan.questions))
            && written == AllMarked({}, QuestionOwners(plan.questions))
            && (written == {}
                || (plan.records != [] && Long(plan.records[0].rr.name) && written == {plan.records[0].rr.name}))
  {
    hide Addresses, Reverses, Services, Additional, Probes, LocalNames;
    var rs, plan := Selected(h, m) + Additional(h, m, 0), PlanOf(h, m);
    var qs := ProbeQuestions(h, m);
    ProbesOk(h, m, 0);
    HostNameUsed(h);
    written := AllMarked({}, QuestionOwners(plan.questions));
    if plan.questions == qs {
      QuestionsSparse(h, {}, qs);
    } else {
      var owners := QuestionOwners(plan.questions);
      assert QuestionOwners(plan.questions[1..]) == [] by { assert plan.questions[1..] == []; }
      assert owners == [rs[0].rr.name];
      assert owners[1..] == [];
    }
  }

  /** The records in front of and behind the reverse lookups. */
  lemma RecordParts(h: Host, m: Msg) returns (xs: seq<Record>, rs: seq<Record>, ys: seq<Record>)
    requires MsgOk(h, m)
    ensures PlanOf(h, m).records == xs + (rs + ys)
    ensures rs == if m.ptrV6 then Reverses(h, m, m.reverse, 0) else []
    ensures forall a :: a in xs || a in ys ==> LocalUses(h, a)
  {
    hide Addresses, Reverses, Services, Additional, Probes, LocalUses;
    xs := if m.aaaa then Addresses(h, m, 0) else [];
    rs := if m.ptrV6 then Reverses(h, m, m.reverse, 0) else [];
    ys := Services(h, m, 0) + Additional(h, m, 0);
    assert Selected(h, m) + Additional(h, m, 0) == xs + (rs + ys);
    AddressesOk(h, m, 0);
    ServicesOk(h, m, 0);
    AdditionalOk(h, m, 0);
  }

  /** No message of a host with at most six addresses has too many reverse names, legacy replies included. */
  lemma PlanSparse(h: Host, m: Msg)
    requires MsgOk(h, m) && |h.addresses| <= MAX_JUMPS + 1
    ensures Sparse({}, PlanOwners(PlanOf(h, m)))
  {
    hide PlanOf, Reverses, LocalUses, Sparse, AllMarked, MaskFits;
    var written := QuestionSection(h, m);
    var xs, rs, ys := RecordParts(h, m);
    var plan := PlanOf(h, m);
    OwnersConcat(xs, rs + ys);
    OwnersConcat(rs, ys);
    SparseConcat({}, QuestionOwners(plan.questions), Owners(plan.records));
    SparseConcat(written, Owners(xs), Owners(rs) + Owners(ys));
    SparseConcat(written, Owners(rs), Owners(ys));
    LocalSparse(h, written, xs);
    LocalSparse(h, AllMarked(written, Owners(rs)), ys);
    if written != {} {
      FirstIsReverse(h, xs, rs, ys);
    }
    if m.ptrV6 {
      ReversesSparse(h, m, m.reverse, 0, written);
    } else {
      NoOwners(written, rs);
    }
  }

  lemma FirstIsReverse(h: Host, xs: seq<Record>, rs: seq<Record>, ys: seq<Record>)
    requires forall a :: a in xs || a in ys ==> LocalUses(h, a)
    requires xs + (rs + ys) != [] && Long((xs + (rs + ys))[0].rr.name)
    ensures rs != [] && (xs + (rs + ys))[0] == rs[0]
  {
    hide LocalUses;
    var first := (xs + (rs + ys))[0];
    assert xs == [] || first in xs;
    assert rs != [] || first in xs || first in ys;
    forall a | a in xs || a in ys ensures !Long(a.rr.name) {
      LocalRecord(h, a);
    }
  }

  lemma NoOwners(written: set<seq<Label>>, rs: seq<Record>)
    requires rs == []
    ensures Sparse(written, Owners(rs))
  {
  }

  // ----- Names that do not clash

  /** No byte of any of the host's labels is the length of another of its labels. */
  ghost predicate ClashFree(h: Host) {
    forall t, ls :: t in Names(h) && ls in Names(h) ==> NoClash(t, ls)
  }

  lemma HostFamily(h: Host)
    requires HostOk(h) && ClashFree(h)
    ensures Family(Names(h))
  {
    hide Encode, LocalNames, NoClash, ReverseName;
    forall ls | ls in Names(h)
      ensures ls != [] && |Encode(ls)| < DOMAIN_MAXLEN && ls[|ls| - 1] == if Long(ls) then ARPA else LOCAL
    {
      if ls in LocalNames(h) {
        LocalShort(h, ls);
      } else {
        var i :| 0 <= i < |h.addresses| && ls == ReverseName(h.addresses[i].octets);
        ReverseShape(h.addresses[i].octets);
      }
    }
  }

  /** At most 44 bytes, each of them a letter, digit, hyphen, underscore or other byte from 45 on. */
  predicate Printable(l: Label) {
    |l| < 45 && forall i :: 0 <= i < |l| ==> l[i] >= 45
  }

  predicate PrintableHost(h: Host) {
    && Printable(h.name)
    && forall i :: 0 <= i < |h.services| && h.services[i].Some? ==>
         Printable(h.services[i].value.name) && Printable(h.services[i].value.service)
  }

  predicate PrintableName(ls: seq<Label>) {
    forall i :: 0 <= i < |ls| ==> Printable(ls[i])
  }

  lemma PrintableNoClash(t: seq<Label>, ls: seq<Label>)
    requires PrintableName(t) && PrintableName(ls)
    ensures NoClash(t, ls)
  {
    forall m, n | 0 <= m < |t| && 0 <= n < |ls| ensures |ls[n]| !in t[m] {
      assert Printable(ls[n]) && Printable(t[m]);
    }
  }

  lemma {:induction false} PrintableReverse(octets: seq<byte>)
    ensures PrintableName(ReverseName(octets))
  {
    if octets != [] {
      var rest, b := octets[..|octets| - 1], octets[|octets| - 1];
      PrintableReverse(rest);
      var x, y: seq<Label> := ReverseName(rest), [[HexDigit(b % 16)], [HexDigit(b / 16)]];
      assert ReverseName(octets) == y + x;
      assert forall i :: 2 <= i < |x| + 2 ==> (y + x)[i] == x[i - 2];
    }
  }

  lemma PrintableLocal(h: Host, ls: seq<Label>)
    requires PrintableHost(h) && ls in LocalNames(h)
    ensures PrintableName(ls)
  {
    assert Printable(LOCAL) && Printable(UDP) && Printable(TCP) && Printable(SERVICES) && Printable(DNS_SD);
    hide Printable;
    if ls != HostName(h) && ls != DnsSd() {
      var i :| 0 <= i < |h.services| && h.services[i].Some?
               && (ls == ServiceType(h.services[i].value) || ls == Instance(h.services[i].value));
      assert Printable(h.services[i].value.name) && Printable(h.services[i].value.service);
    }
  }

  /** Printable names do not clash, with each other or with reverse lookup names. */
  lemma PrintableClashFree(h: Host)
    requires PrintableHost(h)
    ensures ClashFree(h)
  {
    hide LocalNames, NoClash, PrintableName, ReverseName, PrintableHost;
    forall ls | ls in Names(h) ensures PrintableName(ls) {
      if ls in LocalNames(h) {
        PrintableLocal(h, ls);
      } else {
        var i :| 0 <= i < |h.addresses| && ls == ReverseName(h.addresses[i].octets);
        PrintableReverse(h.addresses[i].octets);
      }
    }
    forall t, ls | t in Names(h) && ls in Names(h) ensures NoClash(t, ls) {
      PrintableNoClash(t, ls);
    }
  }

  // ----- The self-parse

  /** Every name of the message is written safely. */
  lemma MessageSafe(h: Host, m: Msg, bytes: seq<byte>)
    requires MsgOk(h, m) && ClashFree(h) && |h.addresses| <= MAX_JUMPS + 1
    requires SIZEOF_DNS_HDR <= |bytes| <= JUMP_TARGET_LIMIT
    requires Build(Fresh(bytes), PlanOf(h, m)).status == Ok
    ensures Inv(Fresh(bytes)) && PlanSafe(Fresh(bytes), PlanOf(h, m))
  {
    hide Build, PlanOf, Encode, Names, Family, ClashFree;
    PlanIsOk(h, m);
    PlanSparse(h, m);
    HostFamily(h);
    FamilyPacketSafe(bytes, Names(h), PlanOf(h, m));
  }

  /**
    The self-parse of `mdns_create_outpacket`: every message completed for a host with at most six
    addresses and names that do not clash reads back as its plan, reverse lookups included.
   */
  lemma MessageReadsBack(h: Host, m: Msg, bytes: seq<byte>, f: seq<byte>)
    requires MsgOk(h, m) && ClashFree(h) && |h.addresses| <= MAX_JUMPS + 1
    requires SIZEOF_DNS_HDR <= |bytes| <= JUMP_TARGET_LIMIT
    requires Build(Fresh(bytes), PlanOf(h, m)).status == Ok
    requires var k := Build(Fresh(bytes), PlanOf(h, m)).pkt; k.writeOffset <= |k.bytes| && Carries(f, Done(k))
    ensures PlanReads(f, SIZEOF_DNS_HDR, PlanOf(h, m), Build(Fresh(bytes), PlanOf(h, m)).pkt.writeOffset)
  {
    hide Build, PlanReads, PlanOf, Encode, Names, PlanSafe, ClashFree;
    MessageSafe(h, m, bytes);
    PacketReadsBack(Fresh(bytes), PlanOf(h, m), f);
  }

  /** The probe this host sends reads back from the buffer it was built in, as the tiebreak needs. */
  lemma ProbeReadsBack(h: Host, bytes: seq<byte>)
    requires HostOk(h) && ClashFree(h) && |h.addresses| <= MAX_JUMPS + 1
    requires SIZEOF_DNS_HDR <= |bytes| <= JUMP_TARGET_LIMIT
    requires MsgOk(h, ProbeMsg(h))
    requires Build(Fresh(bytes), PlanOf(h, ProbeMsg(h))).status == Ok
    ensures var k := Build(Fresh(bytes), PlanOf(h, ProbeMsg(h))).pkt;
            PlanReads(k.bytes, SIZEOF_DNS_HDR, PlanOf(h, ProbeMsg(h)), k.writeOffset)
    ensures Additional(h, ProbeMsg(h), 0) == []
  {
    hide Build, PlanReads, Encode;
    BuildAppends(Fresh(bytes), PlanOf(h, ProbeMsg(h)));
    MessageReadsBack(h, ProbeMsg(h), bytes, Build(Fresh(bytes), PlanOf(h, ProbeMsg(h))).pkt.bytes);
    NoAdditional(h, 0);
  }

  lemma {:induction false} NoAdditional(h: Host, i: nat)
    requires MsgOk(h, ProbeMsg(h)) && i <= |h.services|
    ensures Additional(h, ProbeMsg(h), i) == []
    decreases |h.services| - i
  {
    if i < |h.services| {
      NoAdditional(h, i + 1);
      if !ProbeMsg(h).aaaa {
        NoAddresses(h, ProbeMsg(h), 0);
      }
    }
  }

  lemma {:induction false} NoAddresses(h: Host, m: Msg, i: nat)
    requires HostOk(h) && i <= |h.addresses| && forall n :: 0 <= n < |h.addresses| ==> !h.addresses[n].valid
    ensures Addresses(h, m, i) == []
    decreases |h.addresses| - i
  {
    if i < |h.addresses| {
      NoAddresses(h, m, i + 1);
    }
  }
}
