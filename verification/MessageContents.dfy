/**
  What the messages of a host say: the questions and records found in their datagrams, spelled out
  label by label and number by number.
 */
module MessageContents {
  import opened Bytes
  import opened Bits
  import opened DomainNames
  import opened NameReader
  import opened NameWriter
  import opened Records
  import opened SelfParse
  import opened Packets
  import opened Families
  import opened Outpackets
  import opened SentPackets
  import opened ReverseLimit

  // ----- Names, spelled out

  /** The label of an ASCII text. */
  function Text(s: string): (l: Label)
    requires 1 <= |s| <= LABEL_MAXLEN && forall i :: 0 <= i < |s| ==> s[i] as int < 128
  {
    seq<byte>(|s|, i requires 0 <= i < |s| => s[i] as int)
  }

  function TheHostName(h: Host): (ls: seq<Label>) { [h.name, Text("local")] }

  function TheType(s: Service): (ls: seq<Label>) {
    [s.service, if s.tcp then Text("_tcp") else Text("_udp"), Text("local")]
  }

  function TheInstance(s: Service): (ls: seq<Label>) {
    [s.name, s.service, if s.tcp then Text("_tcp") else Text("_udp"), Text("local")]
  }

  function TheEnumeration(): (ls: seq<Label>) {
    [Text("_services"), Text("_dns-sd"), Text("_udp"), Text("local")]
  }

  /** Nibble `q` of an address, counted from the lowest of the last octet on. */
  function NibbleOf(octets: seq<byte>, q: nat): (n: nat)
    requires q < 2 * |octets|
    ensures n < 16
  {
    var b := octets[|octets| - 1 - q / 2] as int;
    if q % 2 == 0 then b % 16 else b / 16
  }

  function HexLabel(n: nat): (l: Label)
    requires n < 16
  {
    Text(["0123456789abcdef"[n]])
  }

  /** The name for the reverse lookup of an address. */
  function TheLookup(octets: seq<byte>): (ls: seq<Label>) {
    seq<Label>(2 * |octets|, q requires 0 <= q < 2 * |octets| => HexLabel(NibbleOf(octets, q)))
    + [Text("ip6"), Text("arpa")]
  }

  lemma Texts()
    ensures Text("local") == LOCAL && Text("_udp") == UDP && Text("_tcp") == TCP
    ensures Text("_services") == SERVICES && Text("_dns-sd") == DNS_SD
    ensures Text("ip6") == IP6 && Text("arpa") == ARPA
  {
  }

  lemma HexDigits(n: nat)
    requires n < 16
    ensures HexLabel(n) == [HexDigit(n)]
  {
  }

  lemma NamesSpelled(h: Host, s: Service)
    ensures HostName(h) == TheHostName(h) && DnsSd() == TheEnumeration()
    ensures ServiceType(s) == TheType(s) && Instance(s) == TheInstance(s)
  {
    Texts();
  }

  lemma LookupSpelled(octets: seq<byte>)
    ensures ReverseName(octets) == TheLookup(octets)
  {
    hide HexLabel, HexDigit, Text, Nibbles;
    var x, y := ReverseName(octets), TheLookup(octets);
    Texts();
    forall q | 0 <= q < 2 * |octets| ensures x[q] == y[q] {
      NibbleAt(octets, q);
      HexDigits(NibbleOf(octets, q));
    }
  }

  // ----- Records as they are read

  /** A record of class Internet: its data are the bytes `fixed` and, where there is one, the name `target`. */
  datatype Item = Item(owner: seq<Label>, rtype: nat, top: bool, ttl: nat, fixed: seq<byte>, target: Option<seq<Label>>)

  /** A pointer has a name as its data, a service record six bytes and a name, any other record bytes. */
  predicate Formed(x: Item) {
    if x.rtype == 12 then x.fixed == [] && x.target.Some?
    else if x.rtype == 33 then |x.fixed| == 6 && x.target.Some?
    else x.target.None?
  }

  /** The record read as `r` from the datagram `f` says `x`, up to where the next one begins. */
  ghost predicate Tells(f: seq<byte>, r: Answer, x: Item) {
    && r.domain == Encode(x.owner) && r.rtype == x.rtype && r.klass == 1 && r.top == x.top && r.ttl == x.ttl
    && r.rdOffset + r.rdLength == r.next
    && (x.fixed == [] || Holds(f, r.rdOffset, x.fixed))
    && match x.target
       case None => r.rdLength == |x.fixed|
       case Some(ls) =>
         r.rdOffset + |x.fixed| < U16_SIZE && ReadName(f, r.rdOffset + |x.fixed|) == Read(r.next, Encode(ls))
  }

  ghost predicate Told(f: seq<byte>, items: seq<Answer>, x: Item) {
    exists i :: 0 <= i < |items| && Tells(f, items[i], x)
  }

  function ItemOf(a: Record): (x: Item) {
    Item(a.rr.name, a.rr.rtype, a.rr.top, a.ttl, if a.fixed.Some? then a.fixed.value else [],
         if a.target.Some? then Some(a.target.value.ls) else None)
  }

  /** Of class Internet, and its name in full exactly if it is a service record for a legacy querier. */
  predicate Plain(m: Msg, a: Record) {
    && a.rr.klass == 1 && Formed(ItemOf(a))
    && (a.target.Some? ==> (a.target.value.skip <==> m.legacy && a.rr.rtype == 33))
  }

  /** Two items told by one record are the same. */
  lemma TellsOne(f: seq<byte>, r: Answer, x: Item, y: Item)
    requires Tells(f, r, x) && Tells(f, r, y) && Formed(x) && Formed(y)
    ensures x == y
  {
    hide Encode, ReadName;
    EncodeInjective(x.owner, y.owner);
    if x.target.Some? {
      EncodeInjective(x.target.value, y.target.value);
    }
    assert |x.fixed| == |y.fixed|;
    if x.fixed != [] {
      assert f[r.rdOffset..r.rdOffset + |x.fixed|] == x.fixed;
      assert f[r.rdOffset..r.rdOffset + |y.fixed|] == y.fixed;
    }
  }

  lemma RecordTells(m: Msg, f: seq<byte>, r: Answer, a: Record)
    requires AnswerIs(f, r, a) && Plain(m, a)
    ensures Tells(f, r, ItemOf(a))
  {
    hide Encode, ReadName;
  }

  ghost predicate Has(rs: seq<Record>, x: Item) {
    exists i :: 0 <= i < |rs| && ItemOf(rs[i]) == x
  }

  ghost predicate AllPlain(m: Msg, rs: seq<Record>) {
    forall i :: 0 <= i < |rs| ==> Plain(m, rs[i])
  }

  lemma SectionTells(m: Msg, f: seq<byte>, items: seq<Answer>, rs: seq<Record>, x: Item)
    requires AnswersAre(f, items, rs) && AllPlain(m, rs) && Formed(x)
    ensures Told(f, items, x) <==> Has(rs, x)
  {
    hide AnswerIs, Tells, ItemOf, Formed;
    forall i | 0 <= i < |rs| ensures Tells(f, items[i], ItemOf(rs[i])) && Formed(ItemOf(rs[i])) {
      RecordTells(m, f, items[i], rs[i]);
    }
    if Told(f, items, x) {
      var i :| 0 <= i < |items| && Tells(f, items[i], x);
      TellsOne(f, items[i], x, ItemOf(rs[i]));
    }
  }

  // ----- What a message is to say

  /** A legacy querier is told ten seconds at most. */
  function Life(m: Msg, seconds: nat): (ttl: nat) { if m.legacy then 10 else seconds }

  function AddressItem(h: Host, m: Msg, a: Address): (x: Item) {
    Item(TheHostName(h), 28, m.cacheFlush, Life(m, 120), a.octets, None)
  }

  function LookupItem(h: Host, m: Msg, a: Address): (x: Item) {
    Item(TheLookup(a.octets), 12, m.cacheFlush, Life(m, 120), [], Some(TheHostName(h)))
  }

  function TypeItem(m: Msg, s: Service): (x: Item) {
    Item(TheEnumeration(), 12, false, Life(m, 4500), [], Some(TheType(s)))
  }

  function InstanceItem(m: Msg, s: Service): (x: Item) {
    Item(TheType(s), 12, false, Life(m, 120), [], Some(TheInstance(s)))
  }

  /** Priority and weight are zero. */
  function ServiceItem(h: Host, m: Msg, s: Service): (x: Item)
    requires s.port < U16_SIZE
  {
    Item(TheInstance(s), 33, m.cacheFlush, Life(m, 120), [0, 0, 0, 0, s.port / 256, s.port % 256], Some(TheHostName(h)))
  }

  function TextItem(m: Msg, s: Service): (x: Item) {
    Item(TheInstance(s), 16, m.cacheFlush, Life(m, 120), s.txt, None)
  }

  /** An address of the host that is valid. */
  predicate IsAddress(h: Host, m: Msg, x: Item, i: nat) {
    i < |h.addresses| && h.addresses[i].valid && x == AddressItem(h, m, h.addresses[i])
  }

  /** An address with its bit in the mask. */
  predicate IsLookup(h: Host, m: Msg, x: Item, mask: nat, i: nat) {
    i < |h.addresses| && Bit(mask, i) && x == LookupItem(h, m, h.addresses[i])
  }

  /** A record of service `i`, by its four reply bits. */
  predicate IsOwn(h: Host, m: Msg, x: Item, i: nat)
    requires MsgOk(h, m)
  {
    && i < |h.services| && h.services[i].Some?
    && var s, r := h.services[i].value, m.replies[i];
    || (r.typePtr && x == TypeItem(m, s))
    || (r.namePtr && x == InstanceItem(m, s))
    || (r.srv && x == ServiceItem(h, m, s))
    || (r.txt && x == TextItem(m, s))
  }

  /** A record that goes with service `i`: what a browser needs next. */
  ghost predicate IsBeside(h: Host, m: Msg, x: Item, i: nat)
    requires MsgOk(h, m)
  {
    && i < |h.services| && h.services[i].Some?
    && var s, r := h.services[i].value, m.replies[i];
    || (r.namePtr && !r.srv && x == ServiceItem(h, m, s))
    || (r.namePtr && !r.txt && x == TextItem(m, s))
    || ((r.namePtr || r.srv) && !m.aaaa && exists n :: IsAddress(h, m, x, n))
  }

  ghost predicate IsChosen(h: Host, m: Msg, x: Item)
    requires MsgOk(h, m)
  {
    || (m.aaaa && exists i :: IsAddress(h, m, x, i))
    || (m.ptrV6 && exists i :: IsLookup(h, m, x, m.reverse, i))
    || exists i :: IsOwn(h, m, x, i)
  }

  // ----- The selected records say this

  lemma HasIf(m: Msg, c: bool, a: Record, rs: seq<Record>, x: Item)
    ensures Has(If(c, a) + rs, x) <==> (c && ItemOf(a) == x) || Has(rs, x)
    ensures AllPlain(m, If(c, a) + rs) <==> (c ==> Plain(m, a)) && AllPlain(m, rs)
  {
    hide ItemOf, Plain;
    var all, n := If(c, a) + rs, |If(c, a)|;
    assert forall i :: 0 <= i < |rs| ==> all[i + n] == rs[i];
    assert forall i :: n <= i < |all| ==> all[i] == rs[i - n];
    assert c ==> all[0] == a;
  }

  lemma HasConcat(m: Msg, xs: seq<Record>, ys: seq<Record>, x: Item)
    ensures Has(xs + ys, x) <==> Has(xs, x) || Has(ys, x)
    ensures AllPlain(m, xs + ys) <==> AllPlain(m, xs) && AllPlain(m, ys)
  {
    hide ItemOf, Plain;
    var all := xs + ys;
    assert forall i :: 0 <= i < |xs| ==> all[i] == xs[i];
    assert forall i :: 0 <= i < |ys| ==> all[i + |xs|] == ys[i];
    assert forall i :: |xs| <= i < |all| ==> all[i] == ys[i - |xs|];
  }

  lemma HasNone(m: Msg, rs: seq<Record>, x: Item)
    requires rs == []
    ensures !Has(rs, x) && AllPlain(m, rs)
  {
  }

  lemma HostItems(h: Host, m: Msg, a: Address)
    requires |a.octets| == 16
    ensures ItemOf(Aaaa(h, m, a)) == AddressItem(h, m, a) && Plain(m, Aaaa(h, m, a))
    ensures ItemOf(HostPtr(h, m, a)) == LookupItem(h, m, a) && Plain(m, HostPtr(h, m, a))
  {
    hide ReverseName, TheLookup, HostName, TheHostName;
    LookupSpelled(a.octets);
    NamesSpelled(h, Service([97], [97], false, 0, []));
  }

  lemma PointerItems(h: Host, m: Msg, s: Service)
    ensures ItemOf(TypePtr(m, s)) == TypeItem(m, s) && Plain(m, TypePtr(m, s))
    ensures ItemOf(NamePtr(m, s)) == InstanceItem(m, s) && Plain(m, NamePtr(m, s))
  {
    hide ServiceType, TheType, Instance, TheInstance, DnsSd, TheEnumeration, Encode;
    NamesSpelled(h, s);
  }

  lemma ServiceItemIs(h: Host, m: Msg, s: Service)
    requires s.port < U16_SIZE
    ensures ItemOf(Srv(h, m, s)) == ServiceItem(h, m, s) && Plain(m, Srv(h, m, s))
  {
    hide HostName, TheHostName, Instance, TheInstance, Encode;
    NamesSpelled(h, s);
  }

  lemma TextItemIs(h: Host, m: Msg, s: Service)
    requires |s.txt| <= DOMAIN_MAXLEN
    ensures ItemOf(Txt(m, s)) == TextItem(m, s) && Plain(m, Txt(m, s))
  {
    hide Instance, TheInstance, Encode;
    NamesSpelled(h, s);
  }

  lemma ServiceItems(h: Host, m: Msg, s: Service)
    requires s.port < U16_SIZE && |s.txt| <= DOMAIN_MAXLEN
    ensures ItemOf(TypePtr(m, s)) == TypeItem(m, s) && Plain(m, TypePtr(m, s))
    ensures ItemOf(NamePtr(m, s)) == InstanceItem(m, s) && Plain(m, NamePtr(m, s))
    ensures ItemOf(Srv(h, m, s)) == ServiceItem(h, m, s) && Plain(m, Srv(h, m, s))
    ensures ItemOf(Txt(m, s)) == TextItem(m, s) && Plain(m, Txt(m, s))
  {
    hide ItemOf, Plain, TypePtr, NamePtr, Srv, Txt, TypeItem, InstanceItem, ServiceItem, TextItem;
    PointerItems(h, m, s);
    ServiceItemIs(h, m, s);
    TextItemIs(h, m, s);
  }

  lemma {:induction false} AddressesHave(h: Host, m: Msg, i: nat, x: Item)
    requires HostOk(h) && i <= |h.addresses|
    ensures AllPlain(m, Addresses(h, m, i))
    ensures Has(Addresses(h, m, i), x) <==> exists j :: i <= j && IsAddress(h, m, x, j)
    decreases |h.addresses| - i
  {
    hide Aaaa, ItemOf, Plain, AddressItem, Has, AllPlain;
    if i == |h.addresses| {
      HasNone(m, Addresses(h, m, i), x);
    } else {
      var a := h.addresses[i];
      AddressesHave(h, m, i + 1, x);
      HostItems(h, m, a);
      HasIf(m, a.valid, Aaaa(h, m, a), Addresses(h, m, i + 1), x);
      assert a.valid && ItemOf(Aaaa(h, m, a)) == x <==> IsAddress(h, m, x, i);
    }
  }

  lemma {:induction false} ReversesHave(h: Host, m: Msg, mask: nat, i: nat, x: Item)
    requires HostOk(h) && i <= |h.addresses| && MaskFits(mask, |h.addresses| - i)
    ensures AllPlain(m, Reverses(h, m, mask, i))
    ensures Has(Reverses(h, m, mask, i), x) <==> exists j :: LookupFrom(h, m, x, mask, i, j)
    decreases mask
  {
    hide HostPtr, ItemOf, Plain, LookupItem, Has, AllPlain, Bit;
    if mask == 0 {
      HasNone(m, Reverses(h, m, mask, i), x);
      forall j ensures !LookupFrom(h, m, x, mask, i, j) {
        if j >= i {
          BitZero(j - i);
        }
      }
    } else {
      var a := h.addresses[i];
      ReversesHave(h, m, mask / 2, i + 1, x);
      HostItems(h, m, a);
      HasIf(m, mask % 2 == 1, HostPtr(h, m, a), Reverses(h, m, mask / 2, i + 1), x);
      FirstBit(mask);
      forall j ensures LookupFrom(h, m, x, mask, i, j)
        <==> (j == i && mask % 2 == 1 && ItemOf(HostPtr(h, m, a)) == x) || LookupFrom(h, m, x, mask / 2, i + 1, j)
      {
        if j > i {
          BitHalf(mask, j - i - 1);
        }
      }
      var half, next := mask / 2, i + 1;
      if mask % 2 == 1 && ItemOf(HostPtr(h, m, a)) == x {
        assert LookupFrom(h, m, x, mask, i, i);
      } else if j :| LookupFrom(h, m, x, half, next, j) {
        assert LookupFrom(h, m, x, mask, i, j);
      }
      if j :| LookupFrom(h, m, x, mask, i, j) {
        assert j == i || LookupFrom(h, m, x, half, next, j);
      }
    }
  }

  /** Address `j` has its bit in the rest of a mask that starts with address `i`. */
  predicate LookupFrom(h: Host, m: Msg, x: Item, mask: nat, i: nat, j: int) {
    i <= j < |h.addresses| && Bit(mask, j - i) && x == LookupItem(h, m, h.addresses[j])
  }

  lemma FirstBit(mask: nat)
    ensures Bit(mask, 0) <==> mask % 2 == 1
  {
  }

  lemma OwnHave(h: Host, m: Msg, i: nat, x: Item)
    requires MsgOk(h, m) && i < |h.services|
    ensures AllPlain(m, OwnRecords(h, m, i))
    ensures Has(OwnRecords(h, m, i), x) <==> IsOwn(h, m, x, i)
  {
    hide TypePtr, NamePtr, Srv, Txt, ItemOf, Plain, TypeItem, InstanceItem, ServiceItem, TextItem, Has, AllPlain;
    if h.services[i].None? {
      HasNone(m, OwnRecords(h, m, i), x);
    } else {
      var s, r := h.services[i].value, m.replies[i];
      ServiceItems(h, m, s);
      var d := If(r.txt, Txt(m, s));
      var c := If(r.srv, Srv(h, m, s)) + d;
      var b := If(r.namePtr, NamePtr(m, s)) + c;
      HasNone(m, [], x);
      assert d == d + [];
      HasIf(m, r.txt, Txt(m, s), [], x);
      HasIf(m, r.srv, Srv(h, m, s), d, x);
      HasIf(m, r.namePtr, NamePtr(m, s), c, x);
      HasIf(m, r.typePtr, TypePtr(m, s), b, x);
    }
  }

  lemma BesideHave(h: Host, m: Msg, i: nat, x: Item)
    requires MsgOk(h, m) && i < |h.services|
    ensures AllPlain(m, Extras(h, m, i))
    ensures Has(Extras(h, m, i), x) <==> IsBeside(h, m, x, i)
  {
    hide Srv, Txt, ItemOf, Plain, ServiceItem, TextItem, Has, AllPlain, Addresses, IsAddress;
    HasNone(m, [], x);
    if h.services[i].Some? {
      var s, r := h.services[i].value, m.replies[i];
      ServiceItems(h, m, s);
      AddressesHave(h, m, 0, x);
      var c := if (r.namePtr || r.srv || m.aaaa) && !m.aaaa then Addresses(h, m, 0) else [];
      var b := If(r.namePtr && !r.txt, Txt(m, s)) + c;
      HasIf(m, r.namePtr && !r.txt, Txt(m, s), c, x);
      HasIf(m, r.namePtr && !r.srv, Srv(h, m, s), b, x);
    }
  }

  lemma {:induction false} ServicesHave(h: Host, m: Msg, i: nat, x: Item)
    requires MsgOk(h, m) && i <= |h.services|
    ensures AllPlain(m, Services(h, m, i))
    ensures Has(Services(h, m, i), x) <==> exists j :: i <= j && IsOwn(h, m, x, j)
    decreases |h.services| - i
  {
    hide OwnRecords, Has, AllPlain, MsgOk;
    if i == |h.services| {
      HasNone(m, Services(h, m, i), x);
    } else {
      ServicesHave(h, m, i + 1, x);
      OwnHave(h, m, i, x);
      HasConcat(m, OwnRecords(h, m, i), Services(h, m, i + 1), x);
    }
  }

  lemma {:induction false} AdditionalHave(h: Host, m: Msg, i: nat, x: Item)
    requires MsgOk(h, m) && i <= |h.services|
    ensures AllPlain(m, Additional(h, m, i))
    ensures Has(Additional(h, m, i), x) <==> exists j :: i <= j && IsBeside(h, m, x, j)
    decreases |h.services| - i
  {
    hide Extras, Has, AllPlain, MsgOk, IsAddress;
    if i == |h.services| {
      HasNone(m, Additional(h, m, i), x);
    } else {
      AdditionalHave(h, m, i + 1, x);
      BesideHave(h, m, i, x);
      HasConcat(m, Extras(h, m, i), Additional(h, m, i + 1), x);
    }
  }

  lemma SelectedHave(h: Host, m: Msg, x: Item)
    requires MsgOk(h, m)
    ensures AllPlain(m, Selected(h, m))
    ensures Has(Selected(h, m), x) <==> IsChosen(h, m, x)
  {
    hide Addresses, Reverses, Services, Has, AllPlain, IsAddress, IsOwn, Bit, LookupItem;
    var a := if m.aaaa then Addresses(h, m, 0) else [];
    var b := if m.ptrV6 then Reverses(h, m, m.reverse, 0) else [];
    HasNone(m, [], x);
    AddressesHave(h, m, 0, x);
    ReversesHave(h, m, m.reverse, 0, x);
    ServicesHave(h, m, 0, x);
    HasConcat(m, b, Services(h, m, 0), x);
    HasConcat(m, a, b + Services(h, m, 0), x);
    forall j: nat ensures LookupFrom(h, m, x, m.reverse, 0, j) <==> IsLookup(h, m, x, m.reverse, j) {
    }
  }

  // ----- How many there are

  function One(b: bool): (n: nat) { if b then 1 else 0 }

  /** How many addresses are valid. */
  function CountValid(addresses: seq<Address>): (n: nat)
    ensures n <= |addresses|
  {
    if addresses == [] then 0 else One(addresses[0].valid) + CountValid(addresses[1..])
  }

  /** How many bits of a mask are set. */
  function CountBits(mask: nat): (n: nat) {
    if mask == 0 then 0 else mask % 2 + CountBits(mask / 2)
  }

  /** How many reply bits are set for the services from `i` on. */
  function CountOwn(h: Host, m: Msg, i: nat): (n: nat)
    requires MsgOk(h, m) && i <= |h.services|
    decreases |h.services| - i
  {
    if i == |h.services| then 0
    else
      var r := m.replies[i];
      CountOwn(h, m, i + 1)
      + if h.services[i].Some? then One(r.typePtr) + One(r.namePtr) + One(r.srv) + One(r.txt) else 0
  }

  /** How many records go with them; the addresses go with every service once. */
  function CountBeside(h: Host, m: Msg, i: nat): (n: nat)
    requires MsgOk(h, m) && i <= |h.services|
    decreases |h.services| - i
  {
    if i == |h.services| then 0
    else
      var r := m.replies[i];
      CountBeside(h, m, i + 1)
      + if h.services[i].None? then 0
        else One(r.namePtr && !r.srv) + One(r.namePtr && !r.txt)
             + if (r.namePtr || r.srv) && !m.aaaa then CountValid(h.addresses) else 0
  }

  function CountChosen(h: Host, m: Msg): (n: nat)
    requires MsgOk(h, m)
  {
    (if m.aaaa then CountValid(h.addresses) else 0) + (if m.ptrV6 then CountBits(m.reverse) else 0) + CountOwn(h, m, 0)
  }

  /** How many names a message asks about. */
  function CountProbes(h: Host, m: Msg, i: nat): (n: nat)
    requires MsgOk(h, m) && i <= |h.services|
    decreases |h.services| - i
  {
    if i == |h.services| then One(m.probeHost)
    else CountProbes(h, m, i + 1) + One(h.services[i].Some? && m.probeService[i])
  }

  lemma {:induction false} AddressesCounted(h: Host, m: Msg, i: nat)
    requires HostOk(h) && i <= |h.addresses|
    ensures |Addresses(h, m, i)| == CountValid(h.addresses[i..])
    decreases |h.addresses| - i
  {
    hide Aaaa;
    if i < |h.addresses| {
      AddressesCounted(h, m, i + 1);
      assert h.addresses[i..][0] == h.addresses[i] && h.addresses[i..][1..] == h.addresses[i + 1..];
    }
  }

  lemma {:induction false} ReversesCounted(h: Host, m: Msg, mask: nat, i: nat)
    requires HostOk(h) && i <= |h.addresses| && MaskFits(mask, |h.addresses| - i)
    ensures |Reverses(h, m, mask, i)| == CountBits(mask)
    decreases mask
  {
    hide HostPtr;
    if mask != 0 {
      ReversesCounted(h, m, mask / 2, i + 1);
    }
  }

  lemma IfCounted<T>(c: bool, x: T)
    ensures |If(c, x)| == One(c)
  {
  }

  lemma OwnCounted(h: Host, m: Msg, i: nat)
    requires MsgOk(h, m) && i < |h.services|
    ensures var r := m.replies[i];
            |OwnRecords(h, m, i)|
            == if h.services[i].Some? then One(r.typePtr) + One(r.namePtr) + One(r.srv) + One(r.txt) else 0
  {
    hide TypePtr, NamePtr, Srv, Txt, If, One;
    if h.services[i].Some? {
      var s, r := h.services[i].value, m.replies[i];
      IfCounted(r.typePtr, TypePtr(m, s));
      IfCounted(r.namePtr, NamePtr(m, s));
      IfCounted(r.srv, Srv(h, m, s));
      IfCounted(r.txt, Txt(m, s));
    }
  }

  lemma {:induction false} ServicesCounted(h: Host, m: Msg, i: nat)
    requires MsgOk(h, m) && i <= |h.services|
    ensures |Services(h, m, i)| == CountOwn(h, m, i)
    decreases |h.services| - i
  {
    hide OwnRecords, One;
    if i < |h.services| {
      ServicesCounted(h, m, i + 1);
      OwnCounted(h, m, i);
    }
  }

  lemma BesideCounted(h: Host, m: Msg, i: nat)
    requires MsgOk(h, m) && i < |h.services|
    ensures var r := m.replies[i];
            |Extras(h, m, i)|
            == if h.services[i].None? then 0
               else One(r.namePtr && !r.srv) + One(r.namePtr && !r.txt)
                    + if (r.namePtr || r.srv) && !m.aaaa then CountValid(h.addresses) else 0
  {
    hide Srv, Txt, Addresses, If, One, CountValid;
    AddressesCounted(h, m, 0);
    assert h.addresses[0..] == h.addresses;
    if h.services[i].Some? {
      var s, r := h.services[i].value, m.replies[i];
      IfCounted(r.namePtr && !r.srv, Srv(h, m, s));
      IfCounted(r.namePtr && !r.txt, Txt(m, s));
    }
  }

  lemma {:induction false} AdditionalCounted(h: Host, m: Msg, i: nat)
    requires MsgOk(h, m) && i <= |h.services|
    ensures |Additional(h, m, i)| == CountBeside(h, m, i)
    decreases |h.services| - i
  {
    hide Extras, One, CountValid;
    if i < |h.services| {
      AdditionalCounted(h, m, i + 1);
      BesideCounted(h, m, i);
    }
  }

  lemma {:induction false} ProbesCounted(h: Host, m: Msg, i: nat)
    requires MsgOk(h, m) && i <= |h.services|
    ensures |Probes(h, m, i)| + One(m.probeHost) == CountProbes(h, m, i)
    decreases |h.services| - i
  {
    hide Instance, AnyQuestion;
    if i < |h.services| {
      ProbesCounted(h, m, i + 1);
    }
  }

  lemma SelectedCounted(h: Host, m: Msg)
    requires MsgOk(h, m)
    ensures |Selected(h, m)| == CountChosen(h, m)
  {
    hide Addresses, Reverses, Services, CountOwn, CountBits, CountValid;
    AddressesCounted(h, m, 0);
    assert h.addresses[0..] == h.addresses;
    ReversesCounted(h, m, m.reverse, 0);
    ServicesCounted(h, m, 0);
  }

  // ----- The questions

  /** A question for all records of a name, with a unicast answer welcome. */
  ghost predicate AsksAll(q: Question, ls: seq<Label>) {
    q.domain == Encode(ls) && q.rtype == 255 && q.klass == 1 && q.top
  }

  ghost predicate Asked(items: seq<Question>, ls: seq<Label>) {
    exists i :: 0 <= i < |items| && AsksAll(items[i], ls)
  }

  predicate IsProbed(h: Host, m: Msg, ls: seq<Label>, i: nat)
    requires MsgOk(h, m)
  {
    i < |h.services| && h.services[i].Some? && m.probeService[i] && ls == TheInstance(h.services[i].value)
  }

  /** The host name or a service instance, as the message has it. */
  ghost predicate ToProbe(h: Host, m: Msg, ls: seq<Label>)
    requires MsgOk(h, m)
  {
    (m.probeHost && ls == TheHostName(h)) || exists i :: IsProbed(h, m, ls, i)
  }

  /** The question of a legacy querier, repeated: what the first record answers. */
  predicate Repeats(q: Question, r: Answer) {
    q.domain == r.domain && q.rtype == r.rtype && q.klass == 1 && !q.top
  }

  ghost predicate Wants(qs: seq<Rr>, ls: seq<Label>) {
    exists i :: 0 <= i < |qs| && qs[i].name == ls
  }

  /** All questions are for any records of class Internet. */
  predicate AllAny(qs: seq<Rr>) {
    forall i :: 0 <= i < |qs| ==> qs[i].rtype == 255 && qs[i].klass == 1 && qs[i].top
  }

  lemma WantsIf(c: bool, q: Rr, qs: seq<Rr>, ls: seq<Label>)
    ensures Wants(If(c, q) + qs, ls) <==> (c && q.name == ls) || Wants(qs, ls)
    ensures AllAny(If(c, q) + qs) <==> (c ==> q.rtype == 255 && q.klass == 1 && q.top) && AllAny(qs)
  {
    var all, n := If(c, q) + qs, |If(c, q)|;
    assert forall i :: 0 <= i < |qs| ==> all[i + n] == qs[i];
    assert forall i :: n <= i < |all| ==> all[i] == qs[i - n];
    assert c ==> all[0] == q;
  }

  lemma {:induction false} ProbesWant(h: Host, m: Msg, i: nat, ls: seq<Label>)
    requires MsgOk(h, m) && i <= |h.services|
    ensures AllAny(Probes(h, m, i))
    ensures Wants(Probes(h, m, i), ls) <==> exists j :: i <= j && IsProbed(h, m, ls, j)
    decreases |h.services| - i
  {
    hide Wants, AllAny, Instance, TheInstance, Encode;
    if i == |h.services| {
      NothingWanted(Probes(h, m, i), ls);
    } else {
      var rest := Probes(h, m, i + 1);
      ProbesWant(h, m, i + 1, ls);
      if h.services[i].Some? {
        var s := h.services[i].value;
        InstanceFits(s);
        NamesSpelled(h, s);
        WantsIf(m.probeService[i], AnyQuestion(Instance(s)), rest, ls);
        assert Probes(h, m, i) == If(m.probeService[i], AnyQuestion(Instance(s))) + rest;
        assert m.probeService[i] && AnyQuestion(Instance(s)).name == ls <==> IsProbed(h, m, ls, i);
      } else {
        assert Probes(h, m, i) == rest;
      }
    }
  }

  lemma NothingWanted(qs: seq<Rr>, ls: seq<Label>)
    requires qs == []
    ensures !Wants(qs, ls) && AllAny(qs)
  {
  }

  lemma QuestionsWant(h: Host, m: Msg, ls: seq<Label>)
    requires MsgOk(h, m)
    ensures AllAny(ProbeQuestions(h, m))
    ensures Wants(ProbeQuestions(h, m), ls) <==> ToProbe(h, m, ls)
    ensures |ProbeQuestions(h, m)| == CountProbes(h, m, 0)
  {
    hide Probes, Wants, AllAny, Encode, IsProbed, HostName, TheHostName;
    FixedNamesFit(h);
    ProbesWant(h, m, 0, ls);
    ProbesCounted(h, m, 0);
    NamesSpelled(h, Service([97], [97], false, 0, []));
    WantsIf(m.probeHost, AnyQuestion(HostName(h)), Probes(h, m, 0), ls);
  }

  lemma QuestionsAsked(items: seq<Question>, qs: seq<Rr>, ls: seq<Label>)
    requires QuestionsAre(items, qs) && AllAny(qs)
    ensures Asked(items, ls) <==> Wants(qs, ls)
  {
    hide Encode;
    if Asked(items, ls) {
      var i :| 0 <= i < |items| && AsksAll(items[i], ls);
      assert QuestionIs(items[i], qs[i]);
      EncodeInjective(ls, qs[i].name);
    }
    if Wants(qs, ls) {
      var i :| 0 <= i < |qs| && qs[i].name == ls;
      assert QuestionIs(items[i], qs[i]);
      assert AsksAll(items[i], ls);
    }
  }

  // ----- The datagram

  /** The records of the message itself: answers of a response, claims of a probe. */
  function MainSection(p: Parsed): (items: seq<Answer>) {
    if p.flags >= 0x80 then p.answers else p.authoritative
  }

  function OtherSection(p: Parsed): (items: seq<Answer>) {
    if p.flags >= 0x80 then p.authoritative else p.answers
  }

  /** The names in service records are written out, without a pointer (section 18.14 of RFC 6762). */
  ghost predicate InFull(f: seq<byte>, items: seq<Answer>) {
    forall i :: 0 <= i < |items| && items[i].rtype == 33 ==> NameInFull(f, items[i].rdOffset + 6)
  }

  ghost predicate NameInFull(f: seq<byte>, off: nat) {
    off < U16_SIZE && Holds(f, off, ReadName(f, off).name)
  }

  lemma SectionInFull(m: Msg, f: seq<byte>, items: seq<Answer>, rs: seq<Record>)
    requires AnswersAre(f, items, rs) && AllPlain(m, rs) && m.legacy
    ensures InFull(f, items)
  {
    hide Encode, ReadName;
    forall i | 0 <= i < |items| && items[i].rtype == 33 ensures NameInFull(f, items[i].rdOffset + 6) {
      assert AnswerIs(f, items[i], rs[i]) && Plain(m, rs[i]);
    }
  }

  /** All other names are left to the compressor. */
  lemma InFullOnly(h: Host, m: Msg)
    requires MsgOk(h, m)
    ensures forall a :: a in PlanOf(h, m).records && a.target.Some? ==>
              (a.target.value.skip <==> m.legacy && a.rr.rtype == TYPE_SRV)
  {
    hide Selected, Additional, ItemOf;
    var x := Item([], 0, false, 0, [], None);
    SelectedHave(h, m, x);
    AdditionalHave(h, m, 0, x);
    HasConcat(m, Selected(h, m), Additional(h, m, 0), x);
    forall a | a in PlanOf(h, m).records ensures Plain(m, a) {
      assert a in Selected(h, m) + Additional(h, m, 0);
    }
  }

  /**
    The questions: a probe asks for its names, as many questions as names; a legacy reply that
    asks nothing repeats the one question of its first record.
   */
  ghost predicate SaysQuestions(p: Parsed, h: Host, m: Msg)
    requires MsgOk(h, m)
  {
    var main, n := MainSection(p), CountProbes(h, m, 0);
    if m.legacy && n == 0 && main != [] then |p.questions| == 1 && Repeats(p.questions[0], main[0])
    else |p.questions| == n && forall ls :: Asked(p.questions, ls) <==> ToProbe(h, m, ls)
  }

  /** The records: an item is told if and only if its bit, its service or its valid address is there. */
  ghost predicate SaysRecords(f: seq<byte>, p: Parsed, h: Host, m: Msg)
    requires MsgOk(h, m)
  {
    && (forall x :: Formed(x) ==> (Told(f, MainSection(p), x) <==> IsChosen(h, m, x)))
    && (forall x :: Formed(x) ==> (Told(f, p.additional, x) <==> exists i :: IsBeside(h, m, x, i)))
    && (m.legacy ==> InFull(f, MainSection(p)) && InFull(f, p.additional))
    && |MainSection(p)| == CountChosen(h, m) && |p.additional| == CountBeside(h, m, 0) && OtherSection(p) == []
  }

  ghost predicate Says(f: seq<byte>, h: Host, m: Msg)
    requires MsgOk(h, m)
  {
    SIZEOF_DNS_HDR <= |f| <= UDP_PAYLOAD_MAX && f[3] == 0 && ReadPacket(f).Some?
    && var p := ReadPacket(f).value;
       p.id == m.id && p.flags == m.flags && SaysQuestions(p, h, m) && SaysRecords(f, p, h, m)
  }

  lemma {:induction false} NoneBeside(h: Host, m: Msg, i: nat)
    requires MsgOk(h, m) && i <= |h.services| && CountOwn(h, m, i) == 0
    ensures CountBeside(h, m, i) == 0
    decreases |h.services| - i
  {
    if i < |h.services| {
      NoneBeside(h, m, i + 1);
    }
  }

  /** Nothing goes with nothing. */
  lemma NoExtras(h: Host, m: Msg)
    requires MsgOk(h, m) && Selected(h, m) == []
    ensures Additional(h, m, 0) == []
  {
    hide Selected, Additional, CountOwn, CountBeside;
    SelectedCounted(h, m);
    NoneBeside(h, m, 0);
    AdditionalCounted(h, m, 0);
  }

  lemma RepeatsFirst(m: Msg, f: seq<byte>, q: Question, r: Answer, a: Record)
    requires QuestionIs(q, a.rr.(top := false)) && AnswerIs(f, r, a) && Plain(m, a)
    ensures Repeats(q, r)
  {
    hide Encode, DataReads;
  }

  lemma QuestionsSaid(f: seq<byte>, p: Parsed, h: Host, m: Msg)
    requires MsgOk(h, m) && Shows(f, p, h, m)
    ensures SaysQuestions(p, h, m)
  {
    hide Selected, Additional, ProbeQuestions, AnswerIs, AllAny, Wants, ToProbe, Asked, CountProbes, QuestionIs;
    hide Plain, Repeats;
    var qs, rs, plan := ProbeQuestions(h, m), Selected(h, m), PlanOf(h, m);
    QuestionsWant(h, m, []);
    if rs == [] {
      NoExtras(h, m);
    }
    if m.legacy && |qs| == 0 && rs != [] {
      assert plan.questions == [rs[0].rr.(top := false)];
      SelectedHave(h, m, Item([], 0, false, 0, [], None));
      RepeatsFirst(m, f, p.questions[0], MainSection(p)[0], rs[0]);
    } else {
      assert plan.questions == qs;
      forall ls ensures Asked(p.questions, ls) <==> ToProbe(h, m, ls) {
        QuestionsWant(h, m, ls);
        QuestionsAsked(p.questions, qs, ls);
      }
    }
  }

  lemma RecordsSaid(f: seq<byte>, p: Parsed, h: Host, m: Msg)
    requires MsgOk(h, m) && Shows(f, p, h, m)
    ensures SaysRecords(f, p, h, m)
  {
    hide Selected, Additional, PlanOf, AnswerIs, AllPlain, InFull, Has, Told, IsChosen, IsBeside, Formed, CountChosen, CountBeside;
    SelectedCounted(h, m);
    AdditionalCounted(h, m, 0);
    if m.legacy {
      var x := Item([], 0, false, 0, [], None);
      SelectedHave(h, m, x);
      AdditionalHave(h, m, 0, x);
      SectionInFull(m, f, MainSection(p), Selected(h, m));
      SectionInFull(m, f, p.additional, Additional(h, m, 0));
    }
    forall x | Formed(x) ensures Told(f, MainSection(p), x) <==> IsChosen(h, m, x) {
      SelectedHave(h, m, x);
      SectionTells(m, f, MainSection(p), Selected(h, m), x);
    }
    forall x | Formed(x) ensures Told(f, p.additional, x) <==> exists i :: IsBeside(h, m, x, i) {
      AdditionalHave(h, m, 0, x);
      SectionTells(m, f, p.additional, Additional(h, m, 0), x);
    }
  }

  lemma SecondFlags(h: Host, m: Msg, bytes: seq<byte>)
    requires SIZEOF_DNS_HDR <= |bytes| <= JUMP_TARGET_LIMIT
    requires MsgOk(h, m) && Build(Fresh(bytes), PlanOf(h, m)).status == Ok
    ensures var f := SentFor(h, m, bytes); SIZEOF_DNS_HDR <= |f| && f[3] == 0
  {
    hide Build, PlanOf, CountsOf;
    CountsFit(Fresh(bytes), h, m);
  }

  /**
    What a message says, in full: its questions, which records its reply bits put into which
    section, and how many, as they are read from the datagram.
   */
  lemma MessageSays(h: Host, m: Msg, bytes: seq<byte>)
    requires SIZEOF_DNS_HDR <= |bytes| <= JUMP_TARGET_LIMIT
    requires MsgOk(h, m) && Build(Fresh(bytes), PlanOf(h, m)).status == Ok && SentReads(h, m, bytes)
    ensures Says(SentFor(h, m, bytes), h, m)
  {
    hide Build, PlanOf, SentFor, SaysQuestions, SaysRecords, QuestionsAre, AnswersAre;
    var f := SentFor(h, m, bytes);
    assert SIZEOF_DNS_HDR <= |f| && f[3] == 0 by { SecondFlags(h, m, bytes); }
    QuestionsSaid(f, ReadPacket(f).value, h, m);
    RecordsSaid(f, ReadPacket(f).value, h, m);
  }
}
