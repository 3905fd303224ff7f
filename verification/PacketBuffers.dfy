/**
  `mdns_out.c` on the packet buffer itself: questions, records and whole messages.
 */
module PacketBuffers {
  import opened Bytes
  import opened DomainNames
  import opened NameReader
  import opened NameWriter
  import opened NameRuns
  import opened NameBuffers
  import opened Records
  import opened Packets
  import opened Families
  import opened Outpackets
  import opened SentPackets
  import opened MessageContents

  /** The builders of `mdns_domain.c`: one `mdns_domain_add_label` per label, then the root label. */
  method BuildDomain(ls: seq<Label>, skip: bool) returns (domain: Domain)
    requires |Encode(ls)| <= DOMAIN_MAXLEN
    ensures fresh(domain) && fresh(domain.name) && domain.Valid()
    ensures domain.Contents() == Encode(ls) && domain.skipCompression == skip
  {
    domain := new Domain();
    domain.skipCompression := skip;
    for i := 0 to |ls|
      invariant fresh(domain) && fresh(domain.name) && domain.Valid() && domain.skipCompression == skip
      invariant domain.Contents() == Head(ls, i)
    {
      HeadNext(ls, i);
      var status := domain.AddLabel(ls[i]);
    }
    HeadEncode(ls, |ls|);
    assert Encode(ls) == Head(ls, |ls|) + [0] by { assert ls[|ls|..] == []; }
    var status := domain.AddLabel([]);
  }

  lemma HeadNext(ls: seq<Label>, i: nat)
    requires i < |ls| && |Encode(ls)| <= DOMAIN_MAXLEN
    ensures Head(ls, i + 1) == Head(ls, i) + [|ls[i]|] + ls[i]
    ensures |Head(ls, i)| + |ls[i]| + 2 <= DOMAIN_MAXLEN
  {
    hide Encode;
    HeadAdd(ls, i);
    HeadEncode(ls, i + 1);
  }

  lemma {:induction false} HeadAdd(ls: seq<Label>, i: nat)
    requires i < |ls|
    ensures Head(ls, i + 1) == Head(ls, i) + [|ls[i]|] + ls[i]
  {
    if i > 0 {
      HeadAdd(ls[1..], i - 1);
    } else {
      assert Head(ls[1..], 0) == [];
    }
  }

  /** `mdns_add_question`. */
  method PutQuestion(pkt: OutPacket, rr: Rr) returns (status: Status)
    requires pkt.Valid() && RrOk(rr)
    modifies pkt`writeOffset, pkt.pbuf, pkt.domainOffsets
    ensures Written(status, pkt.View()) == AddQuestion(old(pkt.View()), rr)
    ensures status == Ok ==> pkt.Valid()
  {
    hide Encode, WriteDomain, Splice;
    var domain := BuildDomain(rr.name, false);
    if pkt.writeOffset + domain.length + 4 > pkt.pbuf.Length {
      return ErrMem;
    }
    ghost var k, n, t, c := pkt.View(), Name(rr.name, false), Raw(Be16(rr.rtype)), Raw(Be16(ClassField(rr)));
    RunOne(k, n, [t, c]);
    assert QuestionOps(rr) == [n] + [t, c];
    status := pkt.Write(domain);
    if status != Ok {
      return;
    }
    ApplyAppends(k, n);
    RunOne(pkt.View(), t, [c]);
    status := PutRaw(pkt, Be16(rr.rtype));
    if status != Ok {
      return;
    }
    assert WellSized(pkt.View());
    RunOne(pkt.View(), c, []);
    status := PutRaw(pkt, Be16(ClassField(rr)));
    assert status == Ok ==> WellSized(pkt.View());
  }

  /** A store at the write offset that moves it on. */
  method PutRaw(pkt: OutPacket, data: seq<byte>) returns (status: Status)
    modifies pkt`writeOffset, pkt.pbuf
    ensures Written(status, pkt.View()) == TakeRaw(old(pkt.View()), data)
  {
    hide Splice;
    status := pkt.TakeAt(data, pkt.writeOffset);
    if status == Ok {
      pkt.writeOffset := pkt.writeOffset + |data|;
    }
  }

  /** What follows the time to live: the data, and its length in front of it. */
  ghost function CloseRecord(head: Pkt, a: Record): (r: Written)
    requires WellSized(Skip(head, 2)) && RecordOk(a)
  {
    var data := WriteData(Skip(head, 2), a);
    var len := data.pkt.writeOffset - (head.writeOffset + 2);
    if data.status != Ok then data
    else if !Fits(data.pkt.bytes, 2, head.writeOffset) then Written(ErrMem, data.pkt)
    else Written(Ok, Patch(data.pkt, head.writeOffset, Be16(len % U16_SIZE)))
  }

  lemma AnswerCloses(k: Pkt, a: Record)
    requires WellSized(k) && RecordOk(a) && k.writeOffset + AnswerLen(a) <= |k.bytes|
    ensures WellSized(AddQuestion(k, a.rr).pkt) && AddQuestion(k, a.rr).status == Ok
    ensures var r := OpenRecord(k, a); r.status == Ok && WellSized(r.pkt) && WellSized(Skip(r.pkt, 2))
    ensures AddAnswer(k, a) == CloseRecord(OpenRecord(k, a).pkt, a)
    ensures AddAnswer(k, a).status == Ok ==> WellSized(AddAnswer(k, a).pkt)
  {
    hide Encode, WriteData, OpenRecord, AddQuestion, Splice;
    OpenRecordFits(k, a);
    DataFits(Skip(OpenRecord(k, a).pkt, 2), a);
  }

  /** The data of a record and, at the place left for it, its length. */
  method PutTail(pkt: OutPacket, a: Record) returns (status: Status)
    requires pkt.Valid() && WellSized(Skip(pkt.View(), 2)) && RecordOk(a)
    modifies pkt`writeOffset, pkt.pbuf, pkt.domainOffsets
    ensures Written(status, pkt.View()) == CloseRecord(old(pkt.View()), a)
  {
    hide Encode, WriteData, Splice;
    var lenOffset := pkt.writeOffset;
    pkt.writeOffset := pkt.writeOffset + 2;
    status := PutData(pkt, a);
    if status != Ok {
      return;
    }
    status := pkt.TakeAt(Be16((pkt.writeOffset - (lenOffset + 2)) % U16_SIZE), lenOffset);
  }

  /** `mdns_add_answer`. */
  method PutAnswer(pkt: OutPacket, a: Record) returns (status: Status)
    requires pkt.Valid() && RecordOk(a)
    modifies pkt`writeOffset, pkt.pbuf, pkt.domainOffsets
    ensures Written(status, pkt.View()) == AddAnswer(old(pkt.View()), a)
    ensures status == Ok ==> pkt.Valid()
  {
    hide Encode, AddQuestion, TakeRaw, CloseRecord, RecordOk, WellSized;
    ghost var k := pkt.View();
    if pkt.writeOffset + AnswerLen(a) > pkt.pbuf.Length {
      return ErrMem;
    }
    AnswerCloses(k, a);
    assert RrOk(a.rr) && a.ttl < U32_SIZE by { RecordParts(a); }
    var ignored := PutQuestion(pkt, a.rr);
    status := PutRaw(pkt, Be32(a.ttl));
    if status != Ok {
      return;
    }
    status := PutTail(pkt, a);
  }

  lemma RecordParts(a: Record)
    requires RecordOk(a)
    ensures RrOk(a.rr) && a.ttl < U32_SIZE
  {
  }

  /** The data of a record. */
  method PutData(pkt: OutPacket, a: Record) returns (status: Status)
    requires pkt.Valid() && RecordOk(a)
    modifies pkt`writeOffset, pkt.pbuf, pkt.domainOffsets
    ensures Written(status, pkt.View()) == WriteData(old(pkt.View()), a)
  {
    hide Encode, WriteDomain;
    status := Ok;
    if a.fixed.Some? {
      status := PutRaw(pkt, a.fixed.value);
    }
    if status == Ok && a.target.Some? {
      var domain := BuildDomain(a.target.value.ls, a.target.value.skip);
      status := pkt.Write(domain);
    }
  }

  // ----- Messages

  /** The probe questions of a message, each counted. */
  method PutProbes(pkt: OutPacket, h: Host, m: Msg) returns (status: Status)
    requires pkt.Valid() && MsgOk(h, m)
    modifies pkt`writeOffset, pkt`questions, pkt.pbuf, pkt.domainOffsets
    ensures Written(status, pkt.View()) == AddQuestions(old(pkt.View()), ProbeQuestions(h, m))
    ensures status == Ok ==> pkt.Valid() && pkt.questions == old(pkt.questions) + |ProbeQuestions(h, m)|
  {
    hide Encode, AddQuestion, AddQuestions, RrOk, WellSized;
    ghost var k, n := pkt.View(), pkt.questions;
    FixedNamesFit(h);
    status := PutWanted(pkt, m.probeHost, AnyQuestion(HostName(h)), Probes(h, m, 0));
    if status != Ok {
      return;
    }
    for i := 0 to |h.services|
      invariant pkt.Valid()
      invariant AddQuestions(k, ProbeQuestions(h, m)) == AddQuestions(pkt.View(), Probes(h, m, i))
      invariant pkt.questions + |Probes(h, m, i)| == n + |ProbeQuestions(h, m)|
    {
      if h.services[i].Some? {
        InstanceFits(h.services[i].value);
        status := PutWanted(pkt, m.probeService[i], AnyQuestion(Instance(h.services[i].value)), Probes(h, m, i + 1));
        if status != Ok {
          return;
        }
      } else {
        assert Probes(h, m, i) == Probes(h, m, i + 1);
      }
    }
    NoQuestions(pkt.View(), Probes(h, m, |h.services|));
    status := Ok;
  }

  /** A question if it is wanted, in front of the questions `rest`. */
  method PutWanted(pkt: OutPacket, wanted: bool, q: Rr, ghost rest: seq<Rr>) returns (status: Status)
    requires pkt.Valid() && RrOk(q) && forall x :: x in rest ==> RrOk(x)
    modifies pkt`writeOffset, pkt`questions, pkt.pbuf, pkt.domainOffsets
    ensures status == Ok ==> pkt.Valid() && pkt.questions == old(pkt.questions) + |If(wanted, q)|
    ensures AddQuestions(old(pkt.View()), If(wanted, q) + rest)
         == if status != Ok then Written(status, pkt.View()) else AddQuestions(pkt.View(), rest)
  {
    hide Encode, AddQuestion, RrOk, WellSized;
    status := Ok;
    assert [q] + rest == [q] + rest && ([q] + rest)[1..] == rest && [] + rest == rest;
    if wanted {
      status := PutQuestion(pkt, q);
      if status == Ok {
        pkt.questions := pkt.questions + 1;
      }
    }
  }

  /** A record of a message: for a legacy querier its question goes first if there is none yet. */
  method PutRecord(pkt: OutPacket, legacy: bool, a: Record) returns (status: Status)
    requires pkt.Valid() && RecordOk(a)
    modifies pkt`writeOffset, pkt`questions, pkt.pbuf, pkt.domainOffsets
    ensures Made(status, pkt.View(), pkt.questions) == AddRecord(old(pkt.View()), old(pkt.questions), legacy, a)
    ensures status == Ok ==> pkt.Valid()
  {
    hide Encode, AddQuestion, AddAnswer, WellSized;
    if legacy {
      if pkt.questions < 1 {
        status := PutQuestion(pkt, a.rr.(top := false));
        if status != Ok {
          return;
        }
        pkt.questions := 1;
      }
    }
    status := PutAnswer(pkt, a);
  }

  /** A record if it is wanted, in front of the records `rest`; `n` counts it. */
  method PutSelected(pkt: OutPacket, legacy: bool, wanted: bool, a: Record, ghost rest: seq<Record>)
    returns (status: Status, n: nat)
    requires pkt.Valid() && RecordOk(a) && AllOk(rest)
    modifies pkt`writeOffset, pkt`questions, pkt.pbuf, pkt.domainOffsets
    ensures status == Ok ==> pkt.Valid() && n == |If(wanted, a)|
    ensures AddRecords(old(pkt.View()), old(pkt.questions), legacy, If(wanted, a) + rest) == Rest(pkt, status, legacy, rest)
  {
    hide Encode, AddRecord, RecordOk, WellSized;
    status, n := Ok, 0;
    assert ([a] + rest)[1..] == rest && [] + rest == rest;
    if wanted {
      status := PutRecord(pkt, legacy, a);
      n := 1;
    }
  }

  /** What the packet comes to: as it is after a failure, else with the records `rest` to go. */
  ghost function Rest(pkt: OutPacket, status: Status, legacy: bool, rest: seq<Record>): (r: Made)
    requires (status == Ok ==> pkt.Valid()) && AllOk(rest)
    reads pkt, pkt.pbuf, pkt.domainOffsets
  {
    if status != Ok then Made(status, pkt.View(), pkt.questions)
    else AddRecords(pkt.View(), pkt.questions, legacy, rest)
  }

  /** The loop over the host's addresses. */
  method PutAddresses(pkt: OutPacket, h: Host, m: Msg) returns (status: Status, n: nat)
    requires pkt.Valid() && HostOk(h)
    modifies pkt`writeOffset, pkt`questions, pkt.pbuf, pkt.domainOffsets
    ensures Made(status, pkt.View(), pkt.questions)
         == AddRecords(old(pkt.View()), old(pkt.questions), m.legacy, Addresses(h, m, 0))
    ensures status == Ok ==> pkt.Valid() && n == |Addresses(h, m, 0)|
  {
    hide AddRecords, WellSized, Aaaa, AllOk;
    ghost var k, q := pkt.View(), pkt.questions;
    n := 0;
    for i := 0 to |h.addresses|
      invariant pkt.Valid()
      invariant AddRecords(k, q, m.legacy, Addresses(h, m, 0)) == Rest(pkt, Ok, m.legacy, Addresses(h, m, i))
      invariant n + |Addresses(h, m, i)| == |Addresses(h, m, 0)|
    {
      var more;
      status, more := PutSelected(pkt, m.legacy, h.addresses[i].valid, Aaaa(h, m, h.addresses[i]), Addresses(h, m, i + 1));
      if status != Ok {
        return;
      }
      n := n + more;
    }
    NoRecords(pkt.View(), pkt.questions, m.legacy, Addresses(h, m, |h.addresses|));
    status := Ok;
  }

  /** The loop over the mask of addresses to look up. */
  method PutReverses(pkt: OutPacket, h: Host, m: Msg) returns (status: Status, n: nat)
    requires pkt.Valid() && HostOk(h) && MaskFits(m.reverse, |h.addresses|)
    modifies pkt`writeOffset, pkt`questions, pkt.pbuf, pkt.domainOffsets
    ensures Made(status, pkt.View(), pkt.questions)
         == AddRecords(old(pkt.View()), old(pkt.questions), m.legacy, Reverses(h, m, m.reverse, 0))
    ensures status == Ok ==> pkt.Valid() && n == |Reverses(h, m, m.reverse, 0)|
  {
    hide AddRecords, WellSized, HostPtr, AllOk;
    ghost var k, q := pkt.View(), pkt.questions;
    n := 0;
    var mask, i := m.reverse, 0;
    while mask != 0
      invariant pkt.Valid() && i <= |h.addresses| && MaskFits(mask, |h.addresses| - i)
      invariant AddRecords(k, q, m.legacy, Reverses(h, m, m.reverse, 0)) == Rest(pkt, Ok, m.legacy, Reverses(h, m, mask, i))
      invariant n + |Reverses(h, m, mask, i)| == |Reverses(h, m, m.reverse, 0)|
    {
      var more;
      status, more :=
        PutSelected(pkt, m.legacy, mask % 2 == 1, HostPtr(h, m, h.addresses[i]), Reverses(h, m, mask / 2, i + 1));
      if status != Ok {
        return;
      }
      n := n + more;
      mask, i := mask / 2, i + 1;
    }
    NoRecords(pkt.View(), pkt.questions, m.legacy, Reverses(h, m, mask, i));
    status := Ok;
  }

  lemma RecordsSplit(k: Pkt, questions: nat, legacy: bool, xs: seq<Record>, ys: seq<Record>)
    requires WellSized(k) && AllOk(xs) && AllOk(ys)
    ensures AllOk(xs + ys)
    ensures var r := AddRecords(k, questions, legacy, xs);
            && (r.status == Ok ==> WellSized(r.pkt))
            && AddRecords(k, questions, legacy, xs + ys)
               == if r.status != Ok then r else AddRecords(r.pkt, r.questions, legacy, ys)
  {
    hide AddRecords, RecordOk, WellSized;
    RecordsConcat(k, questions, legacy, xs, ys);
  }

  lemma NoneOk(rs: seq<Record>)
    requires rs == []
    ensures AllOk(rs)
  {
  }

  /** Two records that may be wanted, one after the other; `n` counts them. */
  method PutTwo(pkt: OutPacket, legacy: bool, wanted: bool, a: Record, wanted': bool, a': Record)
    returns (status: Status, n: nat)
    requires pkt.Valid() && RecordOk(a) && RecordOk(a')
    modifies pkt`writeOffset, pkt`questions, pkt.pbuf, pkt.domainOffsets
    ensures AllOk(If(wanted, a) + If(wanted', a'))
    ensures Made(status, pkt.View(), pkt.questions)
         == AddRecords(old(pkt.View()), old(pkt.questions), legacy, If(wanted, a) + If(wanted', a'))
    ensures status == Ok ==> pkt.Valid() && n == |If(wanted, a)| + |If(wanted', a')|
  {
    hide AddRecords, WellSized, RecordOk;
    ghost var none: seq<Record> := [];
    ghost var last := If(wanted', a');
    assert last == last + none;
    status, n := PutSelected(pkt, legacy, wanted, a, last);
    if status != Ok {
      return;
    }
    var more;
    status, more := PutSelected(pkt, legacy, wanted', a', none);
    if status != Ok {
      return;
    }
    n := n + more;
    NoRecords(pkt.View(), pkt.questions, legacy, none);
  }

  /** The records selected for one service. */
  method PutOwn(pkt: OutPacket, h: Host, m: Msg, i: nat) returns (status: Status, n: nat)
    requires pkt.Valid() && MsgOk(h, m) && i < |h.services|
    modifies pkt`writeOffset, pkt`questions, pkt.pbuf, pkt.domainOffsets
    ensures Made(status, pkt.View(), pkt.questions)
         == AddRecords(old(pkt.View()), old(pkt.questions), m.legacy, OwnRecords(h, m, i))
    ensures status == Ok ==> pkt.Valid() && n == |OwnRecords(h, m, i)|
  {
    hide AddRecords, WellSized, TypePtr, NamePtr, Srv, Txt, RecordOk, AllOk, OwnRecords, If;
    status, n := Ok, 0;
    if h.services[i].None? {
      NoOwn(h, m, i);
      NoRecords(pkt.View(), pkt.questions, m.legacy, OwnRecords(h, m, i));
      return;
    }
    var s, r := h.services[i].value, m.replies[i];
    ghost var first := If(r.typePtr, TypePtr(m, s)) + If(r.namePtr, NamePtr(m, s));
    ghost var second := If(r.srv, Srv(h, m, s)) + If(r.txt, Txt(m, s));
    OwnParts(h, m, i, s, r);
    RecordsSplit(pkt.View(), pkt.questions, m.legacy, first, second);
    status, n := PutTwo(pkt, m.legacy, r.typePtr, TypePtr(m, s), r.namePtr, NamePtr(m, s));
    if status != Ok {
      return;
    }
    var more;
    status, more := PutTwo(pkt, m.legacy, r.srv, Srv(h, m, s), r.txt, Txt(m, s));
    n := n + more;
  }

  lemma NoOwn(h: Host, m: Msg, i: nat)
    requires MsgOk(h, m) && i < |h.services| && h.services[i].None?
    ensures OwnRecords(h, m, i) == []
  {
  }

  lemma OwnParts(h: Host, m: Msg, i: nat, s: Service, r: Reply)
    requires MsgOk(h, m) && i < |h.services| && h.services[i] == Some(s) && m.replies[i] == r
    requires s.port < U16_SIZE && |s.txt| <= DOMAIN_MAXLEN
    ensures var first := If(r.typePtr, TypePtr(m, s)) + If(r.namePtr, NamePtr(m, s));
            var second := If(r.srv, Srv(h, m, s)) + If(r.txt, Txt(m, s));
            && OwnRecords(h, m, i) == first + second && AllOk(first) && AllOk(second)
            && |first| == |If(r.typePtr, TypePtr(m, s))| + |If(r.namePtr, NamePtr(m, s))|
            && |second| == |If(r.srv, Srv(h, m, s))| + |If(r.txt, Txt(m, s))|
  {
    hide TypePtr, NamePtr, Srv, Txt, RecordOk, If;
    var a, b, c, d :=
      If(r.typePtr, TypePtr(m, s)), If(r.namePtr, NamePtr(m, s)), If(r.srv, Srv(h, m, s)), If(r.txt, Txt(m, s));
    assert a + (b + (c + d)) == (a + b) + (c + d);
    TwoOk(r.typePtr, TypePtr(m, s), r.namePtr, NamePtr(m, s));
    TwoOk(r.srv, Srv(h, m, s), r.txt, Txt(m, s));
  }

  lemma TwoOk(c: bool, a: Record, c': bool, a': Record)
    requires RecordOk(a) && RecordOk(a')
    ensures AllOk(If(c, a) + If(c', a'))
  {
  }

  /** The loop over the services. */
  method PutServices(pkt: OutPacket, h: Host, m: Msg) returns (status: Status, n: nat)
    requires pkt.Valid() && MsgOk(h, m)
    modifies pkt`writeOffset, pkt`questions, pkt.pbuf, pkt.domainOffsets
    ensures Made(status, pkt.View(), pkt.questions)
         == AddRecords(old(pkt.View()), old(pkt.questions), m.legacy, Services(h, m, 0))
    ensures status == Ok ==> pkt.Valid() && n == |Services(h, m, 0)|
  {
    hide AddRecords, WellSized, OwnRecords, AllOk, MsgOk;
    ghost var k, q := pkt.View(), pkt.questions;
    n := 0;
    for i := 0 to |h.services|
      invariant pkt.Valid()
      invariant AddRecords(k, q, m.legacy, Services(h, m, 0)) == Rest(pkt, Ok, m.legacy, Services(h, m, i))
      invariant n + |Services(h, m, i)| == |Services(h, m, 0)|
    {
      RecordsSplit(pkt.View(), pkt.questions, m.legacy, OwnRecords(h, m, i), Services(h, m, i + 1));
      var more;
      status, more := PutOwn(pkt, h, m, i);
      if status != Ok {
        return;
      }
      n := n + more;
    }
    NoRecords(pkt.View(), pkt.questions, m.legacy, Services(h, m, |h.services|));
    status := Ok;
  }

  /** The additional records for one service, each counted at once. */
  method PutExtras(pkt: OutPacket, h: Host, m: Msg, i: nat) returns (status: Status)
    requires pkt.Valid() && MsgOk(h, m) && i < |h.services|
    modifies pkt`writeOffset, pkt`questions, pkt`additional, pkt.pbuf, pkt.domainOffsets
    ensures Made(status, pkt.View(), pkt.questions)
         == AddRecords(old(pkt.View()), old(pkt.questions), m.legacy, Extras(h, m, i))
    ensures status == Ok ==> pkt.Valid() && pkt.additional == old(pkt.additional) + |Extras(h, m, i)|
  {
    hide AddRecords, WellSized, Addresses, Srv, Txt, RecordOk;
    status := Ok;
    ghost var none: seq<Record> := [];
    if h.services[i].None? {
      NoRecords(pkt.View(), pkt.questions, m.legacy, none);
      return;
    }
    var s, r := h.services[i].value, m.replies[i];
    ghost var last := if (r.namePtr || r.srv || m.aaaa) && !m.aaaa then Addresses(h, m, 0) else none;
    ghost var later := If(r.namePtr && !r.txt, Txt(m, s)) + last;
    assert Extras(h, m, i) == If(r.namePtr && !r.srv, Srv(h, m, s)) + later;
    var more;
    status, more := PutSelected(pkt, m.legacy, r.namePtr && !r.srv, Srv(h, m, s), later);
    if status != Ok {
      return;
    }
    pkt.additional := pkt.additional + more;
    status, more := PutSelected(pkt, m.legacy, r.namePtr && !r.txt, Txt(m, s), last);
    if status != Ok {
      return;
    }
    pkt.additional := pkt.additional + more;
    if r.namePtr || r.srv || m.aaaa {
      if !m.aaaa {
        status, more := PutAddresses(pkt, h, m);
        if status != Ok {
          return;
        }
        pkt.additional := pkt.additional + more;
        return;
      }
    }
    NoRecords(pkt.View(), pkt.questions, m.legacy, none);
  }

  /** The second loop over the services. */
  method PutAdditional(pkt: OutPacket, h: Host, m: Msg) returns (status: Status)
    requires pkt.Valid() && MsgOk(h, m)
    modifies pkt`writeOffset, pkt`questions, pkt`additional, pkt.pbuf, pkt.domainOffsets
    ensures Made(status, pkt.View(), pkt.questions)
         == AddRecords(old(pkt.View()), old(pkt.questions), m.legacy, Additional(h, m, 0))
    ensures status == Ok ==> pkt.Valid() && pkt.additional == old(pkt.additional) + |Additional(h, m, 0)|
  {
    hide AddRecords, WellSized, Extras, AllOk, MsgOk;
    ghost var k, q, n := pkt.View(), pkt.questions, pkt.additional;
    for i := 0 to |h.services|
      invariant pkt.Valid()
      invariant AddRecords(k, q, m.legacy, Additional(h, m, 0)) == Rest(pkt, Ok, m.legacy, Additional(h, m, i))
      invariant pkt.additional + |Additional(h, m, i)| == n + |Additional(h, m, 0)|
    {
      RecordsSplit(pkt.View(), pkt.questions, m.legacy, Extras(h, m, i), Additional(h, m, i + 1));
      status := PutExtras(pkt, h, m, i);
      if status != Ok {
        return;
      }
    }
    NoRecords(pkt.View(), pkt.questions, m.legacy, Additional(h, m, |h.services|));
    status := Ok;
  }

  /** The selected records: addresses, reverse lookups, services. They are counted together. */
  method PutChosen(pkt: OutPacket, h: Host, m: Msg) returns (status: Status, answers: nat)
    requires pkt.Valid() && MsgOk(h, m)
    modifies pkt`writeOffset, pkt`questions, pkt.pbuf, pkt.domainOffsets
    ensures Made(status, pkt.View(), pkt.questions)
         == AddRecords(old(pkt.View()), old(pkt.questions), m.legacy, Selected(h, m))
    ensures status == Ok ==> pkt.Valid() && answers == |Selected(h, m)|
  {
    hide AddRecords, WellSized, Addresses, Reverses, Services, AllOk;
    status, answers := Ok, 0;
    ghost var none: seq<Record> := [];
    ghost var first := if m.aaaa then Addresses(h, m, 0) else none;
    ghost var second := if m.ptrV6 then Reverses(h, m, m.reverse, 0) else none;
    assert AllOk(none) by { NoneOk(none); }
    assert AllOk(second + Services(h, m, 0)) by { SplitOk(second, Services(h, m, 0)); }
    assert Selected(h, m) == first + (second + Services(h, m, 0));
    RecordsSplit(pkt.View(), pkt.questions, m.legacy, first, second + Services(h, m, 0));
    NoRecords(pkt.View(), pkt.questions, m.legacy, none);
    var more;
    if m.aaaa {
      status, more := PutAddresses(pkt, h, m);
      if status != Ok {
        return;
      }
      answers := answers + more;
    }
    RecordsSplit(pkt.View(), pkt.questions, m.legacy, second, Services(h, m, 0));
    NoRecords(pkt.View(), pkt.questions, m.legacy, none);
    if m.ptrV6 {
      status, more := PutReverses(pkt, h, m);
      if status != Ok {
        return;
      }
      answers := answers + more;
    }
    status, more := PutServices(pkt, h, m);
    answers := answers + more;
  }

  lemma SplitOk(xs: seq<Record>, ys: seq<Record>)
    requires AllOk(xs) && AllOk(ys)
    ensures AllOk(xs + ys)
  {
    hide RecordOk;
  }

  /**
    `mdns_create_outpacket`: the message is written record by record; each section counter is the
    number of records that its loops have written.
   */
  method CreateOutpacket(pkt: OutPacket, h: Host, m: Msg) returns (status: Status)
    requires pkt.Valid() && MsgOk(h, m)
    requires pkt.questions == pkt.answers == pkt.authoritative == pkt.additional == 0
    modifies pkt, pkt.pbuf, pkt.domainOffsets
    ensures Written(status, pkt.View()) == Build(old(pkt.View()), PlanOf(h, m))
    ensures status == Ok ==>
              pkt.Valid() && Counts(pkt.questions, pkt.answers, pkt.authoritative, pkt.additional) == CountsOf(h, m)
  {
    hide AddQuestions, AddRecords, PlanOf, Selected, Additional, WellSized, Build, ProbeQuestions, AllOk, MsgOk;
    CreateIsPlan(pkt.View(), h, m);
    status := PutProbes(pkt, h, m);
    if status != Ok {
      return;
    }
    var answers;
    status, answers := PutChosen(pkt, h, m);
    if status != Ok {
      return;
    }
    if m.flags >= 0x80 {
      pkt.answers := pkt.answers + answers;
    } else {
      pkt.authoritative := pkt.authoritative + answers;
    }
    status := PutAdditional(pkt, h, m);
  }

  /**
    `mdns_send_outpacket`, up to the datagram it hands to UDP: the header is stored over the first
    bytes of the buffer, and the buffer is shortened to what was written.
   */
  method SendOutpacket(pkt: OutPacket, h: Host, m: Msg) returns (status: Status, datagram: seq<byte>)
    requires pkt.Valid() && MsgOk(h, m) && pkt.View() == Fresh(pkt.pbuf[..])
    requires pkt.questions == pkt.answers == pkt.authoritative == pkt.additional == 0
    modifies pkt, pkt.pbuf, pkt.domainOffsets
    ensures status == Build(Fresh(old(pkt.pbuf[..])), PlanOf(h, m)).status
    ensures status == Ok ==> datagram == SentFor(h, m, old(pkt.pbuf[..]))
    ensures status == Ok && ClashFree(h) && |h.addresses| <= MAX_JUMPS + 1 && Opcode(m.flags) == 0 ==> Says(datagram, h, m)
  {
    hide Build, PlanOf, CountsOf, Header, Says, SentReads, ClashFree, Datagram;
    ghost var k := pkt.View();
    datagram := [];
    status := CreateOutpacket(pkt, h, m);
    if status != Ok {
      return;
    }
    ghost var k' := pkt.View();
    CountsFit(k, h, m);
    var counts := Counts(pkt.questions, pkt.answers, pkt.authoritative, pkt.additional);
    var taken := pkt.TakeAt(Header(m.id, m.flags, counts), 0);
    datagram := pkt.pbuf[..pkt.writeOffset];
    HeaderStored(k', Header(m.id, m.flags, counts));
    assert taken == Ok;
    DatagramIs(k', m.id, m.flags, counts);
    if ClashFree(h) && |h.addresses| <= MAX_JUMPS + 1 && Opcode(m.flags) == 0 {
      HostIsHeard(h, m, k.bytes);
      MessageSays(h, m, k.bytes);
    }
  }

  lemma DatagramIs(k: Pkt, id: nat, flags: byte, c: Counts)
    requires WellSized(k) && id < U16_SIZE && CountsOk(c)
    ensures Datagram(k, id, flags, c) == Header(id, flags, c) + k.bytes[SIZEOF_DNS_HDR..k.writeOffset]
  {
  }

  lemma HeaderStored(k: Pkt, s: seq<byte>)
    requires WellSized(k) && |s| == SIZEOF_DNS_HDR
    ensures Splice(k.bytes, 0, s)[..k.writeOffset] == s + k.bytes[SIZEOF_DNS_HDR..k.writeOffset]
    ensures Fits(k.bytes, |s|, 0)
  {
  }
}
