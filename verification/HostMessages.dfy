/**
  The two messages a host sends of its own accord: the announcement (`mdns_announce`) and the
  probe (`mdns_define_probe_rrs_to_send`), and what is read from their datagrams.
 */
module HostMessages {
  import opened Bytes
  import opened Bits
  import opened DomainNames
  import opened NameReader
  import opened NameWriter
  import opened Packets
  import opened Families
  import opened Outpackets
  import opened SentPackets
  import opened MessageContents

  /** The reverse lookups of an announcement are kept in a mask of this many bits. */
  const MASK_BITS: nat := 8

  /** The mask of the valid addresses among the first `n`. */
  function ValidMask(addresses: seq<Address>, n: nat): (mask: nat) {
    if addresses == [] || n == 0 then 0
    else One(addresses[0].valid) + 2 * ValidMask(addresses[1..], n - 1)
  }

  predicate AnyValid(h: Host) {
    exists i :: 0 <= i < |h.addresses| && h.addresses[i].valid
  }

  function AnnounceMsg(h: Host): (m: Msg) {
    Msg(0, 0x84, true, false, false, seq(|h.services|, i => false), AnyValid(h), AnyValid(h),
        ValidMask(h.addresses, MASK_BITS),
        seq(|h.services|, i requires 0 <= i < |h.services| =>
          var b := h.services[i].Some?; Reply(b, b, b, b)))
  }

  // ----- The masks and messages

  /** The first address is the lowest bit. */
  lemma ValidStep(addresses: seq<Address>, n: nat)
    ensures addresses == [] || n == 0 ==> ValidMask(addresses, n) == 0
    ensures addresses != [] && n > 0 ==>
              && ValidMask(addresses, n) % 2 == One(addresses[0].valid)
              && ValidMask(addresses, n) / 2 == ValidMask(addresses[1..], n - 1)
  {
  }

  lemma {:induction false} ValidBit(addresses: seq<Address>, n: nat, i: nat)
    ensures Bit(ValidMask(addresses, n), i) <==> i < n && i < |addresses| && addresses[i].valid
    decreases n
  {
    hide Bit, ValidMask;
    ValidStep(addresses, n);
    if addresses == [] || n == 0 {
      BitZero(i);
    } else if i == 0 {
      FirstBit(ValidMask(addresses, n));
    } else {
      BitHalf(ValidMask(addresses, n), i - 1);
      ValidBit(addresses[1..], n - 1, i - 1);
    }
  }

  lemma {:induction false} ValidFits(addresses: seq<Address>, n: nat)
    ensures MaskFits(ValidMask(addresses, n), |addresses|)
    ensures CountBits(ValidMask(addresses, n)) == CountValid(addresses[..if n < |addresses| then n else |addresses|])
    decreases n
  {
    hide ValidMask;
    ValidStep(addresses, n);
    if addresses != [] && n > 0 {
      ValidFits(addresses[1..], n - 1);
      var k := if n < |addresses| then n else |addresses|;
      assert addresses[..k][1..] == addresses[1..][..k - 1];
    }
  }

  /** One address more. */
  lemma {:induction false} ValidNext(addresses: seq<Address>, n: nat)
    requires n < |addresses|
    ensures ValidMask(addresses, n + 1) == ValidMask(addresses, n) + if addresses[n].valid then Pow2(n) else 0
  {
    if n > 0 {
      ValidNext(addresses[1..], n - 1);
    } else {
      assert ValidMask(addresses[1..], 0) == 0 && Pow2(0) == 1;
    }
  }

  lemma {:induction false} ValidAll(addresses: seq<Address>, n: nat)
    requires n >= |addresses|
    ensures ValidMask(addresses, n) == ValidMask(addresses, |addresses|)
    decreases n
  {
    if addresses != [] {
      ValidAll(addresses[1..], n - 1);
      ValidAll(addresses[1..], |addresses| - 1);
    }
  }

  /** The message of `mdns_announce`. */
  method Announcement(h: Host) returns (m: Msg)
    ensures m == AnnounceMsg(h)
  {
    var valid, mask: nat := false, 0;
    for i := 0 to |h.addresses|
      invariant valid <==> exists j :: 0 <= j < i && h.addresses[j].valid
      invariant mask == ValidMask(h.addresses, if i < MASK_BITS then i else MASK_BITS)
    {
      if i < MASK_BITS {
        ValidNext(h.addresses, i);
      }
      if h.addresses[i].valid {
        valid := true;
        if i < MASK_BITS {
          mask := mask + Pow2(i);
        }
      }
    }
    if |h.addresses| < MASK_BITS {
      ValidAll(h.addresses, MASK_BITS);
    }
    var replies := [];
    for i := 0 to |h.services|
      invariant |replies| == i
      invariant forall j :: 0 <= j < i ==> var b := h.services[j].Some?; replies[j] == Reply(b, b, b, b)
    {
      var reply := Reply(false, false, false, false);
      if h.services[i].Some? {
        reply := Reply(true, true, true, true);
      }
      replies := replies + [reply];
    }
    m := Msg(0, 0x84, true, false, false, seq(|h.services|, i => false), valid, valid, mask, replies);
    assert replies == AnnounceMsg(h).replies;
  }

  /** The message of `mdns_define_probe_rrs_to_send`. */
  method DefineProbe(h: Host) returns (m: Msg)
    ensures m == ProbeMsg(h)
  {
    var questions, replies := [], [];
    for i := 0 to |h.services|
      invariant |questions| == i && forall j :: 0 <= j < i ==> questions[j] == h.services[j].Some?
    {
      questions := questions + [h.services[i].Some?];
    }
    var valid := false;
    for i := 0 to |h.addresses|
      invariant valid <==> exists j :: 0 <= j < i && h.addresses[j].valid
    {
      if h.addresses[i].valid {
        valid := true;
      }
    }
    for i := 0 to |h.services|
      invariant |replies| == i
      invariant forall j :: 0 <= j < i ==> replies[j] == Reply(false, false, h.services[j].Some?, false)
    {
      var reply := Reply(false, false, false, false);
      if h.services[i].Some? {
        reply := reply.(srv := true);
      }
      replies := replies + [reply];
    }
    m := Msg(0, 0, false, false, true, questions, valid, false, 0, replies);
    assert questions == ProbeMsg(h).probeService && replies == ProbeMsg(h).replies;
  }

  // ----- What an announcement says

  function CountServices(h: Host, i: nat): (n: nat)
    requires i <= |h.services|
    decreases |h.services| - i
  {
    if i == |h.services| then 0 else CountServices(h, i + 1) + One(h.services[i].Some?)
  }

  /** A valid address of the host. */
  predicate HasAddress(h: Host, x: Item, i: nat) {
    && i < |h.addresses| && h.addresses[i].valid
    && x == Item(TheHostName(h), 28, true, 120, h.addresses[i].octets, None)
  }

  /** Its reverse lookup. */
  predicate HasLookup(h: Host, x: Item, i: nat) {
    && i < |h.addresses| && i < MASK_BITS && h.addresses[i].valid
    && x == Item(TheLookup(h.addresses[i].octets), 12, true, 120, [], Some(TheHostName(h)))
  }

  /** The four records of a service; the two that are the host's own replace what is cached. */
  predicate HasService(h: Host, x: Item, i: nat)
    requires HostOk(h)
  {
    && i < |h.services| && h.services[i].Some?
    && var s := h.services[i].value;
    || x == Item(TheEnumeration(), 12, false, 4500, [], Some(TheType(s)))
    || x == Item(TheType(s), 12, false, 120, [], Some(TheInstance(s)))
    || x == Item(TheInstance(s), 33, true, 120, [0, 0, 0, 0, s.port / 256, s.port % 256], Some(TheHostName(h)))
    || x == Item(TheInstance(s), 16, true, 120, s.txt, None)
  }

  /** All that the host has: its valid addresses, their reverse lookups, and its services. */
  ghost predicate IsAnnounced(h: Host, x: Item)
    requires HostOk(h)
  {
    (exists i :: HasAddress(h, x, i)) || (exists i :: HasLookup(h, x, i)) || (exists i :: HasService(h, x, i))
  }

  lemma AnnounceChooses(h: Host, x: Item)
    requires HostOk(h) && MsgOk(h, AnnounceMsg(h))
    ensures IsChosen(h, AnnounceMsg(h), x) <==> IsAnnounced(h, x)
  {
    hide TheHostName, TheLookup, TheType, TheInstance, TheEnumeration, Bit, ValidMask, MaskFits;
    var m := AnnounceMsg(h);
    forall i: nat ensures IsAddress(h, m, x, i) <==> HasAddress(h, x, i) {
    }
    forall i: nat ensures IsLookup(h, m, x, m.reverse, i) <==> HasLookup(h, x, i) {
      ValidBit(h.addresses, MASK_BITS, i);
    }
    forall i: nat ensures IsOwn(h, m, x, i) <==> HasService(h, x, i) {
    }
    if !m.aaaa {
      assert forall i: nat :: !HasAddress(h, x, i) && !HasLookup(h, x, i);
    }
  }

  lemma {:induction false} AnnounceCounts(h: Host, i: nat)
    requires HostOk(h) && MsgOk(h, AnnounceMsg(h)) && i <= |h.services|
    ensures CountOwn(h, AnnounceMsg(h), i) == 4 * CountServices(h, i)
    ensures CountBeside(h, AnnounceMsg(h), i) == 0 && CountProbes(h, AnnounceMsg(h), i) == 0
    decreases |h.services| - i
  {
    hide MsgOk, CountValid, ValidMask;
    if i < |h.services| {
      AnnounceCounts(h, i + 1);
      NoneValid(h.addresses);
    }
  }

  lemma {:induction false} NoneValid(addresses: seq<Address>)
    ensures CountValid(addresses) == 0 <==> forall i :: 0 <= i < |addresses| ==> !addresses[i].valid
  {
    if addresses != [] {
      NoneValid(addresses[1..]);
      assert addresses == [addresses[0]] + addresses[1..];
    }
  }

  /**
    An announcement is a response without questions and without anything but answers: each record
    of the host once, and no others.
   */
  lemma AnnouncementSays(h: Host, bytes: seq<byte>)
    requires SIZEOF_DNS_HDR <= |bytes| <= JUMP_TARGET_LIMIT
    requires HostOk(h) && MsgOk(h, AnnounceMsg(h)) && Build(Fresh(bytes), PlanOf(h, AnnounceMsg(h))).status == Ok
    requires ClashFree(h) && |h.addresses| <= MAX_JUMPS + 1
    ensures var f := SentFor(h, AnnounceMsg(h), bytes);
            && ReadPacket(f).Some?
            && var p := ReadPacket(f).value;
            && p.id == 0 && p.flags == 0x84
            && p.questions == [] && p.authoritative == [] && p.additional == []
            && |p.answers| == 2 * CountValid(h.addresses) + 4 * CountServices(h, 0)
            && forall x :: Formed(x) ==> (Told(f, p.answers, x) <==> IsAnnounced(h, x))
  {
    hide Build, PlanOf, SentReads, SentFor, ReadPacket, ClashFree, IsChosen, IsAnnounced, Told, ValidMask;
    hide CountValid, CountBits, CountOwn, CountBeside, CountProbes, CountServices, Formed, MsgOk, HostOk;
    var m := AnnounceMsg(h);
    HostIsHeard(h, m, bytes);
    MessageSays(h, m, bytes);
    AnnounceCounts(h, 0);
    NoneValid(h.addresses);
    ValidFits(h.addresses, MASK_BITS);
    assert h.addresses[..|h.addresses|] == h.addresses;
    forall x | Formed(x) ensures IsChosen(h, m, x) <==> IsAnnounced(h, x) {
      AnnounceChooses(h, x);
    }
  }

  // ----- What a probe says

  /** A service record that claims an instance name. */
  predicate HasClaim(h: Host, x: Item, i: nat)
    requires HostOk(h)
  {
    && i < |h.services| && h.services[i].Some?
    && var s := h.services[i].value;
    x == Item(TheInstance(s), 33, false, 120, [0, 0, 0, 0, s.port / 256, s.port % 256], Some(TheHostName(h)))
  }

  predicate HasClaimedAddress(h: Host, x: Item, i: nat) {
    && i < |h.addresses| && h.addresses[i].valid
    && x == Item(TheHostName(h), 28, false, 120, h.addresses[i].octets, None)
  }

  /** What the host claims: its addresses and the place of each service. */
  ghost predicate IsClaimed(h: Host, x: Item)
    requires HostOk(h)
  {
    (exists i :: HasClaimedAddress(h, x, i)) || (exists i :: HasClaim(h, x, i))
  }

  predicate HasInstance(h: Host, ls: seq<Label>, i: nat) {
    i < |h.services| && h.services[i].Some? && ls == TheInstance(h.services[i].value)
  }

  /** The names a host makes sure of. */
  ghost predicate IsOwnName(h: Host, ls: seq<Label>) {
    ls == TheHostName(h) || exists i :: HasInstance(h, ls, i)
  }

  lemma ProbeChooses(h: Host, x: Item)
    requires HostOk(h) && MsgOk(h, ProbeMsg(h))
    ensures IsChosen(h, ProbeMsg(h), x) <==> IsClaimed(h, x)
  {
    hide TheHostName, TheLookup, TheType, TheInstance, TheEnumeration, Bit, MaskFits;
    var m := ProbeMsg(h);
    forall i: nat ensures IsAddress(h, m, x, i) <==> HasClaimedAddress(h, x, i) {
    }
    forall i: nat ensures IsOwn(h, m, x, i) <==> HasClaim(h, x, i) {
    }
    if !m.aaaa {
      assert forall i: nat :: !HasClaimedAddress(h, x, i);
    }
  }

  lemma ProbeAsks(h: Host, ls: seq<Label>)
    requires HostOk(h) && MsgOk(h, ProbeMsg(h))
    ensures ToProbe(h, ProbeMsg(h), ls) <==> IsOwnName(h, ls)
  {
    hide TheHostName, TheInstance;
    forall i: nat ensures IsProbed(h, ProbeMsg(h), ls, i) <==> HasInstance(h, ls, i) {
    }
  }

  lemma {:induction false} ProbeCounts(h: Host, i: nat)
    requires HostOk(h) && MsgOk(h, ProbeMsg(h)) && i <= |h.services|
    ensures CountOwn(h, ProbeMsg(h), i) == CountServices(h, i)
    ensures CountBeside(h, ProbeMsg(h), i) == 0 && CountProbes(h, ProbeMsg(h), i) == 1 + CountServices(h, i)
    decreases |h.services| - i
  {
    hide MsgOk, CountValid;
    if i < |h.services| {
      ProbeCounts(h, i + 1);
      NoneValid(h.addresses);
    }
  }

  /**
    A probe asks for every name the host makes sure of, once, and claims in its authority section
    each valid address and service record once, and nothing else.
   */
  lemma ProbeSays(h: Host, bytes: seq<byte>)
    requires SIZEOF_DNS_HDR <= |bytes| <= JUMP_TARGET_LIMIT
    requires HostOk(h) && MsgOk(h, ProbeMsg(h)) && Build(Fresh(bytes), PlanOf(h, ProbeMsg(h))).status == Ok
    requires ClashFree(h) && |h.addresses| <= MAX_JUMPS + 1
    ensures var f := SentFor(h, ProbeMsg(h), bytes);
            && ReadPacket(f).Some?
            && var p := ReadPacket(f).value;
            && p.id == 0 && p.flags == 0 && p.answers == [] && p.additional == []
            && |p.questions| == 1 + CountServices(h, 0)
            && |p.authoritative| == CountValid(h.addresses) + CountServices(h, 0)
            && (forall ls :: Asked(p.questions, ls) <==> IsOwnName(h, ls))
            && (forall x :: Formed(x) ==> (Told(f, p.authoritative, x) <==> IsClaimed(h, x)))
  {
    hide Build, PlanOf, SentReads, SentFor, ReadPacket, ClashFree, IsChosen, IsClaimed, Told, Asked, ToProbe, IsOwnName;
    hide CountValid, CountBits, CountOwn, CountBeside, CountProbes, CountServices, Formed, MsgOk, HostOk;
    var m := ProbeMsg(h);
    HostIsHeard(h, m, bytes);
    MessageSays(h, m, bytes);
    ProbeCounts(h, 0);
    NoneValid(h.addresses);
    forall x | Formed(x) ensures IsChosen(h, m, x) <==> IsClaimed(h, x) {
      ProbeChooses(h, x);
    }
    forall ls ensures ToProbe(h, m, ls) <==> IsOwnName(h, ls) {
      ProbeAsks(h, ls);
    }
  }
}
