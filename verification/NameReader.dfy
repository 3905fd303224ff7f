/**
  Reading a possibly compressed name from a packet (`mdns_readname`), against the meaning that
  section 4.1.4 of RFC 1035 gives to the bytes.
 */
module NameReader {
  import opened Bytes
  import opened DomainNames

  const READNAME_ERROR: nat := 0xFFFF
  const SIZEOF_DNS_HDR: nat := 12
  const MAX_JUMPS: nat := 5
  const UDP_PAYLOAD_MAX: nat := 65507

  /** `pbuf_get_at`: bytes past the end read as zero. */
  function GetAt(p: seq<byte>, off: nat): (b: byte)
    ensures off >= |p| ==> b == 0
  {
    if off < |p| then p[off] else 0
  }

  predicate IsJump(b: byte) {
    b >= 0xC0
  }

  function JumpTarget(hi: byte, lo: byte): (t: nat)
    requires IsJump(hi)
    ensures t < 0x4000
  {
    (hi as int - 0xC0) * 256 + lo as int
  }

  function U16(x: nat): (r: nat)
    ensures r < U16_SIZE
    ensures x < U16_SIZE ==> r == x
  {
    x % U16_SIZE
  }

  function DepthLeft(depth: nat): nat {
    if depth > MAX_JUMPS then 0 else MAX_JUMPS + 1 - depth
  }

  datatype Read = Read(end: nat, name: seq<byte>)

  /**
    The reader's result for the name continuing at `off` with `name` already read. The 16-bit
    offset is the return value of the original, READNAME_ERROR included; `name` is what the
    domain holds when it returns.
   */
  function ReadLoop(p: seq<byte>, off: nat, name: seq<byte>, depth: nat): (r: Read)
    requires off < U16_SIZE && |name| < DOMAIN_MAXLEN
    ensures r.end < U16_SIZE
    ensures name <= r.name && |r.name| <= DOMAIN_MAXLEN
    decreases DepthLeft(depth), DOMAIN_MAXLEN - |name|
  {
    var c := GetAt(p, off);
    var off1 := U16(off + 1);
    if depth > MAX_JUMPS then Read(READNAME_ERROR, name)
    else if IsJump(c) then
      if off1 >= |p| then Read(READNAME_ERROR, name)
      else
        var target := JumpTarget(c, p[off1]);
        if SIZEOF_DNS_HDR <= target < |p| then
          var r := ReadLoop(p, target, name, depth + 1);
          if r.end == READNAME_ERROR then r else Read(U16(off1 + 1), r.name)
        else Read(READNAME_ERROR, name)
    else if c > LABEL_MAXLEN then Read(READNAME_ERROR, name)
    else if c + |name| >= DOMAIN_MAXLEN then Read(READNAME_ERROR, name)
    else if c == 0 then Read(off1, name + [0])
    else if 1 + c + |name| >= DOMAIN_MAXLEN || off1 + c > |p| then Read(READNAME_ERROR, name)
    else ReadLoop(p, U16(off1 + c), name + [c] + p[off1..off1 + c], depth)
  }

  function ReadName(p: seq<byte>, off: nat): (r: Read)
    requires off < U16_SIZE
  {
    ReadLoop(p, off, [], 0)
  }

  /**
    The bytes from `off` on spell the labels `ls`, through exactly `j` compression pointers.
    A packet that ends at a length byte counts as ending in the root label when `open` holds,
    which is how the reader sees it; otherwise every byte looked at lies inside `p`.
   */
  ghost predicate Spells(p: seq<byte>, off: nat, ls: seq<Label>, j: nat, open: bool)
    decreases |ls|, j
  {
    if off >= |p| then open && ls == [] && j == 0
    else if IsJump(p[off]) then
      && off + 1 < |p| && j > 0
      && var target := JumpTarget(p[off], p[off + 1]);
      && SIZEOF_DNS_HDR <= target < |p|
      && Spells(p, target, ls, j - 1, open)
    else if p[off] == 0 then ls == [] && j == 0
    else
      && ls != [] && |ls[0]| == p[off]
      && off + 1 + |ls[0]| <= |p|
      && p[off + 1..off + 1 + |ls[0]|] == ls[0]
      && Spells(p, off + 1 + |ls[0]|, ls[1..], j, open)
  }

  lemma SpellsRoot(p: seq<byte>, off: nat)
    requires GetAt(p, off) == 0
    ensures Spells(p, off, [], 0, true)
  {
  }

  /** A label in front of a spelled name gives a longer spelled name. */
  lemma SpellsCons(p: seq<byte>, off: nat, first: Label, ls: seq<Label>, j: nat, open: bool)
    requires Holds(p, off, [|first|] + first)
    requires Spells(p, off + 1 + |first|, ls, j, open)
    ensures Spells(p, off, [first] + ls, j, open)
    ensures EndOf(p, off, [first] + ls) == EndOf(p, off + 1 + |first|, ls)
  {
    HoldsSplit(p, off, [|first|], first);
    assert p[off] == p[off..off + 1][0] == |first|;
    assert ([first] + ls)[1..] == ls;
  }

  /** A pointer to a spelled name spells the same name through one more pointer. */
  lemma SpellsJump(p: seq<byte>, off: nat, ls: seq<Label>, j: nat, open: bool)
    requires off + 1 < |p| && IsJump(p[off]) && SIZEOF_DNS_HDR <= JumpTarget(p[off], p[off + 1]) < |p|
    requires Spells(p, JumpTarget(p[off], p[off + 1]), ls, j, open)
    ensures Spells(p, off, ls, j + 1, open)
    ensures EndOf(p, off, ls) == off + 2
  {
  }

  /** The offset just past the bytes the name itself occupies. */
  ghost function EndOf(p: seq<byte>, off: nat, ls: seq<Label>): (e: nat)
    ensures e > off
    decreases |ls|
  {
    if off >= |p| then off + 1
    else if IsJump(p[off]) then off + 2
    else if ls == [] then off + 1
    else EndOf(p, off + 1 + |ls[0]|, ls[1..])
  }

  lemma {:induction false} EndOfBound(p: seq<byte>, off: nat, ls: seq<Label>, j: nat, open: bool)
    requires Spells(p, off, ls, j, open)
    ensures EndOf(p, off, ls) <= if off >= |p| then off + 1 else |p| + 1
    ensures !open ==> EndOf(p, off, ls) <= |p|
    decreases |ls|
  {
    if off < |p| && !IsJump(p[off]) && ls != [] {
      EndOfBound(p, off + 1 + |ls[0]|, ls[1..], j, open);
    }
  }

  /** One turn of the reading loop. */
  lemma ReaderTurn(p: seq<byte>, off: nat, name: seq<byte>, depth: nat)
    requires off < U16_SIZE && |name| < DOMAIN_MAXLEN
    ensures var c, off1, r := GetAt(p, off), U16(off + 1), ReadLoop(p, off, name, depth);
            if depth > MAX_JUMPS then r == Read(READNAME_ERROR, name)
            else if IsJump(c) then
              if off1 < |p| && SIZEOF_DNS_HDR <= JumpTarget(c, p[off1]) < |p| then
                var g := ReadLoop(p, JumpTarget(c, p[off1]), name, depth + 1);
                r == if g.end == READNAME_ERROR then g else Read(U16(off1 + 1), g.name)
              else r == Read(READNAME_ERROR, name)
            else if c > LABEL_MAXLEN || c + |name| >= DOMAIN_MAXLEN then r == Read(READNAME_ERROR, name)
            else if c == 0 then r == Read(off1, name + [0])
            else if 1 + c + |name| >= DOMAIN_MAXLEN || off1 + c > |p| then r == Read(READNAME_ERROR, name)
            else r == ReadLoop(p, U16(off1 + c), name + [c] + p[off1..off1 + c], depth)
  {
  }

  /** One turn of the reading loop over a label that is present and fits. */
  lemma ReadLabel(p: seq<byte>, off: nat, name: seq<byte>, depth: nat)
    requires |p| <= UDP_PAYLOAD_MAX && depth <= MAX_JUMPS
    requires off < |p| && 0 < p[off] <= LABEL_MAXLEN && off + 1 + p[off] <= |p|
    requires 1 + p[off] + |name| < DOMAIN_MAXLEN
    ensures ReadLoop(p, off, name, depth)
         == ReadLoop(p, off + 1 + p[off], name + [p[off]] + p[off + 1..off + 1 + p[off]], depth)
  {
  }

  lemma ReadLabelTooLong(p: seq<byte>, off: nat, name: seq<byte>, depth: nat)
    requires off < |p| && off < U16_SIZE && 0 < p[off] <= LABEL_MAXLEN
    requires |name| < DOMAIN_MAXLEN <= 1 + p[off] + |name|
    ensures ReadLoop(p, off, name, depth).end == READNAME_ERROR
  {
  }

  /** One turn of the reading loop over a pointer that stays inside the packet. */
  lemma ReadJump(p: seq<byte>, off: nat, name: seq<byte>, depth: nat)
    requires |p| <= UDP_PAYLOAD_MAX && depth <= MAX_JUMPS && |name| < DOMAIN_MAXLEN
    requires off + 1 < |p| && IsJump(p[off]) && SIZEOF_DNS_HDR <= JumpTarget(p[off], p[off + 1]) < |p|
    ensures var r := ReadLoop(p, JumpTarget(p[off], p[off + 1]), name, depth + 1);
            ReadLoop(p, off, name, depth) == if r.end == READNAME_ERROR then r else Read(off + 2, r.name)
  {
  }

  /** The reading loop at a root label, or too deep. */
  lemma ReadStops(p: seq<byte>, off: nat, name: seq<byte>, depth: nat)
    requires |p| <= UDP_PAYLOAD_MAX && off <= |p| && |name| < DOMAIN_MAXLEN
    requires depth > MAX_JUMPS || GetAt(p, off) == 0
    ensures ReadLoop(p, off, name, depth)
         == if depth > MAX_JUMPS then Read(READNAME_ERROR, name) else Read(off + 1, name + [0])
  {
  }

  /** The reader accepts the name exactly within both limits, and returns it whole. */
  ghost predicate ReadsAs(p: seq<byte>, off: nat, ls: seq<Label>, j: nat, name: seq<byte>, depth: nat)
    requires off < U16_SIZE && |name| < DOMAIN_MAXLEN
  {
    var r := ReadLoop(p, off, name, depth);
    if depth + j <= MAX_JUMPS && |name| + |Encode(ls)| <= DOMAIN_MAXLEN
    then r == Read(EndOf(p, off, ls), name + Encode(ls)) && r.end != READNAME_ERROR
    else r.end == READNAME_ERROR
  }

  /** What the reader does with bytes that spell a name. */
  lemma {:induction false} ReadSpelled(p: seq<byte>, off: nat, ls: seq<Label>, j: nat, open: bool,
                                       name: seq<byte>, depth: nat)
    requires |p| <= UDP_PAYLOAD_MAX && off <= |p| && |name| < DOMAIN_MAXLEN
    requires Spells(p, off, ls, j, open)
    ensures ReadsAs(p, off, ls, j, name, depth)
    decreases |ls|, j
  {
    hide ReadLoop;
    EndOfBound(p, off, ls, j, open);
    if depth > MAX_JUMPS || off >= |p| || p[off] == 0 {
      ReadStops(p, off, name, depth);
    } else if IsJump(p[off]) {
      ReadSpelled(p, JumpTarget(p[off], p[off + 1]), ls, j - 1, open, name, depth + 1);
      ReadJump(p, off, name, depth);
    } else {
      ReadSpelledLabel(p, off, ls, j, open, name, depth);
    }
  }

  /** What is found at a label of a spelled name. */
  lemma SpelledLabel(p: seq<byte>, off: nat, ls: seq<Label>, j: nat, open: bool)
    requires off < |p| && 0 < p[off] && !IsJump(p[off]) && Spells(p, off, ls, j, open)
    ensures ls != [] && |ls[0]| == p[off] && off + 1 + |ls[0]| <= |p| && p[off + 1..off + 1 + |ls[0]|] == ls[0]
    ensures Spells(p, off + 1 + |ls[0]|, ls[1..], j, open)
    ensures EndOf(p, off, ls) == EndOf(p, off + 1 + |ls[0]|, ls[1..])
  {
  }

  lemma {:induction false} ReadSpelledLabel(p: seq<byte>, off: nat, ls: seq<Label>, j: nat, open: bool,
                                            name: seq<byte>, depth: nat)
    requires |p| <= UDP_PAYLOAD_MAX && |name| < DOMAIN_MAXLEN && depth <= MAX_JUMPS
    requires off < |p| && 0 < p[off] && !IsJump(p[off])
    requires Spells(p, off, ls, j, open)
    ensures ReadsAs(p, off, ls, j, name, depth)
    decreases |ls|, j, 0
  {
    hide ReadLoop, Spells, EndOf, Encode;
    SpelledLabel(p, off, ls, j, open);
    var c := |ls[0]|;
    EncodeCons(ls);
    if 1 + c + |name| >= DOMAIN_MAXLEN {
      ReadLabelTooLong(p, off, name, depth);
    } else {
      var name' := name + [p[off]] + p[off + 1..off + 1 + c];
      ReadLabel(p, off, name, depth);
      ReadSpelled(p, off + 1 + c, ls[1..], j, open, name', depth);
      assert name' + Encode(ls[1..]) == name + Encode(ls);
    }
  }

  /** What one turn of a successful read has found. */
  lemma ReadTurn(p: seq<byte>, off: nat, name: seq<byte>, depth: nat)
    requires |p| <= UDP_PAYLOAD_MAX && off <= |p| && |name| < DOMAIN_MAXLEN
    requires ReadLoop(p, off, name, depth).end != READNAME_ERROR
    ensures depth <= MAX_JUMPS
    ensures var c := GetAt(p, off);
            if IsJump(c) then
              && off + 1 < |p| && SIZEOF_DNS_HDR <= JumpTarget(c, p[off + 1]) < |p|
              && ReadLoop(p, JumpTarget(c, p[off + 1]), name, depth + 1).end != READNAME_ERROR
            else if c != 0 then
              && c <= LABEL_MAXLEN && off + 1 + c <= |p| && 1 + c + |name| < DOMAIN_MAXLEN
              && ReadLoop(p, off + 1 + c, name + [c] + p[off + 1..off + 1 + c], depth).end != READNAME_ERROR
            else true
  {
  }

  /** Whatever the packet holds, a successful read means the bytes spell the name returned. */
  lemma {:induction false} ReadSound(p: seq<byte>, off: nat, name: seq<byte>, depth: nat)
    returns (ls: seq<Label>, j: nat)
    requires |p| <= UDP_PAYLOAD_MAX && off <= |p| && |name| < DOMAIN_MAXLEN
    requires ReadLoop(p, off, name, depth).end != READNAME_ERROR
    ensures Spells(p, off, ls, j, true)
    ensures depth + j <= MAX_JUMPS && |name| + |Encode(ls)| <= DOMAIN_MAXLEN
    ensures ReadLoop(p, off, name, depth) == Read(EndOf(p, off, ls), name + Encode(ls))
    decreases DepthLeft(depth), DOMAIN_MAXLEN - |name|
  {
    hide ReadLoop, Encode, EndOf, Spells;
    var c := GetAt(p, off);
    ReadTurn(p, off, name, depth);
    if IsJump(c) {
      ls, j := ReadSound(p, JumpTarget(c, p[off + 1]), name, depth + 1);
      SpellsJump(p, off, ls, j, true);
      j := j + 1;
    } else if c == 0 {
      ls, j := [], 0;
      SpellsRoot(p, off);
    } else {
      var first: Label := p[off + 1..off + 1 + c];
      ls, j := ReadSound(p, off + 1 + c, name + [c] + first, depth);
      assert p[off..off + 1 + c] == [|first|] + first;
      SpellsCons(p, off, first, ls, j, true);
      ls := [first] + ls;

    }
    ReadSpelled(p, off, ls, j, true, name, depth);
  }

  /** The bytes spell a name within the reader's two limits. */
  ghost predicate Readable(p: seq<byte>, off: nat, ls: seq<Label>, j: nat) {
    Spells(p, off, ls, j, true) && j <= MAX_JUMPS && |Encode(ls)| <= DOMAIN_MAXLEN
  }

  /**
    Reader totality and exactness: over every packet content, cyclic pointers included, the
    reader succeeds if and only if the bytes spell a name through at most five pointers that
    fits the name buffer, and then it returns that name and the offset just past it.
   */
  lemma ReadNameExact(p: seq<byte>, off: nat)
    requires |p| <= UDP_PAYLOAD_MAX && off <= |p|
    ensures ReadName(p, off).end != READNAME_ERROR <==> exists ls: seq<Label>, j: nat :: Readable(p, off, ls, j)
    ensures forall ls: seq<Label>, j: nat :: Readable(p, off, ls, j) ==>
              ReadName(p, off) == Read(EndOf(p, off, ls), Encode(ls))
  {
    forall ls: seq<Label>, j: nat | Readable(p, off, ls, j)
      ensures ReadName(p, off) == Read(EndOf(p, off, ls), Encode(ls)) && ReadName(p, off).end != READNAME_ERROR
    {
      ReadSpelled(p, off, ls, j, true, [], 0);
    }
    if ReadName(p, off).end != READNAME_ERROR {
      var ls, j := ReadSound(p, off, [], 0);
      assert Readable(p, off, ls, j);
    }
  }

  /** A name spelled inside a prefix of the packet is spelled the same whatever follows it. */
  lemma {:induction false} SpellsExtends(q: seq<byte>, p: seq<byte>, off: nat, ls: seq<Label>, j: nat, open: bool)
    requires q <= p
    requires Spells(q, off, ls, j, false)
    ensures Spells(p, off, ls, j, open)
    ensures EndOf(p, off, ls) == EndOf(q, off, ls)
    decreases |ls|, j
  {
    if IsJump(q[off]) {
      SpellsExtends(q, p, JumpTarget(q[off], q[off + 1]), ls, j - 1, open);
    } else if ls != [] {
      SpellsExtends(q, p, off + 1 + |ls[0]|, ls[1..], j, open);
      assert p[off + 1..off + 1 + |ls[0]|] == q[off + 1..off + 1 + |ls[0]|];
    }
  }

  /** A header, the name "a", and the label "b" in front of the pointer 0xC0 0x0C. */
  function Pointed(): (p: seq<byte>) {
    [0, 0, 0, 0, 0, 0, 0, 0, 0, 0, 0, 0, 1, 97, 0, 1, 98, 0xC0, 0x0C]
  }

  /** Reading across one label. */
  lemma LabelStep(p: seq<byte>, off: nat, name: seq<byte>, depth: nat)
    requires depth <= MAX_JUMPS && off < |p| < U16_SIZE && 0 < p[off] <= LABEL_MAXLEN
    requires off + 1 + p[off] <= |p| && 1 + p[off] + |name| < DOMAIN_MAXLEN
    ensures ReadLoop(p, off, name, depth)
         == ReadLoop(p, off + 1 + p[off], name + [p[off]] + p[off + 1..off + 1 + p[off]], depth)
  {
    assert !IsJump(p[off]);
  }

  /** Reading through one pointer. */
  lemma JumpStep(p: seq<byte>, off: nat, name: seq<byte>, depth: nat)
    requires depth <= MAX_JUMPS && |name| < DOMAIN_MAXLEN && off + 2 <= |p| < U16_SIZE - 1 && IsJump(p[off])
    requires SIZEOF_DNS_HDR <= JumpTarget(p[off], p[off + 1]) < |p|
    ensures var r := ReadLoop(p, JumpTarget(p[off], p[off + 1]), name, depth + 1);
            r.end != READNAME_ERROR ==> ReadLoop(p, off, name, depth) == Read(off + 2, r.name)
  {
  }

  lemma PointedName()
    ensures ReadLoop(Pointed(), 12, [1, 98], 1) == Read(15, [1, 98, 1, 97, 0])
  {
    var p := Pointed();
    LabelStep(p, 12, [1, 98], 1);
    assert [1, 98] + [1] + p[13..14] == [1, 98, 1, 97];
    assert ReadLoop(p, 14, [1, 98, 1, 97], 1) == Read(15, [1, 98, 1, 97, 0]);
  }

  /** The second name is read through the pointer. */
  lemma PointerExample()
    ensures ReadName(Pointed(), 15) == Read(19, [1, 98, 1, 97, 0])
  {
    hide ReadLoop;
    var p := Pointed();
    LabelStep(p, 15, [], 0);
    assert [] + [1] + p[16..17] == [1, 98];
    JumpStep(p, 17, [1, 98], 0);
    PointedName();
  }
}
