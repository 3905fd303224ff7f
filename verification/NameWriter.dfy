/**
  Writing names with compression (`mdns_compress_domain`, `mdns_write_domain`): what a packet
  gains by one write, and when the name can be read back from it.
 */
module NameWriter {
  import opened Bytes
  import opened DomainNames
  import opened NameReader

  const NUM_DOMAIN_OFFSETS: nat := 10
  const DOMAIN_JUMP_SIZE: nat := 2
  const JUMP_TARGET_LIMIT: nat := 0x4000

  /** The packet under construction: `struct mdns_outpacket` without its section counters. */
  datatype Pkt = Pkt(bytes: seq<byte>, writeOffset: nat, offsets: seq<nat>)

  datatype Status = Ok | ErrMem | ErrVal | OutOfBounds

  datatype Written = Written(status: Status, pkt: Pkt)

  /** A place to jump to: `target` lies inside the stored name that starts at `from`. */
  datatype Match = NoMatch | At(writelen: nat, target: nat, from: nat) | Overrun

  /**
    The search loop of the compressor at position `w` of the new name. `writelen` has 8 bits in
    the original: once it passes 255 it wraps while the label cursor leaves the name buffer.
   */
  function CompressLoop(d: seq<byte>, w: nat, from: nat, name: seq<byte>, nameLen: nat): (m: Match)
    requires |d| <= DOMAIN_MAXLEN && |name| <= DOMAIN_MAXLEN
    ensures m.At? ==> m.writelen + DOMAIN_JUMP_SIZE < |d| && from == m.from <= m.target
    decreases DOMAIN_MAXLEN - w
  {
    if w >= |d| then NoMatch
    else
      var left := (|d| - w) % U8_SIZE;
      if DOMAIN_JUMP_SIZE < left <= |name| && |name| - left + DOMAIN_JUMP_SIZE >= nameLen then NoMatch
      else if DOMAIN_JUMP_SIZE < left <= |name| && d[w..w + left] == name[|name| - left..] then
        At(w, from + |name| - left, from)
      else if w + 1 + d[w] >= U8_SIZE then Overrun
      else CompressLoop(d, w + 1 + d[w], from, name, nameLen)
  }

  function Compress(p: seq<byte>, from: nat, d: seq<byte>): (m: Match)
    requires from < U16_SIZE && |d| <= DOMAIN_MAXLEN
    ensures m.At? ==> m.writelen + DOMAIN_JUMP_SIZE < |d| && from == m.from <= m.target
  {
    var r := ReadName(p, from);
    if r.end == READNAME_ERROR then NoMatch
    else CompressLoop(d, 0, from, r.name, (r.end - from) % U8_SIZE)
  }

  /** The best of `best` and the matches in the stored names from slot `i` on. */
  function BestMatch(p: seq<byte>, offsets: seq<nat>, i: nat, d: seq<byte>, best: Match): (m: Match)
    requires i <= |offsets| && |d| <= DOMAIN_MAXLEN
    requires forall n :: 0 <= n < |offsets| ==> offsets[n] < U16_SIZE
    requires best.At? ==> best.writelen + DOMAIN_JUMP_SIZE < |d| && 0 < best.target
    ensures m.At? ==> m.writelen + DOMAIN_JUMP_SIZE < |d| && 0 < m.target
    decreases |offsets| - i
  {
    if i == |offsets| || best.Overrun? then best
    else if offsets[i] == 0 then BestMatch(p, offsets, i + 1, d, best)
    else
      var m := Compress(p, offsets[i], d);
      var better := m.Overrun? || (m.At? && (best.At? ==> m.writelen < best.writelen));
      BestMatch(p, offsets, i + 1, d, if better then m else best)
  }

  function JumpBytes(target: nat): (s: seq<byte>)
    ensures |s| == DOMAIN_JUMP_SIZE
    ensures IsJump(s[0])
    ensures target < JUMP_TARGET_LIMIT ==> JumpTarget(s[0], s[1]) == target
  {
    Be16(0xC000 + target % JUMP_TARGET_LIMIT)
  }

  /** A pointer has its two top bits set and the target in the other fourteen. */
  lemma PointerBytes(target: nat)
    requires target < 0x4000
    ensures JumpBytes(target) == [192 + target / 256, target % 256]
  {
  }

  /** `domain_offsets` with `off` in its first free slot, if it has one. */
  function Store(offsets: seq<nat>, off: nat): (r: seq<nat>)
    ensures |r| == |offsets|
    ensures forall i :: 0 <= i < |r| ==> r[i] == offsets[i] || r[i] == off
  {
    if offsets == [] then []
    else if offsets[0] == 0 then [off] + offsets[1..]
    else [offsets[0]] + Store(offsets[1..], off)
  }

  /** The first `i` slots taken, and the next one free if there is one. */
  lemma {:induction false} StoreFirst(offsets: seq<nat>, i: nat, off: nat)
    requires i <= |offsets| && forall n :: 0 <= n < i ==> offsets[n] != 0
    requires i < |offsets| ==> offsets[i] == 0
    ensures Store(offsets, off) == if i < |offsets| then offsets[i := off] else offsets
  {
    if i > 0 {
      StoreFirst(offsets[1..], i - 1, off);
    }
  }

  /** `pbuf_take_at` on a packet buffer: even an empty store needs an offset inside the buffer. */
  predicate Fits(p: seq<byte>, len: nat, off: nat) {
    off < |p| && off + len <= |p|
  }

  /** The match `mdns_write_domain` settles on. */
  function Chosen(k: Pkt, d: seq<byte>, skip: bool): (m: Match)
    requires WellSized(k) && |d| <= DOMAIN_MAXLEN
    ensures m.At? ==> m.writelen + DOMAIN_JUMP_SIZE < |d| && 0 < m.target
  {
    if skip then NoMatch else BestMatch(k.bytes, k.offsets, 0, d, NoMatch)
  }

  predicate WellSized(k: Pkt) {
    && SIZEOF_DNS_HDR <= k.writeOffset <= |k.bytes| <= JUMP_TARGET_LIMIT
    && |k.offsets| == NUM_DOMAIN_OFFSETS
    && forall n :: 0 <= n < |k.offsets| ==> k.offsets[n] < U16_SIZE
  }

  /** Writes the first `n` bytes of the name and records where it starts. */
  function WriteLiteral(k: Pkt, d: seq<byte>, n: nat): (r: Written)
    requires n <= |d|
  {
    if n == 0 then Written(Ok, k)
    else if !Fits(k.bytes, n, k.writeOffset) then Written(ErrMem, k)
    else Written(Ok, Pkt(Splice(k.bytes, k.writeOffset, d[..n]), k.writeOffset + n, Store(k.offsets, k.writeOffset)))
  }

  function WriteDomain(k: Pkt, d: seq<byte>, skip: bool): (r: Written)
    requires WellSized(k) && |d| <= DOMAIN_MAXLEN
  {
    match Chosen(k, d, skip)
    case Overrun => Written(OutOfBounds, k)
    case NoMatch => WriteLiteral(k, d, |d|)
    case At(n, target, _) =>
      var r := WriteLiteral(k, d, n);
      if r.status != Ok then r
      else if !Fits(r.pkt.bytes, DOMAIN_JUMP_SIZE, r.pkt.writeOffset) then Written(ErrMem, r.pkt)
      else
        Written(Ok, r.pkt.(bytes := Splice(r.pkt.bytes, r.pkt.writeOffset, JumpBytes(target)),
                           writeOffset := r.pkt.writeOffset + DOMAIN_JUMP_SIZE))
  }
}
