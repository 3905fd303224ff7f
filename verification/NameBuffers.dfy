/**
  The name and packet buffers of `mdns_domain.c` as they are updated in place. Every method is
  proved to compute the function that specifies it.
 */
module NameBuffers {
  import opened Bytes
  import opened DomainNames
  import opened NameReader
  import opened NameWriter

  /** `struct mdns_domain`. */
  class Domain {
    const name: array<byte>
    var length: nat
    var skipCompression: bool

    ghost predicate Valid()
      reads this
    {
      name.Length == DOMAIN_MAXLEN && length <= DOMAIN_MAXLEN
    }

    ghost function Contents(): (s: seq<byte>)
      requires Valid()
      reads this, name
    {
      name[..length]
    }

    constructor ()
      ensures Valid() && fresh(name) && Contents() == [] && !skipCompression
    {
      name := new byte[DOMAIN_MAXLEN](_ => 0);
      length, skipCompression := 0, false;
    }

    /** `mdns_domain_add_label_base`: the length byte, if a label of that length may follow. */
    method AddLabelBase(len: nat) returns (status: Status)
      requires Valid() && len < U8_SIZE
      modifies this`length, name
      ensures Valid()
      ensures status == (if len > LABEL_MAXLEN || old(length) + len + (if len > 0 then 2 else 1) > DOMAIN_MAXLEN
                         then ErrVal else Ok)
      ensures Contents() == if status == Ok then old(Contents()) + [len] else old(Contents())
      ensures status == Ok ==> length + len <= DOMAIN_MAXLEN
    {
      if len > LABEL_MAXLEN {
        return ErrVal;
      }
      if len > 0 && 1 + len + length >= DOMAIN_MAXLEN {
        return ErrVal;
      }
      if len == 0 && 1 + length > DOMAIN_MAXLEN {
        return ErrVal;
      }
      name[length] := len;
      length := length + 1;
      return Ok;
    }

    /** Copies `data` behind the current contents. */
    method Append(data: seq<byte>)
      requires Valid() && length + |data| <= DOMAIN_MAXLEN
      modifies this`length, name
      ensures Valid() && Contents() == old(Contents()) + data
    {
      for i := 0 to |data|
        invariant length == old(length)
        invariant name[..length + i] == old(Contents()) + data[..i]
      {
        name[length + i] := data[i];
        assert name[..length + i + 1] == name[..length + i] + [data[i]];
      }
      length := length + |data|;
    }

    /** `mdns_domain_add_label`. */
    method AddLabel(label_: seq<byte>) returns (status: Status)
      requires Valid() && |label_| < U8_SIZE
      modifies this`length, name
      ensures Valid()
      ensures status == (if |label_| > LABEL_MAXLEN
                            || old(length) + |label_| + (if label_ != [] then 2 else 1) > DOMAIN_MAXLEN
                         then ErrVal else Ok)
      ensures Contents() == if status == Ok then old(Contents()) + [|label_|] + label_ else old(Contents())
    {
      status := AddLabelBase(|label_|);
      if status == Ok && |label_| > 0 {
        Append(label_);
      }
    }

    /** `mdns_domain_add_label_pbuf`: copies the label out of the packet, or takes its length byte back. */
    method AddLabelPbuf(p: seq<byte>, off: nat, len: nat) returns (status: Status)
      requires Valid() && len < U8_SIZE
      modifies this`length, name
      ensures Valid()
      ensures status == Ok <==>
              && len <= LABEL_MAXLEN && old(length) + len + (if len > 0 then 2 else 1) <= DOMAIN_MAXLEN
              && (len > 0 ==> off + len <= |p|)
      ensures Contents() == if status == Ok && len > 0 then old(Contents()) + [len] + p[off..off + len]
                            else if status == Ok then old(Contents()) + [0]
                            else old(Contents())
    {
      status := AddLabelBase(len);
      if status == Ok && len > 0 {
        if off + len > |p| {
          length := length - 1;
          return ErrVal;
        }
        Append(p[off..off + len]);
      }
    }
  }

  /** `mdns_readname_loop`. */
  method ReadNameLoop(p: seq<byte>, offset: nat, domain: Domain, depth: nat) returns (end: nat)
    requires domain.Valid() && domain.length < DOMAIN_MAXLEN && offset < U16_SIZE
    modifies domain`length, domain.name
    ensures domain.Valid()
    ensures Read(end, domain.Contents()) == ReadLoop(p, offset, old(domain.Contents()), depth)
    decreases DepthLeft(depth)
  {
    hide ReadLoop;
    var off: nat := offset;
    ghost var result := ReadLoop(p, offset, domain.Contents(), depth);
    while true
      invariant domain.Valid() && domain.length < DOMAIN_MAXLEN && off < U16_SIZE
      invariant ReadLoop(p, off, domain.Contents(), depth) == result
      decreases DOMAIN_MAXLEN - domain.length
    {
      ReaderTurn(p, off, domain.Contents(), depth);
      if depth > MAX_JUMPS {
        return READNAME_ERROR;
      }
      var c := GetAt(p, off);
      off := U16(off + 1);
      if IsJump(c) {
        if off >= |p| {
          return READNAME_ERROR;
        }
        var jumpaddr := JumpTarget(c, GetAt(p, off));
        off := U16(off + 1);
        if SIZEOF_DNS_HDR <= jumpaddr < |p| {
          var res := ReadNameLoop(p, jumpaddr, domain, depth + 1);
          return if res == READNAME_ERROR then res else off;
        }
        return READNAME_ERROR;
      }
      if c > LABEL_MAXLEN || c + domain.length >= DOMAIN_MAXLEN {
        return READNAME_ERROR;
      }
      var status := domain.AddLabelPbuf(p, off, c);
      if status != Ok {
        return READNAME_ERROR;
      }
      off := U16(off + c);
      if c == 0 {
        return off;
      }
    }
  }

  /** `mdns_readname`: the memset in front of the loop is the fresh domain. */
  method ReadNameInto(p: seq<byte>, offset: nat) returns (end: nat, domain: Domain)
    requires offset < U16_SIZE
    ensures fresh(domain) && fresh(domain.name) && domain.Valid()
    ensures Read(end, domain.Contents()) == ReadName(p, offset)
  {
    domain := new Domain();
    end := ReadNameLoop(p, offset, domain, 0);
  }

  /** One turn of that loop. */
  lemma CompressTurn(d: seq<byte>, w: nat, from: nat, t: seq<byte>, tLen: nat)
    requires w < |d| <= DOMAIN_MAXLEN && |t| <= DOMAIN_MAXLEN
    ensures var left, m := (|d| - w) % U8_SIZE, CompressLoop(d, w, from, t, tLen);
            if DOMAIN_JUMP_SIZE < left <= |t| && |t| - left + DOMAIN_JUMP_SIZE >= tLen then m == NoMatch
            else if DOMAIN_JUMP_SIZE < left <= |t| && d[w..w + left] == t[|t| - left..]
            then m == At(w, from + |t| - left, from)
            else if w + 1 + d[w] >= U8_SIZE then m == Overrun
            else m == CompressLoop(d, w + 1 + d[w], from, t, tLen)
  {
  }

  /** The loop of `mdns_compress_domain` over the labels of the new name. */
  method FindSuffix(domain: Domain, target: Domain, from: nat, targetLen: nat)
    returns (overrun: bool, writelen: nat, offset: nat)
    requires domain.Valid() && target.Valid()
    ensures var m := CompressLoop(domain.Contents(), 0, from, target.Contents(), targetLen);
            && (overrun <==> m.Overrun?)
            && writelen == (if m.At? then m.writelen else domain.length)
            && (m.At? ==> offset == m.target)
  {
    hide CompressLoop;
    overrun, writelen, offset := false, domain.length, from;
    ghost var d, t := domain.Contents(), target.Contents();
    var w: nat := 0;
    while w < domain.length
      invariant CompressLoop(d, 0, from, t, targetLen) == CompressLoop(d, w, from, t, targetLen)
      decreases DOMAIN_MAXLEN - w
    {
      CompressTurn(d, w, from, t, targetLen);
      var left := (domain.length - w) % U8_SIZE;
      if left <= target.length && left > DOMAIN_JUMP_SIZE {
        var pos := target.length - left;
        if pos + DOMAIN_JUMP_SIZE >= targetLen {
          return;
        }
        SliceOfPrefix(domain.name[..], domain.length, w, w + left);
        SliceOfPrefix(target.name[..], target.length, pos, pos + left);
        assert d[w..w + left] == domain.name[w..w + left] && t[pos..pos + left] == target.name[pos..pos + left];
        assert t[pos..pos + left] == t[pos..];
        if domain.name[w..w + left] == target.name[pos..pos + left] {
          return false, w, from + pos;
        }
      }
      var labellen := domain.name[w];
      if w + 1 + labellen >= U8_SIZE {
        return true, domain.length, from;
      }
      w := w + 1 + labellen;
    }
    assert CompressLoop(d, w, from, t, targetLen) == NoMatch by { CompressDone(d, w, from, t, targetLen); }
  }

  lemma CompressDone(d: seq<byte>, w: nat, from: nat, t: seq<byte>, tLen: nat)
    requires |d| <= w && |d| <= DOMAIN_MAXLEN && |t| <= DOMAIN_MAXLEN
    ensures CompressLoop(d, w, from, t, tLen) == NoMatch
  {
  }

  /**
    `mdns_compress_domain`: how much of the name to write before a jump, and where to jump.
    `overrun` tells that the label cursor has left the name buffer.
   */
  method CompressDomain(p: seq<byte>, from: nat, domain: Domain) returns (overrun: bool, writelen: nat, offset: nat)
    requires domain.Valid() && from < U16_SIZE
    ensures var m := Compress(p, from, domain.Contents());
            && (overrun <==> m.Overrun?)
            && writelen == (if m.At? then m.writelen else domain.length)
            && (m.At? ==> offset == m.target)
  {
    hide ReadLoop, CompressLoop;
    var end, target := ReadNameInto(p, from);
    if end == READNAME_ERROR {
      return false, domain.length, from;
    }
    overrun, writelen, offset := FindSuffix(domain, target, from, (end - from) % U8_SIZE);
  }

  /** `struct mdns_outpacket`, once its buffer is there. */
  class OutPacket {
    const pbuf: array<byte>
    var writeOffset: nat
    const domainOffsets: array<nat>
    var questions: nat
    var answers: nat
    var authoritative: nat
    var additional: nat

    ghost predicate Valid()
      reads this, pbuf, domainOffsets
    {
      domainOffsets.Length == NUM_DOMAIN_OFFSETS && WellSized(View())
    }

    ghost function View(): (k: Pkt)
      reads this, pbuf, domainOffsets
    {
      Pkt(pbuf[..], writeOffset, domainOffsets[..])
    }

    /** A fresh packet of `size` bytes, written from behind its header on. */
    constructor (size: nat)
      requires SIZEOF_DNS_HDR <= size <= JUMP_TARGET_LIMIT
      ensures Valid() && fresh(pbuf) && fresh(domainOffsets) && pbuf.Length == size
      ensures questions == answers == authoritative == additional == 0
      ensures writeOffset == SIZEOF_DNS_HDR && forall n :: 0 <= n < NUM_DOMAIN_OFFSETS ==> domainOffsets[n] == 0
    {
      pbuf := new byte[size](_ => 0);
      domainOffsets := new nat[NUM_DOMAIN_OFFSETS](_ => 0);
      writeOffset := SIZEOF_DNS_HDR;
      questions, answers, authoritative, additional := 0, 0, 0, 0;
    }

    /** `pbuf_take_at`. */
    method TakeAt(data: seq<byte>, off: nat) returns (status: Status)
      modifies pbuf
      ensures status == if Fits(old(pbuf[..]), |data|, off) then Ok else ErrMem
      ensures pbuf[..] == if status == Ok then Splice(old(pbuf[..]), off, data) else old(pbuf[..])
    {
      if off >= pbuf.Length || off + |data| > pbuf.Length {
        return ErrMem;
      }
      for i := 0 to |data|
        invariant pbuf[..] == old(pbuf[..])[..off] + data[..i] + old(pbuf[..])[off + i..]
      {
        pbuf[off + i] := data[i];
      }
      return Ok;
    }

    /** The loop that records where a new name starts. */
    method StoreOffset(off: nat)
      modifies domainOffsets
      ensures domainOffsets[..] == Store(old(domainOffsets[..]), off)
    {
      for i := 0 to domainOffsets.Length
        invariant forall n :: 0 <= n < i ==> domainOffsets[n] != 0
        invariant domainOffsets[..] == old(domainOffsets[..])
      {
        if domainOffsets[i] == 0 {
          StoreFirst(domainOffsets[..], i, off);
          domainOffsets[i] := off;
          return;
        }
      }
      StoreFirst(domainOffsets[..], domainOffsets.Length, off);
    }

    /** The search loop of `mdns_write_domain` over the stored names. */
    method FindBest(domain: Domain) returns (overrun: bool, writelen: nat, jump: nat)
      requires Valid() && domain.Valid()
      ensures var m := Chosen(View(), domain.Contents(), domain.skipCompression);
              && (overrun <==> m.Overrun?)
              && (!overrun ==> writelen == (if m.At? then m.writelen else domain.length))
              && (!overrun ==> jump == (if m.At? then m.target else 0))
    {
      overrun, writelen, jump := false, domain.length, 0;
      if domain.skipCompression {
        return;
      }
      ghost var p, o, d := pbuf[..], domainOffsets[..], domain.Contents();
      ghost var best: Match := NoMatch;
      for i := 0 to NUM_DOMAIN_OFFSETS
        invariant best.At? ==> best.writelen + DOMAIN_JUMP_SIZE < |d| && 0 < best.target
        invariant !best.Overrun?
        invariant BestMatch(p, o, 0, d, NoMatch) == BestMatch(p, o, i, d, best)
        invariant writelen == (if best.At? then best.writelen else domain.length)
        invariant jump == (if best.At? then best.target else 0)
      {
        if domainOffsets[i] != 0 {
          var over, len, off := CompressDomain(pbuf[..], domainOffsets[i], domain);
          ghost var m := Compress(p, o[i], d);
          if over {
            return true, len, off;
          }
          if len < writelen {
            writelen, jump := len, off;
            best := m;
          }
        }
      }
    }
  
    /** Stores the uncompressed part of a name. */
    method WriteStart(domain: Domain, n: nat) returns (status: Status)
      requires Valid() && domain.Valid() && domain.name != pbuf && n <= domain.length
      modifies this`writeOffset, pbuf, domainOffsets
      ensures Written(status, View()) == WriteLiteral(old(View()), old(domain.Contents()), n)
      ensures domain.Contents() == old(domain.Contents())
    {
      hide Store;
      if n > 0 {
        assert domain.name[..n] == domain.Contents()[..n];
        status := TakeAt(domain.name[..n], writeOffset);
        if status != Ok {
          return;
        }
        StoreOffset(writeOffset);
        writeOffset := writeOffset + n;
      }
      return Ok;
    }

    /** `mdns_write_domain`. */
    method Write(domain: Domain) returns (status: Status)
      requires Valid() && domain.Valid() && domain.name != pbuf
      modifies this`writeOffset, pbuf, domainOffsets
      ensures Written(status, View()) == WriteDomain(old(View()), old(domain.Contents()), domain.skipCompression)
      ensures domain.Contents() == old(domain.Contents())
    {
      hide BestMatch, WriteLiteral;
      var overrun, writelen, jump := FindBest(domain);
      if overrun {
        return OutOfBounds;
      }
      status := WriteStart(domain, writelen);
      if status != Ok {
        return;
      }
      if jump != 0 {
        status := TakeAt(JumpBytes(jump), writeOffset);
        if status != Ok {
          return;
        }
        writeOffset := writeOffset + DOMAIN_JUMP_SIZE;
      }
      return Ok;
    }
  }
}
