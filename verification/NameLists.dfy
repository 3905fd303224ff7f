/**
  The names stored in a packet, slot by slot, and what the compressor finds among them.
 */
module NameLists {
  import opened Bytes
  import opened DomainNames
  import opened NameReader
  import opened NameWriter
  import opened NameRoundTrip
  import opened NameRuns
  import opened Records

  /** A stored name: the jumps that reading it takes, and its labels that are written out. */
  datatype Entry = Entry(ls: seq<Label>, j: nat, a: nat)

  ghost predicate Stored(k: Pkt, off: nat, e: Entry)
    requires k.writeOffset <= |k.bytes|
  {
    StoredName(Done(k), off, e.ls, e.j, e.a) && (e.ls != [] ==> e.a > 0)
  }

  /** The slots hold the names `l` in this order, and the other slots are free. */
  ghost predicate Lists(k: Pkt, l: seq<Entry>) {
    && WellSized(k) && |l| <= NUM_DOMAIN_OFFSETS
    && (forall n :: 0 <= n < |l| ==> k.offsets[n] != 0 && Stored(k, k.offsets[n], l[n]))
    && (forall n :: |l| <= n < |k.offsets| ==> k.offsets[n] == 0)
  }

  lemma ListsInv(k: Pkt, l: seq<Entry>)
    requires Lists(k, l)
    ensures Inv(k)
  {
    hide StoredName;
    forall n | 0 <= n < |k.offsets| && k.offsets[n] != 0
      ensures exists ls, j: nat, a: nat :: StoredName(Done(k), k.offsets[n], ls, j, a)
    {
      assert Stored(k, k.offsets[n], l[n]);
      assert StoredName(Done(k), k.offsets[n], l[n].ls, l[n].j, l[n].a);
    }
  }

  // ----- What the compressor finds

  /** The match of `ls` lies in the stored name `e`: from label `b` there, from label `i` here. */
  ghost predicate MatchIn(k: Pkt, ls: seq<Label>, m: Match, e: Entry, i: nat, b: nat) {
    && m.At? && i < |ls| && m.writelen == Start(ls, i) && b < |e.ls| && e.ls[b..] == ls[i..]
    && Aligned(k.bytes, ls, m) && Jumps(k.bytes, m.from, 0) == e.j && e.j + 1 <= |ls| - i
  }

  /** Without clashes a match is a common tail with one of the stored names. */
  lemma ChosenEntry(k: Pkt, l: seq<Entry>, ls: seq<Label>, skip: bool) returns (n: nat, i: nat, b: nat)
    requires Lists(k, l) && |Encode(ls)| < DOMAIN_MAXLEN && forall e :: e in l ==> NoClash(e.ls, ls)
    ensures var m := Chosen(k, Encode(ls), skip);
            m == NoMatch || (n < |l| && MatchIn(k, ls, m, l[n], i, b))
  {
    hide Encode, Start, Compress, Aligned, Jumps, NoClash, StoredName, Found;
    n, i, b := 0, 0, 0;
    var d := Encode(ls);
    var m := Chosen(k, d, skip);
    if m != NoMatch {
      n := BestIsSome(k.bytes, k.offsets, 0, d, NoMatch);
      var e := l[n];
      assert Stored(k, k.offsets[n], e) && e in l;
      StoredBounds(Done(k), k.offsets[n], e.ls, e.j, e.a);
      i := CompressSound(Done(k), k.bytes, k.offsets[n], e.ls, e.j, e.a, ls);
      FoundFrom(m, ls, i, k.offsets[n], Encode(e.ls), Start(e.ls, e.a) + if e.j > 0 then 2 else 1);
      b := ClashFreeTail(ls, m, i, e.ls, Start(e.ls, e.a) + if e.j > 0 then 2 else 1);
      ClashFreeAligned(k, ls, m, i, e.ls, e.j, e.a);
      SafetyOfMatch(k, ls, m, i, e.ls, e.j, e.a);
      AlignedTail(k, ls, m, i, e.ls, e.j, e.a);
    }
  }

  lemma StoredBounds(q: seq<byte>, o: nat, ls: seq<Label>, j: nat, a: nat)
    requires StoredName(q, o, ls, j, a)
    ensures a + j <= |ls|
  {
    hide Spells, SplitAt;
  }

  lemma FoundFrom(m: Match, ls: seq<Label>, i: nat, from: nat, name: seq<byte>, len: nat)
    requires Found(m, ls, i, from, name, len)
    ensures m.At? && m.from == from && i < |ls| && m.writelen == Start(ls, i)
  {
  }

  /** A label start before another lies two bytes in front of it at least. */
  lemma {:induction false} StartGrows(ls: seq<Label>, i: nat, k: nat)
    requires i < k <= |ls|
    ensures Start(ls, i) + 2 <= Start(ls, k)
  {
    if i == 0 {
      assert Start(ls, 0) == 0;
    } else {
      StartGrows(ls[1..], i - 1, k - 1);
    }
  }

  /** Two names with a common tail end in the same bytes. */
  lemma CommonTail(ls: seq<Label>, i: nat, tls: seq<Label>, b: nat)
    requires i < |ls| && b < |tls| && tls[b..] == ls[i..]
    ensures |Encode(tls)| - Start(tls, b) == |Encode(ls)| - Start(ls, i) > DOMAIN_JUMP_SIZE
    ensures Encode(ls)[Start(ls, i)..] == Encode(tls)[Start(tls, b)..]
  {
    hide Encode, Start;
    HeadEncode(ls, i);
    HeadEncode(tls, b);
    StartGrows(ls, i, |ls|);
    HeadEncode(ls, |ls|);
  }

  /** One turn of the compressor's loop in front of a common tail: it finds something or goes on. */
  lemma CompressGoesOn(d: seq<byte>, w: nat, from: nat, name: seq<byte>, nameLen: nat, t: nat, s: nat)
    requires |d| < DOMAIN_MAXLEN && |name| <= DOMAIN_MAXLEN && w <= s && t <= |name|
    requires |name| - t == |d| - s > DOMAIN_JUMP_SIZE && d[s..] == name[t..] && t + DOMAIN_JUMP_SIZE < nameLen
    requires w + 1 + d[w] <= |d|
    ensures var m := CompressLoop(d, w, from, name, nameLen);
            || (m.At? && m.writelen == w)
            || (w < s && m == CompressLoop(d, w + 1 + d[w], from, name, nameLen))
  {
    var left := |d| - w;
    assert d[w..w + left] == d[w..];
    if w == s {
      assert name[|name| - left..] == name[t..];
    }
  }

  /** A common tail in front of the stored name's pointer is found, or a longer one. */
  lemma {:induction false} CompressLoopFinds(ls: seq<Label>, k: nat, from: nat, tls: seq<Label>, nameLen: nat,
                                             i: nat, b: nat)
    requires |Encode(ls)| < DOMAIN_MAXLEN && |Encode(tls)| < DOMAIN_MAXLEN
    requires k <= i < |ls| && b < |tls| && tls[b..] == ls[i..] && Start(tls, b) + DOMAIN_JUMP_SIZE < nameLen
    ensures var m := CompressLoop(Encode(ls), Start(ls, k), from, Encode(tls), nameLen);
            m.At? && m.writelen <= Start(ls, i)
    decreases i - k
  {
    hide CompressLoop, Encode, Start;
    CommonTail(ls, i, tls, b);
    LabelAt(ls, k);
    LabelAt(ls, k + 1);
    if k < i {
      StartGrows(ls, k, i);
    }
    CompressGoesOn(Encode(ls), Start(ls, k), from, Encode(tls), nameLen, Start(tls, b), Start(ls, i));
    if k < i {
      CompressLoopFinds(ls, k + 1, from, tls, nameLen, i, b);
    }
  }

  lemma CompressFinds(k: Pkt, off: nat, e: Entry, ls: seq<Label>, i: nat, b: nat)
    requires WellSized(k) && off < U16_SIZE && Stored(k, off, e) && e.j <= MAX_JUMPS
    requires |Encode(e.ls)| < DOMAIN_MAXLEN && |Encode(ls)| < DOMAIN_MAXLEN
    requires i < |ls| && b < e.a <= |e.ls| && e.ls[b..] == ls[i..]
    ensures var m := Compress(k.bytes, off, Encode(ls)); m.At? && m.writelen <= Start(ls, i)
  {
    hide ReadLoop, CompressLoop, Encode, Start, Spells, SplitAt, LiteralEnd;
    StoredReads(Done(k), k.bytes, off, e.ls, e.j, e.a);
    StartGrows(e.ls, b, e.a);
    LiteralLength(k, off, e);
    assert Start(ls, 0) == 0 by { StartZero(ls); }
    CompressLoopFinds(ls, 0, off, e.ls, Start(e.ls, e.a) + (if e.j > 0 then 2 else 1), i, b);
  }

  /** The bytes a stored name itself takes. */
  lemma LiteralLength(k: Pkt, off: nat, e: Entry)
    requires WellSized(k) && Stored(k, off, e) && |Encode(e.ls)| < DOMAIN_MAXLEN
    ensures e.a <= |e.ls| && Start(e.ls, e.a) + (if e.j > 0 then 2 else 1) < DOMAIN_MAXLEN
  {
    hide Encode, Start, Spells, LiteralEnd, EndOf;
    HeadEncode(e.ls, |e.ls|);
    if e.a < |e.ls| {
      StartGrows(e.ls, e.a, |e.ls|);
    }
  }

  /** The search keeps the shortest rest seen. */
  lemma {:induction false} BestKeeps(p: seq<byte>, offsets: seq<nat>, i: nat, d: seq<byte>, best: Match)
    requires i <= |offsets| && |d| <= DOMAIN_MAXLEN
    requires forall n :: 0 <= n < |offsets| ==> offsets[n] < U16_SIZE
    requires best.At? && best.writelen + DOMAIN_JUMP_SIZE < |d| && 0 < best.target
    ensures var m := BestMatch(p, offsets, i, d, best); m.Overrun? || (m.At? && m.writelen <= best.writelen)
    decreases |offsets| - i
  {
    hide Compress;
    if i < |offsets| {
      if offsets[i] == 0 {
        BestKeeps(p, offsets, i + 1, d, best);
      } else {
        var m := Compress(p, offsets[i], d);
        if !m.Overrun? {
          BestKeeps(p, offsets, i + 1, d, if m.At? && m.writelen < best.writelen then m else best);
        }
      }
    }
  }

  /** No stored name has a longer match than the one chosen. */
  lemma {:induction false} BestIsBest(p: seq<byte>, offsets: seq<nat>, i: nat, d: seq<byte>, best: Match, n: nat)
    requires i <= n < |offsets| && |d| <= DOMAIN_MAXLEN && offsets[n] != 0
    requires forall n :: 0 <= n < |offsets| ==> offsets[n] < U16_SIZE
    requires best.At? ==> best.writelen + DOMAIN_JUMP_SIZE < |d| && 0 < best.target
    requires Compress(p, offsets[n], d).At?
    ensures var m := BestMatch(p, offsets, i, d, best);
            m.Overrun? || (m.At? && m.writelen <= Compress(p, offsets[n], d).writelen)
    decreases n - i
  {
    hide Compress;
    if !best.Overrun? {
      if offsets[i] == 0 {
        BestIsBest(p, offsets, i + 1, d, best, n);
      } else {
        var m := Compress(p, offsets[i], d);
        var next := if m.Overrun? || (m.At? && (best.At? ==> m.writelen < best.writelen)) then m else best;
        if i < n {
          BestIsBest(p, offsets, i + 1, d, next, n);
        } else {
          BestKeeps(p, offsets, i + 1, d, next);
        }
      }
    }
  }

  /** Compression is complete: a tail that a stored name shares is never written out again. */
  lemma ChosenIsBest(k: Pkt, l: seq<Entry>, ls: seq<Label>, n: nat, i: nat, b: nat)
    requires Lists(k, l) && |Encode(ls)| < DOMAIN_MAXLEN
    requires n < |l| && l[n].j <= MAX_JUMPS && |Encode(l[n].ls)| < DOMAIN_MAXLEN
    requires i < |ls| && b < l[n].a <= |l[n].ls| && l[n].ls[b..] == ls[i..]
    ensures var m := Chosen(k, Encode(ls), false); m.At? && m.writelen <= Start(ls, i)
  {
    hide Encode, Start, Compress, BestMatch, StoredName;
    assert Stored(k, k.offsets[n], l[n]);
    CompressFinds(k, k.offsets[n], l[n], ls, i, b);
    BestIsBest(k.bytes, k.offsets, 0, Encode(ls), NoMatch, n);
    NoOverrun(k, ls, false);
  }

  // ----- What a store does to the list

  lemma StoredLater(k: Pkt, k': Pkt, off: nat, e: Entry)
    requires WellSized(k) && WellSized(k') && Done(k) <= Done(k') && Stored(k, off, e)
    ensures Stored(k', off, e)
  {
    hide StoredName;
    StoredExtends(Done(k), Done(k'), off, e.ls, e.j, e.a);
  }

  /** A field leaves the list as it is. */
  lemma RawKeepsLists(k: Pkt, l: seq<Entry>, data: seq<byte>)
    requires Lists(k, l) && TakeRaw(k, data).status == Ok
    ensures Lists(TakeRaw(k, data).pkt, l)
  {
    hide Stored;
    ListsInv(k, l);
    RawKeepsInv(k, data);
    var k' := TakeRaw(k, data).pkt;
    forall n | 0 <= n < |l| ensures Stored(k', k'.offsets[n], l[n]) {
      StoredLater(k, k', k.offsets[n], l[n]);
    }
  }

  /** How a name was written: whole, or up to a pointer to a stored name. */
  ghost predicate WrittenAs(k: Pkt, e: Entry, skip: bool)
    requires WellSized(k) && |Encode(e.ls)| <= DOMAIN_MAXLEN
  {
    var m := Chosen(k, Encode(e.ls), skip);
    if m.At? then e.a <= |e.ls| && m.writelen == Start(e.ls, e.a) && e.j == Jumps(k.bytes, m.from, 0) + 1
    else e.a == |e.ls| && e.j == 0
  }

  /** A safe write adds the name to the list, unless all of it was found or no slot is free. */
  lemma WriteListed(k: Pkt, l: seq<Entry>, ls: seq<Label>, skip: bool) returns (e: Entry, l': seq<Entry>)
    requires Lists(k, l) && ls != [] && |Encode(ls)| < DOMAIN_MAXLEN
    requires WriteDomain(k, Encode(ls), skip).status == Ok && Safe(k, ls, skip)
    ensures e.ls == ls && WrittenAs(k, e, skip)
    ensures l' == (if e.a == 0 || |l| == NUM_DOMAIN_OFFSETS then l else l + [e])
    ensures Lists(WriteDomain(k, Encode(ls), skip).pkt, l')
  {
    hide Encode, WriteDomain, Chosen, Safe, StoredName, Start, Jumps, Store, NewBytes;
    var k' := WriteDomain(k, Encode(ls), skip).pkt;
    ListsInv(k, l);
    WriteAppends(k, Encode(ls), skip);
    var j, a := SafeSpells(k, ls, skip);
    StoredBounds(Done(k'), k.writeOffset, ls, j, a);
    e := Entry(ls, j, a);
    StartPositive(ls, a);
    WrittenSomething(k, ls, skip, a);
    l' := if a == 0 || |l| == NUM_DOMAIN_OFFSETS then l else l + [e];
    ListedNow(k, k', l, e, l');
  }

  /** The new bytes of a name hold some of it, unless it was found whole. */
  lemma WrittenSomething(k: Pkt, ls: seq<Label>, skip: bool, a: nat)
    requires WellSized(k) && a <= |ls| && ls != [] && |Encode(ls)| < DOMAIN_MAXLEN
    requires var m := Chosen(k, Encode(ls), skip); if m.At? then m.writelen == Start(ls, a) else a == |ls|
    ensures var d := Encode(ls);
            var m := Chosen(k, d, skip);
            (NewBytes(d, m) != [] && !(m.At? && m.writelen == 0)) <==> a != 0
  {
    hide Encode, Chosen, Start;
    StartPositive(ls, a);
  }

  /** The list after a store: with the new entry if there is one and a slot for it. */
  lemma ListedNow(k: Pkt, k': Pkt, l: seq<Entry>, e: Entry, l': seq<Entry>)
    requires Lists(k, l) && WellSized(k') && Done(k) <= Done(k')
    requires k'.offsets == if e.a != 0 then Store(k.offsets, k.writeOffset) else k.offsets
    requires e.a != 0 ==> Stored(k', k.writeOffset, e)
    requires l' == if e.a == 0 || |l| == NUM_DOMAIN_OFFSETS then l else l + [e]
    ensures Lists(k', l')
  {
    hide Stored, Store;
    StoreFirst(k.offsets, |l|, k.writeOffset);
    forall n | 0 <= n < |l'| ensures k'.offsets[n] != 0 && Stored(k', k'.offsets[n], l'[n]) {
      if n < |l| {
        StoredLater(k, k', k.offsets[n], l[n]);
      }
    }
  }

  lemma StartPositive(ls: seq<Label>, a: nat)
    requires a <= |ls| && ls != []
    ensures Start(ls, a) == 0 <==> a == 0
    ensures |Encode(ls)| > 2
  {
  }
}
