/**
  Where the compressor fails: names of 256 bytes, and a match that points into a label.
 */
module NameLimits {
  import opened Bytes
  import opened DomainNames
  import opened NameReader
  import opened NameWriter
  import opened NameRoundTrip

  lemma {:induction false} LongNameOverruns(ls: seq<Label>, k: nat, from: nat)
    requires |Encode(ls)| == DOMAIN_MAXLEN && k <= |ls|
    ensures CompressLoop(Encode(ls), Start(ls, k), from, [0], 1) == Overrun
    decreases |ls| - k
  {
    hide Encode, Start;
    LabelAt(ls, k);
    if k < |ls| {
      LabelAt(ls, k + 1);
      LongNameOverruns(ls, k + 1, from);
    }
  }

  ghost predicate CompressorOverruns(p: seq<byte>, from: nat, d: seq<byte>) {
    from < U16_SIZE && |d| <= DOMAIN_MAXLEN && Compress(p, from, d) == Overrun
  }

  /**
    The 8-bit counter of the compressor: a name makes it run out of its name buffer in some
    packet if and only if the name fills the whole buffer of 256 bytes.
   */
  lemma OverrunIff(ls: seq<Label>)
    requires |Encode(ls)| <= DOMAIN_MAXLEN
    ensures (exists p, from: nat :: CompressorOverruns(p, from, Encode(ls))) <==> |Encode(ls)| == DOMAIN_MAXLEN
  {
    hide Encode, ReadLoop, CompressLoop;
    if |Encode(ls)| == DOMAIN_MAXLEN {
      var p: seq<byte> := [0];
      assert ReadName(p, 0) == Read(1, [0]) by { ReadRoot(); }
      LongNameOverruns(ls, 0, 0);
      assert Start(ls, 0) == 0;
      assert CompressorOverruns(p, 0, Encode(ls));
    } else if p: seq<byte>, from: nat :| CompressorOverruns(p, from, Encode(ls)) {
      var r := ReadName(p, from);
      var k := CompressLoopSound(ls, 0, from, r.name, (r.end - from) % U8_SIZE);
    }
  }

  lemma ReadRoot()
    ensures ReadName([0], 0) == Read(1, [0])
  {
  }

  // ----- A match inside a label

  /** After the header: the name "\\7", then the name "\\2.\\7" as one label and a pointer. */
  predicate TwoNames(k: Pkt) {
    && k.writeOffset == 19 && |k.bytes| == 24 && k.offsets == [12, 15, 0, 0, 0, 0, 0, 0, 0, 0]
    && k.bytes[12] == 1 && k.bytes[13] == 7 && k.bytes[14] == 0
    && k.bytes[15] == 1 && k.bytes[16] == 2 && k.bytes[17] == 0xC0 && k.bytes[18] == 12
  }

  const SEVEN: seq<Label> := [[7]]
  const TWO_SEVEN: seq<Label> := [[2], [7]]
  const ONE_SEVEN: seq<Label> := [[1, 7]]

  lemma FirstStored(q: seq<byte>)
    requires |q| == 19 && q[12] == 1 && q[13] == 7 && q[14] == 0
    ensures StoredName(q, 12, SEVEN, 0, 1) && Encode(SEVEN) == [1, 7, 0] && Start(SEVEN, 1) == 2
  {
    hide LiteralEnd;
    assert Spells(q, 14, SEVEN[1..], 0, false);
    assert q[12..14] == [1, 7] == Head(SEVEN, 1);
    SplitHere(q, 12, SEVEN, 1, 0);
  }

  lemma SecondStored(q: seq<byte>)
    requires |q| == 19 && q[12] == 1 && q[13] == 7 && q[14] == 0
    requires q[15] == 1 && q[16] == 2 && q[17] == 0xC0 && q[18] == 12
    ensures StoredName(q, 15, TWO_SEVEN, 1, 1) && Encode(TWO_SEVEN) == [1, 2, 1, 7, 0] && Start(TWO_SEVEN, 1) == 2
  {
    hide Spells, SplitAt, LiteralEnd, EndOf, Encode, Start, Head;
    FirstStored(q);
    TwoSeven();
    SpellsJump(q, 17, SEVEN, 0, false);
    assert q[15..17] == [1, 2];
    SplitHere(q, 15, TWO_SEVEN, 1, 1);
  }

  lemma TwoSeven()
    ensures TWO_SEVEN[1..] == SEVEN && Encode(TWO_SEVEN) == [1, 2, 1, 7, 0]
    ensures Start(TWO_SEVEN, 1) == 2 && Head(TWO_SEVEN, 1) == [1, 2]
  {
  }

  lemma TwoNamesInv(k: Pkt)
    requires TwoNames(k)
    ensures Inv(k)
  {
    hide StoredName;
    FirstStored(Done(k));
    SecondStored(Done(k));
  }

  lemma FirstNameDoesNotMatch(k: Pkt)
    requires TwoNames(k)
    ensures Compress(k.bytes, 12, [2, 1, 7, 0]) == NoMatch
  {
    hide ReadName, StoredName;
    FirstStored(Done(k));
    StoredReads(Done(k), k.bytes, 12, SEVEN, 0, 1);
    assert CompressLoop([2, 1, 7, 0], 3, 12, [1, 7, 0], 3) == NoMatch;
  }

  lemma SecondNameMatches(k: Pkt)
    requires TwoNames(k)
    ensures Compress(k.bytes, 15, [2, 1, 7, 0]) == At(0, 16, 15)
  {
    hide ReadName, StoredName;
    SecondStored(Done(k));
    StoredReads(Done(k), k.bytes, 15, TWO_SEVEN, 1, 1);
    assert [1, 2, 1, 7, 0][1..] == [2, 1, 7, 0] == [2, 1, 7, 0][0..4];
  }

  lemma ChosenMatch(k: Pkt)
    requires TwoNames(k) && WellSized(k)
    ensures Chosen(k, [2, 1, 7, 0], false) == At(0, 16, 15)
  {
    hide Compress;
    var o, m, p, d := k.offsets, At(0, 16, 15), k.bytes, [2, 1, 7, 0];
    FirstNameDoesNotMatch(k);
    SecondNameMatches(k);
    assert |o| == 10 && forall n :: 2 <= n < 10 ==> o[n] == 0;
    assert BestMatch(p, o, 9, d, m) == m;
    assert BestMatch(p, o, 8, d, m) == m;
    assert BestMatch(p, o, 7, d, m) == m;
    assert BestMatch(p, o, 6, d, m) == m;
    assert BestMatch(p, o, 5, d, m) == m;
    assert BestMatch(p, o, 4, d, m) == m;
    assert BestMatch(p, o, 3, d, m) == m;
    assert BestMatch(p, o, 2, d, m) == m;
    assert BestMatch(p, o, 1, d, NoMatch) == m;
  }

  /**
    The third name, one label of the bytes 1 and 7, equals the end of the second as bytes but
    starts inside its first label: it is written as a bare pointer and does not read back.
   */
  lemma MisreadExample(k: Pkt)
    requires TwoNames(k)
    ensures Inv(k) && |Encode(ONE_SEVEN)| < DOMAIN_MAXLEN && !Safe(k, ONE_SEVEN, false)
    ensures var r := WriteDomain(k, Encode(ONE_SEVEN), false);
            && r.status == Ok
            && ReadName(r.pkt.bytes, 19) != Read(r.pkt.writeOffset, Encode(ONE_SEVEN))
  {
    hide Spells, ReadName, BestMatch, StoredName;
    assert Encode(ONE_SEVEN) == [2, 1, 7, 0];
    TwoNamesInv(k);
    ChosenMatch(k);
    assert LiteralEnd(k.bytes, 15) == 17;
    assert !Aligned(k.bytes, ONE_SEVEN, At(0, 16, 15));
    var r := WriteDomain(k, Encode(ONE_SEVEN), false);
    WriteThenRead(k, ONE_SEVEN, false, r.pkt.bytes);
  }

  lemma TwoNamesExists() returns (k: Pkt)
    ensures TwoNames(k)
  {
    k := Pkt([0, 0, 0, 0, 0, 0, 0, 0, 0, 0, 0, 0, 1, 7, 0, 1, 2, 0xC0, 12, 0, 0, 0, 0, 0], 19,
             [12, 15, 0, 0, 0, 0, 0, 0, 0, 0]);
  }
}
