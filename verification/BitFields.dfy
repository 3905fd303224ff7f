/**
  Switch configuration records (`Mem.to_bytes`, `Mem.parse`): named bit fields packed into 32-bit
  words, written out big-endian by `Writer.add_word`.
 */
module BitFields {
  import opened Bytes
  import opened Bits
  import opened Crc

  /** A declared symbol: `width` bits from bit `start` on. */
  datatype Field = Field(start: nat, width: nat)

  /** -1 stands for all ones. */
  function Full(f: Field, v: int): (r: int) {
    if v == -1 then Pow2(f.width) - 1 else v
  }

  predicate InRange(f: Field, v: int) {
    v == -1 || 0 <= v < Pow2(f.width)
  }

  predicate AllInRange(layout: seq<Field>, vals: seq<int>) {
    |layout| == |vals| && forall i :: 0 <= i < |layout| ==> InRange(layout[i], vals[i])
  }

  /** Two fields share a bit. */
  predicate Overlap(f: Field, g: Field) {
    f.width > 0 && g.width > 0 && f.start < g.start + g.width && g.start < f.start + f.width
  }

  predicate Disjoint(layout: seq<Field>) {
    forall i, j :: 0 <= i < j < |layout| ==> !Overlap(layout[i], layout[j])
  }

  predicate Inside(layout: seq<Field>, words: nat) {
    forall i :: 0 <= i < |layout| ==> layout[i].width == 0 || layout[i].start + layout[i].width <= 32 * words
  }

  // ----- Packing

  /** The register after the first `n` fields. */
  function Packed(layout: seq<Field>, vals: seq<int>, n: nat): (reg: nat)
    requires |layout| == |vals| && n <= |layout|
  {
    if n == 0 then 0
    else
      var f := layout[n - 1];
      Or(Packed(layout, vals, n - 1), Full(f, vals[n - 1]) % Pow2(f.width) * Pow2(f.start))
  }

  function WordsOf(reg: nat, n: nat): (ws: seq<nat>)
    ensures |ws| == n
    ensures forall k :: 0 <= k < n ==> ws[k] < U32_SIZE
    decreases n
  {
    if n == 0 then [] else [reg % U32_SIZE] + WordsOf(reg / U32_SIZE, n - 1)
  }

  lemma MaskKeeps(f: Field, v: int)
    ensures Full(f, v) % Pow2(f.width) == Full(f, v) <==> InRange(f, v)
  {
    hide Pow2;
    var w := Full(f, v);
    if 0 <= w < Pow2(f.width) {
      DivUnique(w, Pow2(f.width), 0, w);
    }
  }

  /** `Mem.to_bytes`: raises on the first value that does not fit its field. */
  method ToWords(layout: seq<Field>, vals: seq<int>, words: nat) returns (r: Option<seq<nat>>)
    requires |layout| == |vals|
    ensures r.Some? <==> AllInRange(layout, vals)
    ensures r.Some? ==> r.value == WordsOf(Packed(layout, vals, |layout|), words)
  {
    hide Pow2, Or, WordsOf;
    var reg: nat := 0;
    for i := 0 to |layout|
      invariant reg == Packed(layout, vals, i)
      invariant forall k :: 0 <= k < i ==> InRange(layout[k], vals[k])
    {
      var f := layout[i];
      MaskKeeps(f, vals[i]);
      var val := vals[i];
      if val == -1 {
        val := Pow2(f.width) - 1;
      }
      if val % Pow2(f.width) != val {
        return None;
      }
      reg := Or(reg, val % Pow2(f.width) * Pow2(f.start));
    }
    var dwords: seq<nat> := [];
    ghost var all := WordsOf(reg, words);
    while |dwords| != words
      invariant |dwords| <= words && all == dwords + WordsOf(reg, words - |dwords|)
      decreases words - |dwords|
    {
      WordsStep(reg, words - |dwords|);
      assert dwords + [reg % U32_SIZE] + WordsOf(reg / U32_SIZE, words - |dwords| - 1)
          == dwords + WordsOf(reg, words - |dwords|);
      dwords := dwords + [reg % U32_SIZE];
      reg := reg / U32_SIZE;
    }
    assert all == dwords;
    return Some(dwords);
  }

  lemma WordsStep(reg: nat, n: nat)
    requires n > 0
    ensures WordsOf(reg, n) == [reg % U32_SIZE] + WordsOf(reg / U32_SIZE, n - 1)
  {
  }

  /** The bytes of words as they are written out, each word big-endian. */
  function Emit(ws: seq<nat>): (bs: seq<byte>)
    requires forall k :: 0 <= k < |ws| ==> ws[k] < U32_SIZE
    ensures |bs| == 4 * |ws|
  {
    if ws == [] then [] else Be32(ws[0]) + Emit(ws[1..])
  }

  // ----- Parsing

  /** Big-endian words, the first one lowest. */
  function Number(bs: seq<byte>): (n: nat)
    requires |bs| % 4 == 0
  {
    if bs == [] then 0 else FromBe32(bs[..4]) + U32_SIZE * Number(bs[4..])
  }

  function ReadField(f: Field, num: nat): (v: nat) {
    num / Pow2(f.start) % Pow2(f.width)
  }

  lemma {:induction false} OrAbove(a: nat, d: nat, k: nat)
    requires a < Pow2(k)
    ensures Or(a, d * Pow2(k)) == a + d * Pow2(k)
    decreases k
  {
    if k == 0 {
      OrZero(d);
    } else {
      OrAbove(a / 2, d, k - 1);
      MulDouble(d, Pow2(k - 1));
      OrLowBit(a, d * Pow2(k - 1));
    }
  }

  lemma {:induction false} OrZero(d: nat)
    ensures Or(0, d) == d
  {
    if d > 0 {
      OrZero(d / 2);
    }
  }

  lemma OrLowBit(a: nat, z: nat)
    requires Or(a / 2, z) == a / 2 + z
    ensures Or(a, 2 * z) == a + 2 * z
  {
    assert 2 * z / 2 == z && 2 * z % 2 == 0;
  }

  lemma {:induction false} NumberAppend(bs: seq<byte>, four: seq<byte>, k: nat)
    requires |bs| == 4 * k && |four| == 4
    ensures Number(bs) < Pow2(32 * k)
    ensures Number(bs + four) == Number(bs) + FromBe32(four) * Pow2(32 * k)
  {
    if k == 0 {
      assert bs + four == four && four[..4] == four && four[4..] == [];
    } else {
      hide Pow2;
      NumberAppend(bs[4..], four, k - 1);
      assert (bs + four)[4..] == bs[4..] + four && (bs + four)[..4] == bs[..4];
      Pow2Word(k);
      MulAssoc(FromBe32(four), Pow2(32 * (k - 1)));
    }
  }

  lemma Pow2Word(k: nat)
    requires k > 0
    ensures Pow2(32 * k) == U32_SIZE * Pow2(32 * (k - 1))
  {
    hide Pow2, Rev;
    var a := 32 * (k - 1);
    assert 32 * k == a + 32;
    Pow2Add(a, 32);
    OnesReversed();
    MulSwap(Pow2(a), Pow2(32));
  }

  lemma MulSwap(a: nat, b: nat)
    ensures a * b == b * a
  {
  }

  lemma {:induction false} Pow2Add(a: nat, b: nat)
    ensures Pow2(a + b) == Pow2(a) * Pow2(b)
  {
    if b > 0 {
      Pow2Add(a, b - 1);
      MulDouble(Pow2(a), Pow2(b - 1));
    }
  }

  lemma MulAssoc(a: nat, b: nat)
    ensures a * (U32_SIZE * b) == U32_SIZE * (a * b)
  {
  }

  /** `Mem.parse`: asserts the length, puts the words together and cuts the fields out. */
  method Parse(layout: seq<Field>, bytes: seq<byte>, words: nat) returns (r: Option<seq<nat>>)
    ensures r.Some? <==> |bytes| == 4 * words
    ensures r.Some? ==> |r.value| == |layout|
    ensures r.Some? ==> forall i :: 0 <= i < |layout| ==> r.value[i] == ReadField(layout[i], Number(bytes))
  {
    hide Pow2, Or, Number;
    if |bytes| != 4 * words {
      return None;
    }
    var num := 0;
    NumberNone();
    assert bytes[..0] == [];
    for b := 0 to |bytes| / 4
      invariant num == Number(bytes[..4 * b])
    {
      var four := bytes[4 * b..4 * (b + 1)];
      NumberAppend(bytes[..4 * b], four, b);
      OrAbove(num, FromBe32(four), 32 * b);
      assert bytes[..4 * b] + four == bytes[..4 * (b + 1)];
      num := Or(num, FromBe32(four) * Pow2(b * 32));
    }
    assert bytes[..4 * words] == bytes;
    var vals: seq<nat> := [];
    for i := 0 to |layout|
      invariant |vals| == i && forall k :: 0 <= k < i ==> vals[k] == ReadField(layout[k], num)
    {
      vals := vals + [num / Pow2(layout[i].start) % Pow2(layout[i].width)];
    }
    return Some(vals);
  }

  lemma NumberNone()
    ensures Number([]) == 0
  {
  }

  // ----- The round trip

  /** Words written out and put together again are the register, as far as the words reach. */
  lemma {:induction false} WrittenAndRead(reg: nat, n: nat)
    ensures Number(Emit(WordsOf(reg, n))) == reg % Pow2(32 * n)
    decreases n
  {
    if n > 0 {
      hide Pow2, WordsOf;
      WordsStep(reg, n);
      var w, rest := reg % U32_SIZE, WordsOf(reg / U32_SIZE, n - 1);
      assert ([w] + rest)[1..] == rest;
      var bs := Emit(WordsOf(reg, n));
      assert bs == Be32(w) + Emit(rest);
      assert bs[..4] == Be32(w) && bs[4..] == Emit(rest);
      Be32RoundTrip(w);
      WrittenAndRead(reg / U32_SIZE, n - 1);
      Pow2Word(n);
      LowWord(reg, Pow2(32 * (n - 1)));
    }
  }

  lemma LowWord(n: nat, m: nat)
    requires m > 0
    ensures n % (U32_SIZE * m) == n % U32_SIZE + U32_SIZE * (n / U32_SIZE % m)
  {
    var h := n / U32_SIZE;
    assert n == (h / m) * (U32_SIZE * m) + (n % U32_SIZE + U32_SIZE * (h % m));
    DivUnique(n, U32_SIZE * m, h / m, n % U32_SIZE + U32_SIZE * (h % m));
  }

  predicate Covers(f: Field, t: nat) {
    f.start <= t < f.start + f.width
  }

  /** Field `i` puts a one at bit `t`. */
  predicate Sets(layout: seq<Field>, vals: seq<int>, i: nat, t: nat)
    requires |layout| == |vals| && i < |layout|
  {
    Covers(layout[i], t) && Bit(Full(layout[i], vals[i]), t - layout[i].start)
  }

  /** A bit of the register is set exactly when some field sets it. */
  lemma {:induction false} PackedBit(layout: seq<Field>, vals: seq<int>, n: nat, t: nat)
    requires |layout| == |vals| && n <= |layout|
    ensures Bit(Packed(layout, vals, n), t) <==> exists i: nat :: i < n && Sets(layout, vals, i, t)
  {
    hide Bit, Pow2, Or;
    if n == 0 {
      BitZero(t);
    } else {
      PackedBit(layout, vals, n - 1, t);
      var f, v := layout[n - 1], Full(layout[n - 1], vals[n - 1]);
      BitOr(Packed(layout, vals, n - 1), v % Pow2(f.width) * Pow2(f.start), t);
      BitShift(v % Pow2(f.width), f.start, t);
      if t >= f.start {
        BitMod(v, f.width, t - f.start);
      }
      assert Sets(layout, vals, n - 1, t) <==> Bit(v % Pow2(f.width) * Pow2(f.start), t);
    }
  }

  /** What a field reads as after writing all of them into `words` words. */
  function ReadBack(layout: seq<Field>, vals: seq<int>, words: nat, i: nat): (v: nat)
    requires |layout| == |vals| && i < |layout|
  {
    ReadField(layout[i], Number(Emit(WordsOf(Packed(layout, vals, |layout|), words))))
  }

  lemma ReadBackBit(layout: seq<Field>, vals: seq<int>, words: nat, i: nat, j: nat)
    requires |layout| == |vals| && i < |layout|
    ensures var t := layout[i].start + j;
            Bit(ReadBack(layout, vals, words, i), j)
            <==> j < layout[i].width && t < 32 * words && exists k: nat :: k < |layout| && Sets(layout, vals, k, t)
  {
    hide Bit, Pow2, Packed, Number, WordsOf;
    var f, reg := layout[i], Packed(layout, vals, |layout|);
    WrittenAndRead(reg, words);
    var num := reg % Pow2(32 * words);
    BitMod(num / Pow2(f.start), f.width, j);
    BitShiftRight(num, f.start, j);
    BitMod(reg, 32 * words, f.start + j);
    PackedBit(layout, vals, |layout|, f.start + j);
  }

  /** How many bits above `start` the words still hold. */
  function Room(f: Field, words: nat): (k: nat) {
    if f.start < 32 * words then 32 * words - f.start else 0
  }

  /**
    With pairwise disjoint fields and values in range, each field reads back as its value, cut to
    the bits that the words hold.
   */
  lemma DisjointReadBack(layout: seq<Field>, vals: seq<int>, words: nat, i: nat)
    requires Disjoint(layout) && AllInRange(layout, vals) && i < |layout|
    ensures ReadBack(layout, vals, words, i) == Full(layout[i], vals[i]) % Pow2(Room(layout[i], words))
  {
    hide Bit, Pow2, ReadBack;
    var f, v := layout[i], Full(layout[i], vals[i]);
    var room := Room(f, words);
    var a, b := ReadBack(layout, vals, words, i), v % Pow2(room);
    forall j: nat ensures Bit(a, j) == Bit(b, j) {
      var t := f.start + j;
      ReadBackBit(layout, vals, words, i, j);
      BitMod(v, room, j);
      forall k: nat | k < |layout| && k != i && Covers(f, t) ensures !Sets(layout, vals, k, t) {
        assert !Overlap(layout[i], layout[k]) || !Overlap(layout[k], layout[i]);
      }
      if j < f.width {
        assert Sets(layout, vals, i, t) <==> Bit(v, j);
      } else {
        BitAbove(v, f.width, j);
      }
    }
    AllBitsEqual(a, b);
  }

  lemma {:induction false} BelowPow2(a: nat, w: nat)
    requires a <= w
    ensures a < Pow2(w)
  {
    if w > 0 {
      BelowPow2(if a > 0 then a - 1 else 0, w - 1);
    }
  }

  lemma AllBitsEqual(a: nat, b: nat)
    requires forall j: nat :: Bit(a, j) == Bit(b, j)
    ensures a == b
  {
    BelowPow2(a, a + b);
    BelowPow2(b, a + b);
    EqualBits(a, b, a + b);
  }

  /** Every record with values in range reads back as it was. */
  ghost predicate AlwaysReadsBack(layout: seq<Field>, words: nat) {
    forall vals, i :: AllInRange(layout, vals) && 0 <= i < |layout|
      ==> ReadBack(layout, vals, words, i) == Full(layout[i], vals[i])
  }

  /** Only field `k` set, to all ones. */
  function OnlyField(n: nat, k: nat): (vals: seq<int>)
    ensures |vals| == n
    ensures forall i :: 0 <= i < n ==> vals[i] == if i == k then -1 else 0
  {
    seq(n, i => if i == k then -1 else 0)
  }

  lemma BitOfOnes(w: nat, j: nat)
    ensures Bit(Pow2(w) - 1, j) == (j < w)
  {
    hide Bit, Pow2;
    BitZero(j);
    if j < w {
      BitFlip(0, w, j);
    } else {
      BitAbove(Pow2(w) - 1, w, j);
    }
  }

  lemma OnlyFieldReads(layout: seq<Field>, words: nat, i: nat, k: nat, j: nat)
    requires i < |layout| && k < |layout| && j < layout[i].width
    ensures AllInRange(layout, OnlyField(|layout|, k))
    ensures Bit(ReadBack(layout, OnlyField(|layout|, k), words, i), j)
            <==> layout[i].start + j < 32 * words && Covers(layout[k], layout[i].start + j)
  {
    hide Bit, Pow2, ReadBack;
    var vals, t := OnlyField(|layout|, k), layout[i].start + j;
    ReadBackBit(layout, vals, words, i, j);
    forall m: nat | m < |layout| ensures Sets(layout, vals, m, t) <==> m == k && Covers(layout[k], t) {
      if Covers(layout[m], t) {
        BitOfOnes(layout[m].width, t - layout[m].start);
        BitZero(t - layout[m].start);
      }
    }
    if Covers(layout[k], t) {
      assert Sets(layout, vals, k, t);
    }
  }

  /** A shared bit makes one of two fields read wrong. */
  lemma OverlapMisreads(layout: seq<Field>, words: nat, i: nat, k: nat)
    requires i < |layout| && k < |layout| && i != k && Overlap(layout[i], layout[k])
    ensures !AlwaysReadsBack(layout, words)
  {
    hide Bit, Pow2, ReadBack;
    var f, g := layout[i], layout[k];
    var t := if f.start < g.start then g.start else f.start;
    var vals := OnlyField(|layout|, k);
    OnlyFieldReads(layout, words, i, k, t - f.start);
    BitZero(t - f.start);
    if t >= 32 * words {
      var vals' := OnlyField(|layout|, i);
      OnlyFieldReads(layout, words, i, i, t - f.start);
      BitOfOnes(f.width, t - f.start);
      assert ReadBack(layout, vals', words, i) != Full(f, vals'[i]);
    } else {
      assert ReadBack(layout, vals, words, i) != Full(f, vals[i]);
    }
  }

  lemma OutsideMisreads(layout: seq<Field>, words: nat, i: nat)
    requires i < |layout| && layout[i].width > 0 && layout[i].start + layout[i].width > 32 * words
    ensures !AlwaysReadsBack(layout, words)
  {
    hide Bit, Pow2, ReadBack;
    var f, vals := layout[i], OnlyField(|layout|, i);
    OnlyFieldReads(layout, words, i, i, f.width - 1);
    BitOfOnes(f.width, f.width - 1);
    assert ReadBack(layout, vals, words, i) != Full(f, vals[i]);
  }

  lemma {:induction false} Pow2Grows(a: nat, b: nat)
    requires a <= b
    ensures Pow2(a) <= Pow2(b)
  {
    if a < b {
      Pow2Less(a, b);
    }
  }

  /** A layout round-trips for all its values exactly when its fields are disjoint and inside its words. */
  lemma LayoutReadsBack(layout: seq<Field>, words: nat)
    ensures AlwaysReadsBack(layout, words) <==> Disjoint(layout) && Inside(layout, words)
  {
    hide Bit, Pow2, ReadBack, Overlap;
    if Disjoint(layout) && Inside(layout, words) {
      forall vals, i | AllInRange(layout, vals) && 0 <= i < |layout|
        ensures ReadBack(layout, vals, words, i) == Full(layout[i], vals[i])
      {
        var f := layout[i];
        DisjointReadBack(layout, vals, words, i);
        if f.width > 0 {
          Pow2Grows(f.width, Room(f, words));
        } else {
          Pow2Grows(0, Room(f, words));
        }
        DivUnique(Full(f, vals[i]), Pow2(Room(f, words)), 0, Full(f, vals[i]));
      }
    } else if !Disjoint(layout) {
      var i, j :| 0 <= i < j < |layout| && Overlap(layout[i], layout[j]);
      OverlapMisreads(layout, words, i, j);
    } else {
      var i :| 0 <= i < |layout| && !(layout[i].width == 0 || layout[i].start + layout[i].width <= 32 * words);
      OutsideMisreads(layout, words, i);
    }
  }

  // ----- Which bit goes where

  /** A number below `2^k` under another one. */
  lemma {:induction false} BitJoin(a: nat, d: nat, k: nat, i: nat)
    requires a < Pow2(k)
    ensures Bit(a + d * Pow2(k), i) == if i < k then Bit(a, i) else Bit(d, i - k)
    decreases k
  {
    if k > 0 {
      MulDouble(d, Pow2(k - 1));
      var n := a + 2 * (d * Pow2(k - 1));
      assert n / 2 == a / 2 + d * Pow2(k - 1) && n % 2 == a % 2;
      if i > 0 {
        BitJoin(a / 2, d, k - 1, i - 1);
      }
    }
  }

  /** Word `k` has the bits from `32 * k` on, its lowest bit first. */
  lemma {:induction false} WordBit(reg: nat, n: nat, k: nat, b: nat)
    requires k < n && b < 32
    ensures Bit(WordsOf(reg, n)[k], b) <==> Bit(reg, 32 * k + b)
    decreases n
  {
    hide Bit, Pow2, WordsOf;
    WordsStep(reg, n);
    OnesReversed();
    if k == 0 {
      BitMod(reg, 32, b);
    } else {
      WordBit(reg / U32_SIZE, n - 1, k - 1, b);
      BitShiftRight(reg, 32, 32 * (k - 1) + b);
    }
  }

  /**
    The words as they are returned: a bit of a word is set if and only if some field that covers it
    has a one there.
   */
  lemma PackedWords(layout: seq<Field>, vals: seq<int>, words: nat, k: nat, b: nat)
    requires AllInRange(layout, vals) && k < words && b < 32
    ensures var t := 32 * k + b;
            Bit(WordsOf(Packed(layout, vals, |layout|), words)[k], b)
            <==> exists i: nat :: i < |layout| && Sets(layout, vals, i, t)
  {
    hide Bit, Packed, WordsOf, Sets;
    WordBit(Packed(layout, vals, |layout|), words, k, b);
    PackedBit(layout, vals, |layout|, 32 * k + b);
  }

  /** Bit `b` of a big-endian word is in byte `3 - b / 8`. */
  lemma FourBytesBit(s: seq<byte>, b: nat)
    requires |s| == 4 && b < 32
    ensures Bit(FromBe32(s), b) <==> Bit(s[3 - b / 8], b % 8)
  {
    hide Bit, Pow2;
    assert Pow2(8) == 256 by { EightBits(); }
    var n1 := s[1] as int + s[0] as int * 256;
    var n2 := s[2] as int + n1 * 256;
    assert FromBe32(s) == s[3] as int + n2 * 256;
    BitJoin(s[3], n2, 8, b);
    if b >= 8 {
      BitJoin(s[2], n1, 8, b - 8);
      if b >= 16 {
        BitJoin(s[1], s[0], 8, b - 16);
      }
    }
  }

  lemma EightBits()
    ensures Pow2(8) == 256
  {
  }

  /** The byte that has bit `t`: words big-endian, the first one lowest. */
  function ByteOf(t: nat): (i: nat) {
    4 * (t / 32) + 3 - t % 32 / 8
  }

  lemma ByteInside(t: nat, n: nat)
    requires n % 4 == 0 && t < 8 * n
    ensures ByteOf(t) < n
    ensures t < 32 ==> ByteOf(t) == 3 - t / 8
    ensures t >= 32 ==> ByteOf(t) == ByteOf(t - 32) + 4 && (t - 32) % 8 == t % 8
  {
    assert t / 32 < n / 4;
  }

  lemma {:induction false} NumberBit(bs: seq<byte>, t: nat)
    requires |bs| % 4 == 0 && t < 8 * |bs|
    ensures ByteOf(t) < |bs| && (Bit(Number(bs), t) <==> Bit(bs[ByteOf(t)], t % 8))
    decreases |bs|
  {
    hide Bit, Pow2, FromBe32, ByteOf;
    var four, rest := bs[..4], bs[4..];
    ByteInside(t, |bs|);
    assert Pow2(32) == U32_SIZE by { OnesReversed(); }
    assert Number(bs) == FromBe32(four) + Number(rest) * Pow2(32);
    BitJoin(FromBe32(four), Number(rest), 32, t);
    if t < 32 {
      FourBytesBit(four, t);
    } else {
      NumberBit(rest, t - 32);
    }
  }

  /** A field as it is parsed, bit by bit from the bytes. */
  lemma ParsedBit(f: Field, bs: seq<byte>, j: nat)
    requires |bs| % 4 == 0 && f.start + j < 8 * |bs|
    ensures var t := f.start + j;
            && ByteOf(t) < |bs|
            && (Bit(ReadField(f, Number(bs)), j) <==> j < f.width && Bit(bs[ByteOf(t)], t % 8))
  {
    hide Bit, Pow2, Number, ByteOf;
    BitMod(Number(bs) / Pow2(f.start), f.width, j);
    BitShiftRight(Number(bs), f.start, j);
    NumberBit(bs, f.start + j);
  }
}
