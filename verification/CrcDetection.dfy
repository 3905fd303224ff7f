/** What the checksum is for: a single wrong word is always seen, and a stored checksum verifies. */
module CrcDetection {
  import opened Bytes
  import opened Bits
  import opened Crc

  lemma WordSize()
    ensures Pow2(32) == U32_SIZE
  {
    OnesReversed();
  }

  lemma XorHalves(a: nat, b: nat)
    ensures Xor(a, b) / 2 == Xor(a / 2, b / 2)
    ensures Xor(a, b) % 2 == if a % 2 == b % 2 then 0 else 1
  {
  }

  // ----- The register loses nothing

  /** The top bit after a shift tells which low bit was shifted out. */
  lemma StepTop(r: nat)
    requires r < U32_SIZE
    ensures Step(r) < U32_SIZE && Bit(Step(r), 31) == (r % 2 == 1)
  {
    hide Xor, Bit;
    WordSize();
    assert r / 2 < Pow2(31);
    XorBelow(r / 2, REFLECTED, 32);
    BitXor(r / 2, REFLECTED, 31);
    BitAbove(r / 2, 31, 31);
    assert Bit(REFLECTED, 31) by {
      assert REFLECTED == 0x6DB8_8320 + 1 * 0x8000_0000;
      BitShiftRight(REFLECTED, 31, 0);
      assert Pow2(31) == 0x8000_0000;
      assert Bit(1, 0) by { BitPow2(0, 0); assert Pow2(0) == 1; }
    }
  }

  lemma StepInjective(r: nat, s: nat)
    requires r < U32_SIZE && s < U32_SIZE && Step(r) == Step(s)
    ensures r == s
  {
    hide Xor, Bit;
    StepTop(r);
    StepTop(s);
    XorCancel(r / 2, REFLECTED);
    XorCancel(s / 2, REFLECTED);
  }

  lemma {:induction false} StepsInjective(k: nat, r: nat, s: nat)
    requires r < U32_SIZE && s < U32_SIZE
    ensures Steps(k, r) < U32_SIZE
    ensures Steps(k, r) == Steps(k, s) <==> r == s
  {
    hide Step;
    if k > 0 {
      StepTop(r);
      StepTop(s);
      StepsInjective(k - 1, Step(r), Step(s));
      if Step(r) == Step(s) {
        StepInjective(r, s);
      }
    }
  }

  // ----- Four bytes at a time

  lemma StepXor(r: nat, y: nat)
    ensures Step(Xor(r, 2 * y)) == Xor(Step(r), y)
  {
    hide Xor;
    XorHalves(r, 2 * y);
    XorSwap(r / 2, y, REFLECTED);
  }

  lemma {:induction false} StepsXor(k: nat, r: nat, y: nat)
    ensures Steps(k, Xor(r, y * Pow2(k))) == Xor(Steps(k, r), y)
  {
    hide Step, Xor;
    if k > 0 {
      MulDouble(y, Pow2(k - 1));
      StepXor(r, y * Pow2(k - 1));
      StepsXor(k - 1, Step(r), y);
    } else {
      assert Pow2(0) == 1;
    }
  }

  /** Adding a number is adding its low bits and then its high bits. */
  lemma {:induction false} XorLow(r: nat, b: nat, h: nat, k: nat)
    requires b < Pow2(k)
    ensures Xor(r, b + h * Pow2(k)) == Xor(Xor(r, b), h * Pow2(k))
    decreases k
  {
    hide Xor;
    if k == 0 {
      XorZero(r);
    } else {
      var z := h * Pow2(k - 1);
      MulDouble(h, Pow2(k - 1));
      XorLow(r / 2, b / 2, h, k - 1);
      XorLowBit(r, b, z);
    }
  }

  lemma XorLowBit(r: nat, b: nat, z: nat)
    requires Xor(r / 2, b / 2 + z) == Xor(Xor(r / 2, b / 2), z)
    ensures Xor(r, b + 2 * z) == Xor(Xor(r, b), 2 * z)
  {
    hide Xor;
    XorHalves(r, b);
    XorHalves(r, b + 2 * z);
    XorHalves(Xor(r, b), 2 * z);
    assert (b + 2 * z) / 2 == b / 2 + z && (b + 2 * z) % 2 == b % 2;
    var x, y := Xor(r, b + 2 * z), Xor(Xor(r, b), 2 * z);
    assert x / 2 == y / 2 && x % 2 == y % 2;
  }

  lemma {:induction false} StepsAdd(a: nat, b: nat, r: nat)
    ensures Steps(a + b, r) == Steps(b, Steps(a, r))
  {
    hide Step;
    if a > 0 {
      StepsAdd(a - 1, b, Step(r));
    }
  }

  lemma AbsorbByte(k: nat, r: nat, b: byte, h: nat)
    ensures Steps(8 + k, Xor(r, b + 256 * h)) == Steps(k, Xor(Steps(8, Xor(r, b)), h))
  {
    hide Steps, Xor;
    assert Pow2(8) == 256;
    XorLow(r, b, h, 8);
    StepsXor(8, Xor(r, b), h);
    StepsAdd(8, k, Xor(r, b + 256 * h));
  }

  lemma LowByte(w: int, m: nat)
    requires m > 0
    ensures w % (256 * m) == w % 256 + 256 * (w / 256 % m)
  {
    var h := w / 256;
    assert w == (h / m) * (256 * m) + (w % 256 + 256 * (h % m));
    DivUnique(w, 256 * m, h / m, w % 256 + 256 * (h % m));
  }

  lemma SplitWord(w: int)
    ensures w % U32_SIZE ==
            w % 256 + 256 * (w / 0x100 % 256 + 256 * (w / 0x1_0000 % 256 + 256 * (w / 0x100_0000 % 256)))
  {
    LowByte(w, 0x100_0000);
    LowByte(w / 0x100, 0x1_0000);
    LowByte(w / 0x1_0000, 0x100);
    assert w / 0x100 / 0x100 == w / 0x1_0000;
    assert w / 0x1_0000 / 0x100 == w / 0x100_0000;
  }

  /** A word goes through the register as one 32-bit load. */
  lemma AddWord(r: nat, w: int)
    ensures AddBytes(r, WordBytes(w)) == Steps(32, Xor(r, w % U32_SIZE))
  {
    hide Steps, Xor, AddBytes;
    var b0, b1, b2, b3 := w % 256, w / 0x100 % 256, w / 0x1_0000 % 256, w / 0x100_0000 % 256;
    SplitWord(w);
    AddWordBytes(r, w);
    var r1 := Steps(8, Xor(r, b0));
    var r2 := Steps(8, Xor(r1, b1));
    AbsorbByte(24, r, b0, b1 + 256 * (b2 + 256 * b3));
    AbsorbByte(16, r1, b1, b2 + 256 * b3);
    AbsorbByte(8, r2, b2, b3);
  }

  // ----- Word lists

  /** The register after a list of words. */
  function Register(r: nat, ws: seq<int>): (s: nat) {
    AddBytes(r, Stream(ws))
  }

  lemma RegisterCons(r: nat, ws: seq<int>)
    requires ws != []
    ensures Register(r, ws) == Register(Steps(32, Xor(r, ws[0] % U32_SIZE)), ws[1..])
  {
    hide Steps, Xor, AddBytes, WordBytes;
    AddBytesConcat(r, WordBytes(ws[0]), Stream(ws[1..]));
    AddWord(r, ws[0]);
  }

  lemma RegisterNone(r: nat)
    ensures Register(r, []) == r
  {
  }

  /** Loading different words, or one word into different registers, gives different registers. */
  lemma LoadInjective(r: nat, s: nat, v: nat, w: nat)
    requires r < U32_SIZE && s < U32_SIZE && v < U32_SIZE && w < U32_SIZE
    ensures Steps(32, Xor(r, v)) < U32_SIZE
    ensures v == w ==> (Steps(32, Xor(r, v)) == Steps(32, Xor(s, w)) <==> r == s)
    ensures r == s ==> (Steps(32, Xor(r, v)) == Steps(32, Xor(s, w)) <==> v == w)
  {
    hide Steps, Xor, Pow2;
    WordSize();
    XorBelow(r, v, 32);
    XorBelow(s, w, 32);
    StepsInjective(32, Xor(r, v), Xor(s, w));
    XorCancel(r, v);
    XorCancel(s, w);
    XorCommutes(r, v);
    XorCommutes(s, w);
    XorCancel(v, r);
    XorCancel(w, s);
  }

  lemma {:induction false} XorCommutes(a: nat, b: nat)
    ensures Xor(a, b) == Xor(b, a)
    decreases a + b
  {
    if a != 0 || b != 0 {
      XorCommutes(a / 2, b / 2);
    }
  }

  lemma {:induction false} RegisterInjective(r: nat, s: nat, ws: seq<int>)
    requires r < U32_SIZE && s < U32_SIZE
    ensures Register(r, ws) < U32_SIZE
    ensures Register(r, ws) == Register(s, ws) <==> r == s
    decreases |ws|
  {
    hide Steps, Xor, Register;
    if ws == [] {
      RegisterNone(r);
      RegisterNone(s);
    } else {
      var w := ws[0] % U32_SIZE;
      RegisterCons(r, ws);
      RegisterCons(s, ws);
      LoadInjective(r, s, w, w);
      LoadInjective(s, r, w, w);
      RegisterInjective(Steps(32, Xor(r, w)), Steps(32, Xor(s, w)), ws[1..]);
    }
  }

  ghost predicate DifferAtMostAt(a: seq<int>, b: seq<int>, i: nat) {
    |a| == |b| && forall j :: 0 <= j < |a| && j != i ==> a[j] == b[j]
  }

  lemma {:induction false} RegisterDiffers(r: nat, a: seq<int>, b: seq<int>, i: nat)
    requires r < U32_SIZE && DifferAtMostAt(a, b, i) && i < |a|
    ensures Register(r, a) == Register(r, b) <==> a[i] % U32_SIZE == b[i] % U32_SIZE
    decreases i
  {
    hide Steps, Xor, Register;
    var v, w := a[0] % U32_SIZE, b[0] % U32_SIZE;
    RegisterCons(r, a);
    RegisterCons(r, b);
    LoadInjective(r, r, v, w);
    LoadInjective(r, r, w, v);
    if i == 0 {
      assert a[1..] == b[1..];
      RegisterInjective(Steps(32, Xor(r, v)), Steps(32, Xor(r, w)), a[1..]);
    } else {
      RegisterDiffers(Steps(32, Xor(r, v)), a[1..], b[1..], i - 1);
    }
  }

  /** Lists that differ in one place have the same checksum only if that word is the same modulo 2^32. */
  lemma WrongWordSeen(a: seq<int>, b: seq<int>, i: nat)
    requires DifferAtMostAt(a, b, i) && i < |a|
    ensures FrameCheck(Stream(a)) == FrameCheck(Stream(b)) <==> a[i] % U32_SIZE == b[i] % U32_SIZE
  {
    hide AddBytes, Stream, DifferAtMostAt;
    RegisterDiffers(ONES, a, b, i);
  }

  // ----- Checking a stored checksum

  lemma {:induction false} XorOnes(r: nat, w: nat)
    requires r < Pow2(w)
    ensures Xor(r, Pow2(w) - 1 - r) == Pow2(w) - 1
    decreases w
  {
    if w > 0 {
      hide Xor;
      var f := Pow2(w) - 1 - r;
      assert f % 2 == 1 - r % 2 && f / 2 == Pow2(w - 1) - 1 - r / 2;
      XorHalves(r, f);
      XorOnes(r / 2, w - 1);
    } else {
      assert r == 0;
    }
  }

  lemma {:induction false} RegisterConcat(r: nat, a: seq<int>, b: seq<int>)
    ensures Register(r, a + b) == Register(Register(r, a), b)
    decreases |a|
  {
    hide Steps, Xor, Register;
    if a == [] {
      assert a + b == b;
      RegisterNone(r);
    } else {
      RegisterCons(r, a + b);
      RegisterCons(r, a);
      assert (a + b)[1..] == a[1..] + b;
      RegisterConcat(Steps(32, Xor(r, a[0] % U32_SIZE)), a[1..], b);
    }
  }

  lemma RegisterOne(r: nat, w: int)
    ensures Register(r, [w]) == Steps(32, Xor(r, w % U32_SIZE))
  {
    hide Steps, Xor, Register;
    RegisterCons(r, [w]);
    assert [w][1..] == [];
    RegisterNone(Steps(32, Xor(r, w % U32_SIZE)));
  }

  /**
    A reader that runs the checksum over words and stored checksum together gets one fixed value,
    whatever the words are, and gets it only if the stored word is the checksum.
   */
  lemma StoredChecksumVerifies(data: seq<int>, w: int)
    ensures 0 <= FrameCheck(Stream(data)) < U32_SIZE
    ensures FrameCheck(Stream(data + [w])) == FrameCheck(Stream([0])) <==> w % U32_SIZE == FrameCheck(Stream(data))
  {
    hide AddBytes, Stream, Steps, Xor, Pow2;
    WordSize();
    var r, c := Register(ONES, data), w % U32_SIZE;
    RegisterInjective(ONES, ONES, data);
    RegisterConcat(ONES, data, [w]);
    RegisterOne(r, w);
    RegisterOne(ONES, 0);
    XorZero(ONES);
    XorOnes(r, 32);
    LoadInjective(r, r, c, ONES - r);
  }
}
