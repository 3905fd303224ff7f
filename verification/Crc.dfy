/**
  The checksum of the switch configuration (`Writer.crc32`), computed on unbounded integers, and
  the 32-bit reflected CRC-32 of IEEE 802.3 that it has to be.
 */
module Crc {
  import opened Bytes
  import opened Bits

  const POLYNOMIAL: nat := 0x04C1_1DB7
  const REFLECTED: nat := 0xEDB8_8320
  const ONES: nat := 0xFFFF_FFFF

  // ----- The standard: a register of 32 bits that shifts right

  function Step(r: nat): (s: nat) {
    if r % 2 == 1 then Xor(r / 2, REFLECTED) else r / 2
  }

  function Steps(k: nat, r: nat): (s: nat) {
    if k == 0 then r else Steps(k - 1, Step(r))
  }

  function AddBytes(r: nat, bs: seq<byte>): (s: nat)
    decreases |bs|
  {
    if bs == [] then r else AddBytes(Steps(8, Xor(r, bs[0])), bs[1..])
  }

  /** The frame check sequence of a byte stream. */
  function FrameCheck(bs: seq<byte>): (c: int) {
    ONES - AddBytes(ONES, bs)
  }

  /** The bytes of one word, low byte first; only the low 32 bits count. */
  function WordBytes(w: int): (bs: seq<byte>) {
    [w % 256, w / 0x100 % 256, w / 0x1_0000 % 256, w / 0x100_0000 % 256]
  }

  function Stream(ws: seq<int>): (bs: seq<byte>) {
    if ws == [] then [] else WordBytes(ws[0]) + Stream(ws[1..])
  }

  // ----- Reversal

  /** The low `w` bits of `n` in reverse. */
  function Rev(n: int, w: nat): (r: nat)
    ensures r < Pow2(w)
  {
    if w == 0 then 0 else 2 * Rev(n, w - 1) + (if Bit(n, w - 1) then 1 else 0)
  }

  lemma {:induction false} RevBit(n: int, w: nat, i: nat)
    requires i < w
    ensures Bit(Rev(n, w), i) == Bit(n, w - 1 - i)
  {
    assert Rev(n, w) / 2 == Rev(n, w - 1);
    if i > 0 {
      RevBit(n, w - 1, i - 1);
    }
  }

  /** Reversing twice keeps a number of at most `w` bits. */
  lemma RevRev(n: nat, w: nat)
    requires n < Pow2(w)
    ensures Rev(Rev(n, w), w) == n
  {
    forall i: nat | i < w ensures Bit(Rev(Rev(n, w), w), i) == Bit(n, i) {
      RevBit(Rev(n, w), w, i);
      RevBit(n, w, w - 1 - i);
    }
    EqualBits(Rev(Rev(n, w), w), n, w);
  }

  lemma {:induction false} RevXor(a: nat, b: nat, w: nat)
    ensures Rev(Xor(a, b), w) == Xor(Rev(a, w), Rev(b, w))
  {
    if w > 0 {
      RevXor(a, b, w - 1);
      BitXor(a, b, w - 1);
      assert Rev(a, w) / 2 == Rev(a, w - 1) && Rev(b, w) / 2 == Rev(b, w - 1);
    }
  }

  lemma {:induction false} RevDouble(n: int, w: nat)
    requires w > 0
    ensures Rev(2 * n, w) == Rev(n, w - 1)
  {
    BitDouble(n, w - 1);
    if w > 1 {
      RevDouble(n, w - 1);
    }
  }

  lemma {:induction false} RevShifted(n: int, k: nat, w: nat)
    requires k >= w
    ensures Rev(n * Pow2(k), w) == 0
  {
    if w > 0 {
      RevShifted(n, k, w - 1);
      BitShift(n, k, w - 1);
    }
  }

  lemma MulDouble(a: nat, b: nat)
    ensures a * (2 * b) == 2 * (a * b)
  {
  }

  /** A short number reversed in a wide field ends up at the top of it. */
  lemma {:induction false} RevShort(n: nat, v: nat, k: nat)
    requires n < Pow2(v)
    ensures Rev(n, v + k) == Rev(n, v) * Pow2(k)
  {
    hide Bit;
    if k > 0 {
      RevShort(n, v, k - 1);
      BitAbove(n, v, v + k - 1);
      MulDouble(Rev(n, v), Pow2(k - 1));
    }
  }

  lemma {:induction false} RevFlip(n: int, v: nat, w: nat)
    requires w <= v
    ensures Rev(Pow2(v) - 1 - n, w) == Pow2(w) - 1 - Rev(n, w)
  {
    if w > 0 {
      RevFlip(n, v, w - 1);
      BitFlip(n, v, w - 1);
    }
  }

  lemma {:induction false} XorDoubles(a: nat, b: nat)
    ensures Xor(2 * a, 2 * b) == 2 * Xor(a, b)
  {
    assert 2 * a / 2 == a && 2 * b / 2 == b;
  }

  lemma {:induction false} XorZero(a: nat)
    ensures Xor(a, 0) == a
  {
    if a > 0 {
      XorZero(a / 2);
    }
  }

  lemma {:induction false} OrBelow(a: nat, b: nat, w: nat)
    requires a < Pow2(w) && b < Pow2(w)
    ensures Or(a, b) < Pow2(w)
    decreases w
  {
    if w > 0 {
      OrBelow(a / 2, b / 2, w - 1);
    }
  }

  lemma {:induction false} Pow2Less(a: nat, b: nat)
    requires a < b
    ensures Pow2(a) < Pow2(b)
  {
    if a + 1 < b {
      Pow2Less(a, b - 1);
    }
  }

  lemma BitPow2(k: nat, i: nat)
    ensures Bit(Pow2(k), i) == (i == k)
  {
    BitShift(1, k, i);
    if i > k {
      BitZero(i - k - 1);
    }
  }

  /** The first `i` bits have been moved to the other end. */
  ghost predicate Reversing(val: int, width: nat, i: nat, r: nat) {
    && r < Pow2(width)
    && forall j: nat :: Bit(r, j) == (width - i <= j < width && Bit(val, width - 1 - j))
  }

  lemma ReversingStart(val: int, width: nat)
    ensures Reversing(val, width, 0, 0)
  {
    forall j: nat ensures !Bit(0, j) {
      BitZero(j);
    }
  }

  lemma ReversingStep(val: int, width: nat, i: nat, r: nat)
    requires Reversing(val, width, i, r) && i < width
    ensures Reversing(val, width, i + 1, Or(r, if Bit(val, i) then Pow2(width - i - 1) else 0))
  {
    hide Bit, Or, Pow2;
    var k := width - i - 1;
    var b := if Bit(val, i) then Pow2(k) else 0;
    Pow2Less(k, width);
    OrBelow(r, b, width);
    forall j: nat ensures Bit(Or(r, b), j) == (k <= j < width && Bit(val, width - 1 - j)) {
      BitOr(r, b, j);
      BitPow2(k, j);
      BitZero(j);
    }
  }

  lemma Reversed(val: int, width: nat, r: nat)
    requires Reversing(val, width, width, r)
    ensures r == Rev(val, width)
  {
    hide Bit, Pow2, Rev;
    forall j: nat | j < width ensures Bit(r, j) == Bit(Rev(val, width), j) {
      RevBit(val, width, j);
    }
    EqualBits(r, Rev(val, width), width);
  }

  /** `bit_reverse`: bit by bit into an initially empty number. */
  method BitReverse(val: int, width: nat) returns (r: nat)
    ensures r == Rev(val, width)
  {
    hide Bit, Or, Pow2, Rev, Reversing;
    r := 0;
    ReversingStart(val, width);
    for i := 0 to width
      invariant Reversing(val, width, i, r)
    {
      ReversingStep(val, width, i, r);
      r := Or(r, if Bit(val, i) then Pow2(width - i - 1) else 0);
    }
    Reversed(val, width, r);
  }

  /** `bit_not`; the result is negative where `n` has more than `numbits` bits. */
  function BitNot(n: int, numbits: nat): (r: int) {
    Pow2(numbits) - 1 - n
  }

  // ----- One byte

  /** Reversal from the low bit on. */
  function RevOnto(n: nat, w: nat, acc: nat): (r: nat)
    decreases w
  {
    if w == 0 then acc else RevOnto(n / 2, w - 1, 2 * acc + n % 2)
  }

  lemma RevOntoStep(n: nat, w: nat, acc: nat)
    requires w > 0
    ensures RevOnto(n, w, acc) == RevOnto(n / 2, w - 1, 2 * acc + n % 2)
  {
  }

  lemma Distribute(a: nat, b: nat, p: nat)
    ensures (2 * a + b) * p == a * (2 * p) + b * p
  {
  }

  lemma {:induction false} RevLow(n: nat, w: nat)
    requires w > 0
    ensures Rev(n, w) == n % 2 * Pow2(w - 1) + Rev(n / 2, w - 1)
  {
    hide Rev, Bit, Pow2;
    RevStep(n, w);
    if w > 1 {
      RevLow(n, w - 1);
      RevStep(n / 2, w - 1);
      BitHalf(n, w - 2);
      Pow2Step(w - 2);
      DoubleProduct(n % 2, Pow2(w - 2));
    } else {
      RevNone(n);
    }
  }

  lemma RevStep(n: int, w: nat)
    requires w > 0
    ensures Rev(n, w) == 2 * Rev(n, w - 1) + (if Bit(n, w - 1) then 1 else 0)
  {
  }

  lemma RevNone(n: nat)
    ensures Rev(n, 0) == 0 && Rev(n / 2, 0) == 0 && Pow2(0) == 1
    ensures (if Bit(n, 0) then 1 else 0) == n % 2
  {
  }

  lemma BitHalf(n: nat, i: nat)
    ensures Bit(n, i + 1) == Bit(n / 2, i)
  {
  }

  lemma Pow2Step(w: nat)
    ensures Pow2(w + 1) == 2 * Pow2(w)
  {
  }

  lemma DoubleProduct(a: nat, p: nat)
    ensures a * (2 * p) == 2 * (a * p)
  {
  }

  lemma {:induction false} RevOntoIsRev(n: nat, w: nat, acc: nat)
    ensures RevOnto(n, w, acc) == acc * Pow2(w) + Rev(n, w)
    decreases w
  {
    if w > 0 {
      hide Rev, RevOnto;
      RevOntoStep(n, w, acc);
      RevOntoIsRev(n / 2, w - 1, 2 * acc + n % 2);
      RevLow(n, w);
      Distribute(acc, n % 2, Pow2(w - 1));
    }
  }

  lemma PolynomialReversed()
    ensures Rev(POLYNOMIAL, 32) == REFLECTED
  {
    hide Rev, RevOnto;
    RevOntoIsRev(POLYNOMIAL, 32, 0);
    PolynomialOnto();
  }

  lemma RevOntoNibble(n: nat, w: nat, acc: nat)
    requires w >= 4
    ensures RevOnto(n, w, acc) ==
            RevOnto(n / 16, w - 4, 16 * acc + 8 * (n % 2) + 4 * (n / 2 % 2) + 2 * (n / 4 % 2) + n / 8 % 2)
  {
    hide RevOnto;
    var n1, n2, n3 := n / 2, n / 4, n / 8;
    assert n2 == n1 / 2 && n3 == n2 / 2 && n / 16 == n3 / 2;
    RevOntoStep(n, w, acc);
    RevOntoStep(n1, w - 1, 2 * acc + n % 2);
    RevOntoStep(n2, w - 2, 2 * (2 * acc + n % 2) + n1 % 2);
    RevOntoStep(n3, w - 3, 2 * (2 * (2 * acc + n % 2) + n1 % 2) + n2 % 2);
  }

  lemma PolynomialOnto()
    ensures RevOnto(POLYNOMIAL, 32, 0) == REFLECTED
  {
    hide RevOnto;
    RevOntoNibble(0x04C1_1DB7, 32, 0);
    RevOntoNibble(0x04C1_1DB, 28, 0xE);
    RevOntoNibble(0x04C1_1D, 24, 0xED);
    RevOntoNibble(0x04C1_1, 20, 0xEDB);
    RevOntoNibble(0x04C1, 16, 0xEDB8);
    RevOntoNibble(0x04C, 12, 0xEDB8_8);
    RevOntoNibble(0x04, 8, 0xEDB8_83);
    RevOntoNibble(0x0, 4, 0xEDB8_832);
    RevOntoNone(0xEDB8_8320);
  }

  lemma RevOntoNone(acc: nat)
    ensures RevOnto(0, 0, acc) == acc
  {
  }

  /** A shift of the wide number to the left mirrors a shift of the register to the right. */
  lemma StepMirrors(x: nat)
    ensures Rev(if Bit(x, 31) then Xor(2 * x, POLYNOMIAL) else 2 * x, 32) == Step(Rev(x, 32))
  {
    hide Xor, Bit;
    assert Rev(x, 32) / 2 == Rev(x, 31) && (Rev(x, 32) % 2 == 1) == Bit(x, 31);
    RevDouble(x, 32);
    RevXor(2 * x, POLYNOMIAL, 32);
    PolynomialReversed();
  }

  lemma ShiftedXor(c: nat, b: nat)
    ensures Xor(2 * c, 2 * b) == 2 * Xor(c, b)
    ensures Xor(Xor(2 * c, POLYNOMIAL), 2 * b) == Xor(2 * Xor(c, b), POLYNOMIAL)
  {
    XorDoubles(c, b);
    XorSwap(2 * c, POLYNOMIAL, 2 * b);
  }

  lemma LoadByte(crc: nat, b: byte)
    ensures Rev(Xor(crc, Rev(b, 32)), 32) == Xor(Rev(crc, 32), b)
    ensures Rev(b, 32) == Rev(b, 8) * Pow2(24)
  {
    hide Xor, Rev;
    assert Pow2(8) == 256;
    RevShort(b, 8, 24);
    Pow2Less(8, 32);
    RevXor(crc, Rev(b, 32), 32);
    RevRev(b, 32);
  }

  lemma ByteGone(c: nat, b: byte, rb: nat)
    requires rb == Rev(b, 8) * Pow2(32)
    ensures Rev(Xor(c, rb), 32) == Rev(c, 32)
  {
    hide Xor, Rev, Pow2;
    RevXor(c, rb, 32);
    RevShifted(Rev(b, 8), 32, 32);
    XorZero(Rev(c, 32));
  }

  lemma OneStep(k: nat, r: nat)
    requires k > 0
    ensures Steps(k, r) == Steps(k - 1, Step(r))
  {
  }

  lemma ShiftOnce(a: nat, k: nat)
    ensures a * Pow2(k + 1) == 2 * (a * Pow2(k))
  {
    MulDouble(a, Pow2(k));
  }

  lemma NoStep(r: nat)
    ensures Steps(0, r) == r
  {
  }

  /** `crc32_add`: the wide number keeps growing, its low 32 bits mirror the register. */
  method AddByte(crc: nat, b: byte) returns (c: nat)
    ensures Rev(c, 32) == Steps(8, Xor(Rev(crc, 32), b))
  {
    hide Xor, Rev, Bit, Step, Steps, Pow2;
    var rb := BitReverse(b, 32);
    c := crc;
    LoadByte(crc, b);
    for i := 0 to 8
      invariant rb == Rev(b, 8) * Pow2(24 + i)
      invariant Steps(8 - i, Rev(Xor(c, rb), 32)) == Steps(8, Xor(Rev(crc, 32), b))
    {
      OneStep(8 - i, Rev(Xor(c, rb), 32));
      ShiftedXor(c, rb);
      StepMirrors(Xor(c, rb));
      if Bit(Xor(c, rb), 31) {
        c := 2 * c;
        c := Xor(c, POLYNOMIAL);
      } else {
        c := 2 * c;
      }
      ShiftOnce(Rev(b, 8), 24 + i);
      rb := 2 * rb;
    }
    ByteGone(c, b, rb);
    NoStep(Rev(c, 32));
  }

  // ----- The whole list

  lemma {:induction false} AddBytesConcat(r: nat, a: seq<byte>, b: seq<byte>)
    ensures AddBytes(r, a + b) == AddBytes(AddBytes(r, a), b)
    decreases |a|
  {
    hide Steps, Xor;
    if a == [] {
      assert a + b == b;
    } else {
      AddBytesConcat(Steps(8, Xor(r, a[0])), a[1..], b);
      assert (a + b)[1..] == a[1..] + b;
    }
  }

  lemma AddWordBytes(r: nat, w: int)
    ensures AddBytes(r, WordBytes(w)) ==
            Steps(8, Xor(Steps(8, Xor(Steps(8, Xor(Steps(8, Xor(
              r, w % 256)), w / 0x100 % 256)), w / 0x1_0000 % 256)), w / 0x100_0000 % 256))
  {
    hide Steps, Xor;
    var b := WordBytes(w);
    assert b[1..][1..] == b[2..] && b[2..][1..] == b[3..] && b[3..][1..] == [];
    assert b[1..][0] == b[1] && b[2..][0] == b[2] && b[3..][0] == b[3];
    var r1 := Steps(8, Xor(r, b[0]));
    var r2 := Steps(8, Xor(r1, b[1]));
    var r3 := Steps(8, Xor(r2, b[2]));
    assert AddBytes(r, b) == AddBytes(r1, b[1..]);
    assert AddBytes(r1, b[1..]) == AddBytes(r2, b[2..]);
    assert AddBytes(r2, b[2..]) == AddBytes(r3, b[3..]);
  }

  lemma OnesReversed()
    ensures Rev(ONES, 32) == ONES && Pow2(32) == ONES + 1
  {
    hide Rev;
    assert Pow2(8) == 0x100;
    assert Pow2(16) == 0x1_0000;
    assert Pow2(24) == 0x100_0000;
    assert Pow2(32) == 0x1_0000_0000;
    RevFlip(0, 32, 32);
    RevShifted(0, 32, 32);
  }

  lemma StreamStep(ws: seq<int>, i: nat)
    requires i < |ws|
    ensures Stream(ws[i..]) == WordBytes(ws[i]) + Stream(ws[i + 1..])
  {
    assert ws[i..][1..] == ws[i + 1..];
  }

  /** `crc32`: for every word list it is the frame check sequence of the little-endian byte stream. */
  method Crc32(data: seq<int>) returns (r: nat)
    ensures r == FrameCheck(Stream(data))
  {
    hide Steps, Xor, Rev, Stream, AddBytes;
    var crc := ONES;
    OnesReversed();
    for i := 0 to |data|
      invariant AddBytes(Rev(crc, 32), Stream(data[i..])) == AddBytes(ONES, Stream(data))
    {
      var w := data[i];
      StreamStep(data, i);
      AddBytesConcat(Rev(crc, 32), WordBytes(w), Stream(data[i + 1..]));
      AddWordBytes(Rev(crc, 32), w);
      crc := AddByte(crc, w % 256);
      crc := AddByte(crc, w / 0x100 % 256);
      crc := AddByte(crc, w / 0x1_0000 % 256);
      crc := AddByte(crc, w / 0x100_0000 % 256);
    }
    StreamEnd(data, crc);
    RevFlip(crc, 32, 32);
    r := BitReverse(BitNot(crc, 32), 32);
  }

  lemma StreamEnd(ws: seq<int>, crc: nat)
    ensures AddBytes(Rev(crc, 32), Stream(ws[|ws|..])) == Rev(crc, 32)
  {
  }

  // ----- Known values

  /** Shifting out zeros. */
  lemma {:induction false} EvenSteps(k: nat, r: nat)
    ensures Steps(k, r * Pow2(k)) == r
  {
    hide Xor;
    if k > 0 {
      MulDouble(r, Pow2(k - 1));
      EvenSteps(k - 1, r);
    }
  }

  /** A byte of ones clears the low byte of ones. */
  lemma {:induction false} ClearOnes(h: nat, k: nat)
    ensures Xor(h * Pow2(k) + (Pow2(k) - 1), Pow2(k) - 1) == h * Pow2(k)
  {
    if k == 0 {
      XorZero(h);
    } else {
      MulDouble(h, Pow2(k - 1));
      var a, b := h * Pow2(k - 1) + (Pow2(k - 1) - 1), Pow2(k - 1) - 1;
      assert (2 * a + 1) / 2 == a && (2 * b + 1) / 2 == b;
      ClearOnes(h, k - 1);
    }
  }

  lemma OnesByte(h: nat)
    ensures Steps(8, Xor(256 * h + 255, 255)) == h
  {
    hide Xor, Steps;
    assert Pow2(8) == 256;
    ClearOnes(h, 8);
    EvenSteps(8, h);
  }

  /** No bytes have the checksum 0, and four bytes of ones have that of all ones. */
  lemma KnownChecks()
    ensures FrameCheck([]) == 0 && FrameCheck([255, 255, 255, 255]) == 0xFFFF_FFFF
  {
    hide Xor, Steps;
    assert WordBytes(0xFFFF_FFFF) == [255, 255, 255, 255];
    AddWordBytes(ONES, 0xFFFF_FFFF);
    OnesByte(0xFF_FFFF);
    OnesByte(0xFFFF);
    OnesByte(0xFF);
    OnesByte(0);
  }

  /** The generator polynomial of IEEE 802.3, term by term. */
  lemma PolynomialTerms()
    ensures 0x1_0000_0000 + POLYNOMIAL
         == Pow2(32) + Pow2(26) + Pow2(23) + Pow2(22) + Pow2(16) + Pow2(12) + Pow2(11) + Pow2(10)
            + Pow2(8) + Pow2(7) + Pow2(5) + Pow2(4) + Pow2(2) + Pow2(1) + Pow2(0)
  {
    assert Pow2(8) == 0x100;
    assert Pow2(16) == 0x1_0000;
    assert Pow2(24) == 0x100_0000;
    assert Pow2(32) == 0x1_0000_0000;
  }
}
