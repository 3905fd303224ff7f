/** Bits of unbounded integers, in two's complement without a width, as Python has them. */
module Bits {
  function Pow2(k: nat): (r: nat)
    ensures r > 0
  {
    if k == 0 then 1 else 2 * Pow2(k - 1)
  }

  /** `n & (1 << i) != 0`, also for negative `n`. */
  predicate Bit(n: int, i: nat)
    decreases i
  {
    if i == 0 then n % 2 == 1 else Bit(n / 2, i - 1)
  }

  /** `a ^ b`. */
  function Xor(a: nat, b: nat): (r: nat) {
    if a == 0 && b == 0 then 0
    else 2 * Xor(a / 2, b / 2) + (if a % 2 == b % 2 then 0 else 1)
  }

  /** `a | b`. */
  function Or(a: nat, b: nat): (r: nat) {
    if a == 0 && b == 0 then 0
    else 2 * Or(a / 2, b / 2) + (if a % 2 == 0 && b % 2 == 0 then 0 else 1)
  }

  lemma {:induction false} BitZero(i: nat)
    ensures !Bit(0, i)
  {
    if i > 0 {
      BitZero(i - 1);
    }
  }

  lemma BitHalf(n: int, i: nat)
    ensures Bit(n / 2, i) == Bit(n, i + 1)
  {
  }

  lemma BitDouble(n: int, i: nat)
    ensures Bit(2 * n, i) == (i > 0 && Bit(n, i - 1))
  {
    assert 2 * n / 2 == n;
  }

  lemma {:induction false} BitXor(a: nat, b: nat, i: nat)
    ensures Bit(Xor(a, b), i) == (Bit(a, i) != Bit(b, i))
  {
    if a == 0 && b == 0 {
      BitZero(i);
    } else {
      assert Xor(a, b) / 2 == Xor(a / 2, b / 2);
      if i > 0 {
        BitXor(a / 2, b / 2, i - 1);
      }
    }
  }

  lemma {:induction false} BitOr(a: nat, b: nat, i: nat)
    ensures Bit(Or(a, b), i) == (Bit(a, i) || Bit(b, i))
  {
    if a == 0 && b == 0 {
      BitZero(i);
    } else {
      assert Or(a, b) / 2 == Or(a / 2, b / 2);
      if i > 0 {
        BitOr(a / 2, b / 2, i - 1);
      }
    }
  }

  /** Shifting left by `s`. */
  lemma {:induction false} BitShift(n: int, s: nat, i: nat)
    ensures Bit(n * Pow2(s), i) == (i >= s && Bit(n, i - s))
    decreases s
  {
    if s > 0 {
      assert n * Pow2(s) == 2 * (n * Pow2(s - 1));
      BitDouble(n * Pow2(s - 1), i);
      if i > 0 {
        BitShift(n, s - 1, i - 1);
      }
    }
  }

  /** Shifting right by `s`. */
  lemma {:induction false} BitShiftRight(n: int, s: nat, i: nat)
    ensures Bit(n / Pow2(s), i) == Bit(n, i + s)
    decreases s
  {
    if s > 0 {
      DivHalf(n, s);
      BitShiftRight(n / 2, s - 1, i);
    }
  }

  lemma DivHalf(n: int, s: nat)
    requires s > 0
    ensures n / Pow2(s) == (n / 2) / Pow2(s - 1)
  {
    var m := Pow2(s - 1);
    DivUnique(n, 2 * m, (n / 2) / m, 2 * ((n / 2) % m) + n % 2);
  }

  lemma DivUnique(n: int, d: nat, q: int, r: int)
    requires d > 0 && 0 <= r < d && n == q * d + r
    ensures n / d == q && n % d == r
  {
    var e := n / d - q;
    assert e * d == r - n % d;
    MulGrows(e, d);
  }

  lemma MulGrows(e: int, d: nat)
    ensures e >= 1 ==> e * d >= d
    ensures e <= -1 ==> e * d + d <= 0
  {
  }

  lemma ModHalf(n: int, w: nat)
    requires w > 0
    ensures n % Pow2(w) == 2 * ((n / 2) % Pow2(w - 1)) + n % 2
  {
    var m := Pow2(w - 1);
    DivUnique(n, 2 * m, (n / 2) / m, 2 * ((n / 2) % m) + n % 2);
  }

  /** Masking with `(1 << w) - 1`. */
  lemma {:induction false} BitMod(n: int, w: nat, i: nat)
    ensures Bit(n % Pow2(w), i) == (i < w && Bit(n, i))
    decreases w
  {
    if w == 0 {
      BitZero(i);
    } else {
      ModHalf(n, w);
      var m := (n / 2) % Pow2(w - 1);
      assert n % Pow2(w) / 2 == m && n % Pow2(w) % 2 == n % 2;
      if i > 0 {
        BitMod(n / 2, w - 1, i - 1);
      }
    }
  }

  /** `(1 << w) - 1 - n` flips the low `w` bits, whatever lies above them. */
  lemma {:induction false} BitFlip(n: int, w: nat, i: nat)
    requires i < w
    ensures Bit(Pow2(w) - 1 - n, i) == !Bit(n, i)
    decreases i
  {
    var f := Pow2(w) - 1 - n;
    assert f % 2 == 1 - n % 2 && f / 2 == Pow2(w - 1) - 1 - n / 2;
    if i > 0 {
      BitFlip(n / 2, w - 1, i - 1);
    }
  }

  lemma {:induction false} BitAbove(n: nat, w: nat, i: nat)
    requires n < Pow2(w) && w <= i
    ensures !Bit(n, i)
    decreases w
  {
    if w == 0 {
      BitZero(i);
    } else {
      BitAbove(n / 2, w - 1, i - 1);
    }
  }

  ghost predicate SameBits(a: int, b: int, w: nat) {
    forall i: nat :: i < w ==> Bit(a, i) == Bit(b, i)
  }

  /** The low `w` bits decide a number modulo 2^w, and conversely. */
  lemma {:induction false} BitsDecide(a: int, b: int, w: nat)
    ensures SameBits(a, b, w) <==> a % Pow2(w) == b % Pow2(w)
    decreases w
  {
    hide Bit;
    if w > 0 {
      ModHalf(a, w);
      ModHalf(b, w);
      BitsDecide(a / 2, b / 2, w - 1);
      SameBitsHalf(a, b, w);
    }
  }

  lemma SameBitsHalf(a: int, b: int, w: nat)
    requires w > 0
    ensures SameBits(a, b, w) <==> SameBits(a / 2, b / 2, w - 1) && a % 2 == b % 2
  {
    assert Bit(a, 0) == (a % 2 == 1) && Bit(b, 0) == (b % 2 == 1);
    if SameBits(a, b, w) {
      forall i: nat | i < w - 1 ensures Bit(a / 2, i) == Bit(b / 2, i) {
        BitHalf(a, i);
        BitHalf(b, i);
      }
    }
    if SameBits(a / 2, b / 2, w - 1) && a % 2 == b % 2 {
      forall i: nat | i < w ensures Bit(a, i) == Bit(b, i) {
        if i > 0 {
          BitHalf(a, i - 1);
          BitHalf(b, i - 1);
        }
      }
    }
  }

  /** Numbers of at most `w` bits are equal when their bits are. */
  lemma EqualBits(a: nat, b: nat, w: nat)
    requires a < Pow2(w) && b < Pow2(w) && SameBits(a, b, w)
    ensures a == b
  {
    hide Pow2, Bit, SameBits;
    BitsDecide(a, b, w);
    DivUnique(a, Pow2(w), 0, a);
    DivUnique(b, Pow2(w), 0, b);
  }

  lemma {:induction false} XorBelow(a: nat, b: nat, w: nat)
    requires a < Pow2(w) && b < Pow2(w)
    ensures Xor(a, b) < Pow2(w)
    decreases w
  {
    if w > 0 {
      XorBelow(a / 2, b / 2, w - 1);
    }
  }

  lemma {:induction false} XorCancel(a: nat, b: nat)
    ensures Xor(Xor(a, b), b) == a
    decreases a + b
  {
    if a != 0 || b != 0 {
      var x := Xor(a, b);
      assert x / 2 == Xor(a / 2, b / 2) && x % 2 == (if a % 2 == b % 2 then 0 else 1);
      XorCancel(a / 2, b / 2);
    }
  }

  lemma {:induction false} XorSwap(a: nat, b: nat, c: nat)
    ensures Xor(Xor(a, b), c) == Xor(Xor(a, c), b)
    decreases a + b + c
  {
    if a != 0 || b != 0 || c != 0 {
      var x, y := Xor(a, b), Xor(a, c);
      assert x / 2 == Xor(a / 2, b / 2) && y / 2 == Xor(a / 2, c / 2);
      XorSwap(a / 2, b / 2, c / 2);
    }
  }
}
