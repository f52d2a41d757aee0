/** Natural numbers seen as finite sets of bits.

    The C code works on unsigned words with masks and shifts. Here a word is a `nat`,
    the operators are defined one bit at a time, and every fact about them is a fact
    about `Bit`: two numbers with the same bits are equal (`Extensional`). */
module Bits {
  type byte = x: nat | x < 0x100
  type uint32 = x: nat | x < 0x1_0000_0000
  type uint64 = x: nat | x < 0x1_0000_0000_0000_0000

  function Pow2(n: nat): (p: nat)
    ensures 0 < p
  {
    if n == 0 then 1 else 2 * Pow2(n - 1)
  }

  /** Whether bit i of x is set; bit 0 is the least significant one. (Here and below the
      `decreases` clauses name every parameter, so that the verifier does not unroll a
      call such as Low(x, 64) all the way.) */
  predicate Bit(x: nat, i: nat)
    decreases i, x
  {
    if i == 0 then x % 2 == 1 else Bit(x / 2, i - 1)
  }

  function Shr(x: nat, k: nat): nat
    decreases k, x
  {
    if k == 0 then x else Shr(x / 2, k - 1)
  }

  function Shl(x: nat, k: nat): nat
    decreases k, x
  {
    if k == 0 then x else 2 * Shl(x, k - 1)
  }

  /** The k least significant bits of x. */
  function Low(x: nat, k: nat): nat
    decreases k, x
  {
    if k == 0 then 0 else 2 * Low(x / 2, k - 1) + x % 2
  }

  function And(x: nat, y: nat): nat
    decreases x + y
  {
    if x == 0 && y == 0 then 0
    else 2 * And(x / 2, y / 2) + (if x % 2 == 1 && y % 2 == 1 then 1 else 0)
  }

  function Or(x: nat, y: nat): nat
    decreases x + y
  {
    if x == 0 && y == 0 then 0
    else 2 * Or(x / 2, y / 2) + (if x % 2 == 1 || y % 2 == 1 then 1 else 0)
  }

  function Xor(x: nat, y: nat): nat
    decreases x + y
  {
    if x == 0 && y == 0 then 0
    else 2 * Xor(x / 2, y / 2) + (if x % 2 != y % 2 then 1 else 0)
  }

  /** The complement of x in a word of w bits. */
  function Not(x: nat, w: nat): nat
    requires x < Pow2(w)
  {
    Pow2(w) - 1 - x
  }

  // ----- equality and size

  lemma {:induction false} ZeroBits(i: nat)
    ensures !Bit(0, i)
    decreases i
  {
    if i > 0 { ZeroBits(i - 1); }
  }

  lemma NoBitsInZero()
    ensures forall i: nat :: !Bit(0, i)
  {
    forall i: nat ensures !Bit(0, i) { ZeroBits(i); }
  }

  lemma {:induction false} Extensional(x: nat, y: nat)
    requires forall i: nat :: Bit(x, i) == Bit(y, i)
    ensures x == y
    decreases x + y
  {
    if x != 0 || y != 0 {
      assert Bit(x, 0) == Bit(y, 0);
      forall i: nat ensures Bit(x / 2, i) == Bit(y / 2, i) {
        assert Bit(x, i + 1) == Bit(y, i + 1);
      }
      Extensional(x / 2, y / 2);
    }
  }

  lemma {:induction false} HighBitsZero(x: nat, n: nat, i: nat)
    requires x < Pow2(n) && n <= i
    ensures !Bit(x, i)
    decreases n
  {
    if n == 0 { ZeroBits(i); } else { HighBitsZero(x / 2, n - 1, i - 1); }
  }

  lemma {:induction false} BelowPow2(x: nat, n: nat)
    requires forall i: nat :: n <= i ==> !Bit(x, i)
    ensures x < Pow2(n)
    decreases n
  {
    if n == 0 {
      NoBitsInZero();
      Extensional(x, 0);
    } else {
      forall i: nat | n - 1 <= i ensures !Bit(x / 2, i) {
        assert !Bit(x, i + 1);
      }
      BelowPow2(x / 2, n - 1);
    }
  }

  /** Two numbers below 2^n that agree on their n low bits are equal. */
  lemma ExtensionalBelow(x: nat, y: nat, n: nat)
    requires x < Pow2(n) && y < Pow2(n)
    requires forall i: nat :: i < n ==> Bit(x, i) == Bit(y, i)
    ensures x == y
  {
    forall i: nat ensures Bit(x, i) == Bit(y, i) {
      if n <= i { HighBitsZero(x, n, i); HighBitsZero(y, n, i); }
    }
    Extensional(x, y);
  }

  // ----- the bits of each operator

  lemma {:induction false} ShrBit(x: nat, k: nat, i: nat)
    ensures Bit(Shr(x, k), i) == Bit(x, i + k)
    decreases k
  {
    if k > 0 { ShrBit(x / 2, k - 1, i); }
  }

  lemma {:induction false} ShlBit(x: nat, k: nat, i: nat)
    ensures Bit(Shl(x, k), i) == (k <= i && Bit(x, i - k))
    decreases k
  {
    if k > 0 {
      assert Shl(x, k) / 2 == Shl(x, k - 1);
      if i > 0 { ShlBit(x, k - 1, i - 1); }
    }
  }

  lemma {:induction false} LowBit(x: nat, k: nat, i: nat)
    ensures Bit(Low(x, k), i) == (i < k && Bit(x, i))
    decreases k
  {
    if k == 0 {
      ZeroBits(i);
    } else {
      assert Low(x, k) / 2 == Low(x / 2, k - 1);
      if i > 0 { LowBit(x / 2, k - 1, i - 1); }
    }
  }

  lemma {:induction false} AndBit(x: nat, y: nat, i: nat)
    ensures Bit(And(x, y), i) == (Bit(x, i) && Bit(y, i))
    decreases i
  {
    if x == 0 && y == 0 {
      ZeroBits(i);
    } else if i > 0 {
      assert And(x, y) / 2 == And(x / 2, y / 2);
      AndBit(x / 2, y / 2, i - 1);
    }
  }

  lemma {:induction false} OrBit(x: nat, y: nat, i: nat)
    ensures Bit(Or(x, y), i) == (Bit(x, i) || Bit(y, i))
    decreases i
  {
    if x == 0 && y == 0 {
      ZeroBits(i);
    } else if i > 0 {
      assert Or(x, y) / 2 == Or(x / 2, y / 2);
      OrBit(x / 2, y / 2, i - 1);
    }
  }

  lemma {:induction false} XorBit(x: nat, y: nat, i: nat)
    ensures Bit(Xor(x, y), i) == (Bit(x, i) != Bit(y, i))
    decreases i
  {
    if x == 0 && y == 0 {
      ZeroBits(i);
    } else if i > 0 {
      assert Xor(x, y) / 2 == Xor(x / 2, y / 2);
      XorBit(x / 2, y / 2, i - 1);
    }
  }

  lemma {:induction false} NotBit(x: nat, w: nat, i: nat)
    requires x < Pow2(w)
    ensures Bit(Not(x, w), i) == (i < w && !Bit(x, i))
    decreases w
  {
    if w == 0 {
      ZeroBits(i);
    } else if i > 0 {
      var p := Pow2(w - 1);
      assert (2 * p - 1 - x) / 2 == p - 1 - x / 2;
      assert Not(x, w) / 2 == Not(x / 2, w - 1);
      NotBit(x / 2, w - 1, i - 1);
    }
  }

  lemma {:induction false} OnesBit(w: nat, i: nat)
    ensures Bit(Pow2(w) - 1, i) == (i < w)
  {
    assert Pow2(w) - 1 == Not(0, w);
    NotBit(0, w, i);
    ZeroBits(i);
  }

  lemma {:induction false} Pow2Bit(k: nat, i: nat)
    ensures Bit(Pow2(k), i) == (i == k)
    decreases k
  {
    if k == 0 {
      if i > 0 { ZeroBits(i - 1); }
    } else {
      assert Pow2(k) / 2 == Pow2(k - 1);
      if i > 0 { Pow2Bit(k - 1, i - 1); }
    }
  }

  lemma {:induction false} JoinBit(lo: nat, hi: nat, k: nat, i: nat)
    requires lo < Pow2(k)
    ensures Bit(lo + Shl(hi, k), i) == if i < k then Bit(lo, i) else Bit(hi, i - k)
    decreases k
  {
    if k > 0 {
      assert (lo + Shl(hi, k)) / 2 == lo / 2 + Shl(hi, k - 1);
      if i > 0 { JoinBit(lo / 2, hi, k - 1, i - 1); }
    }
  }

  // ----- the same, for every bit at once

  lemma ShrBits(x: nat, k: nat)
    ensures forall i: nat :: Bit(Shr(x, k), i) == Bit(x, i + k)
  {
    forall i: nat ensures Bit(Shr(x, k), i) == Bit(x, i + k) { ShrBit(x, k, i); }
  }

  lemma LowBits(x: nat, k: nat)
    ensures forall i: nat :: Bit(Low(x, k), i) == (i < k && Bit(x, i))
  {
    forall i: nat ensures Bit(Low(x, k), i) == (i < k && Bit(x, i)) { LowBit(x, k, i); }
  }

  lemma AndBits(x: nat, y: nat)
    ensures forall i: nat :: Bit(And(x, y), i) == (Bit(x, i) && Bit(y, i))
  {
    forall i: nat ensures Bit(And(x, y), i) == (Bit(x, i) && Bit(y, i)) { AndBit(x, y, i); }
  }

  // ----- the operators as arithmetic

  lemma {:induction false} LowBound(x: nat, k: nat)
    ensures Low(x, k) < Pow2(k)
    decreases k
  {
    if k > 0 { LowBound(x / 2, k - 1); }
  }

  lemma {:induction false} LowId(x: nat, k: nat)
    requires x < Pow2(k)
    ensures Low(x, k) == x
    decreases k
  {
    if k > 0 { LowId(x / 2, k - 1); }
  }

  lemma TwiceProduct(x: nat, y: nat)
    ensures 2 * (x * y) == x * (2 * y)
  {
  }

  lemma {:induction false} ShlIsTimes(x: nat, k: nat)
    ensures Shl(x, k) == x * Pow2(k)
    decreases k
  {
    if k > 0 {
      ShlIsTimes(x, k - 1);
      TwiceProduct(x, Pow2(k - 1));
    }
  }

  /** Shr and Low are quotient and remainder by a power of two. */
  lemma {:induction false} Split(x: nat, k: nat)
    ensures x == Shl(Shr(x, k), k) + Low(x, k)
    decreases k
  {
    if k > 0 { Split(x / 2, k - 1); }
  }

  lemma ShrLowAreDivMod(x: nat, k: nat)
    ensures Shr(x, k) == x / Pow2(k)
    ensures Low(x, k) == x % Pow2(k)
  {
    Split(x, k);
    LowBound(x, k);
    ShlIsTimes(Shr(x, k), k);
    DivModUnique(x, Pow2(k), Shr(x, k), Low(x, k));
  }

  lemma DivModUnique(x: int, d: nat, q: int, r: nat)
    requires 0 < d && r < d && x == q * d + r
    ensures q == x / d && r == x % d
  {
    TimesMonotone(q + 1, x / d, d);
    TimesMonotone(x / d + 1, q, d);
    assert x == d * (x / d) + x % d;
  }

  lemma TimesMonotone(a: int, b: int, d: nat)
    ensures a <= b ==> a * d <= b * d
  {
  }

  lemma {:induction false} Pow2Add(a: nat, b: nat)
    ensures Pow2(a + b) == Pow2(a) * Pow2(b)
    decreases a
  {
    if a > 0 {
      Pow2Add(a - 1, b);
      TwiceProduct(Pow2(b), Pow2(a - 1));
    }
  }

  lemma {:induction false} Pow2Monotone(a: nat, b: nat)
    requires a <= b
    ensures Pow2(a) <= Pow2(b)
    decreases b
  {
    if a < b { Pow2Monotone(a, b - 1); }
  }

  lemma Pow2Of8()
    ensures Pow2(8) == 0x100
  {
  }

  lemma Pow2Square(n: nat, p: nat, m: nat)
    requires Pow2(n) == p && m == 2 * n
    ensures Pow2(m) == p * p
  {
    Pow2Add(n, n);
  }

  lemma Pow2Values()
    ensures Pow2(8) == 0x100
    ensures Pow2(32) == 0x1_0000_0000
    ensures Pow2(64) == 0x1_0000_0000_0000_0000
  {
    hide Pow2;
    Pow2Of8();
    Pow2Square(8, 0x100, 16);
    Pow2Square(16, 0x1_0000, 32);
    Pow2Square(32, 0x1_0000_0000, 64);
  }

  lemma Pow2Of24()
    ensures Pow2(8) == 0x100 && Pow2(24) == 0x100_0000 && Pow2(32) == 0x1_0000_0000
  {
    hide Pow2;
    Pow2Values();
    Pow2Add(8, 8);
    Pow2Add(16, 8);
  }

  // ----- signed numbers

  /** x as a signed number below half: two's complement wrap-around. */
  function Signed(x: int, half: int): (r: int)
    requires 0 < half
    ensures -half <= r < half
  {
    var y := x % (2 * half);
    if y < half then y else y - 2 * half
  }

  lemma SignedIs(x: int, half: int, k: int, r: int)
    requires 0 < half && x == k * (2 * half) + r && -half <= r < half
    ensures Signed(x, half) == r
  {
    hide *;
    if r >= 0 {
      DivModUnique(x, 2 * half, k, r);
    } else {
      assert (k - 1) * (2 * half) == k * (2 * half) - 2 * half;
      DivModUnique(x, 2 * half, k - 1, r + 2 * half);
    }
    SignedOf(x, half, x % (2 * half));
  }

  lemma SignedOf(x: int, half: int, y: nat)
    requires 0 < half && y == x % (2 * half)
    ensures Signed(x, half) == if y < half then y else y - 2 * half
  {
  }

  lemma SmallIsSigned(x: int, half: int)
    requires 0 < half && -half <= x < half
    ensures Signed(x, half) == x
  {
    SignedIs(x, half, 0, x);
  }

  /** Wrapping before an addition does not show after it. */
  lemma SignedSum(a: int, b: int, half: int)
    requires 0 < half
    ensures Signed(Signed(a, half) + b, half) == Signed(a + b, half)
  {
    hide *;
    var m := 2 * half;
    var k := SignedParts(a, half);
    var k' := SignedParts(Signed(a, half) + b, half);
    assert (k + k') * m == k * m + k' * m;
    SignedIs(a + b, half, k + k', Signed(Signed(a, half) + b, half));
  }

  lemma SignedParts(x: int, half: int) returns (k: int)
    requires 0 < half
    ensures x == k * (2 * half) + Signed(x, half)
  {
    var m := 2 * half;
    k := if x % m < half then x / m else x / m + 1;
    assert x == m * (x / m) + x % m;
    assert (x / m + 1) * m == x / m * m + m;
  }
}
