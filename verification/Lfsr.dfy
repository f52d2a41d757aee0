/** A w-bit linear feedback shift register, most significant bit first, with generator
    polynomial x^w + p. Both checksums of the tool are runs of such a register.

    Polynomials over GF(2) are natural numbers: bit i is the coefficient of x^i, `Xor` is
    their sum and `Clmul` their product. */
module Lfsr {
  import opened Bits

  /** `x << 1` on w bits. */
  function Shl1(x: nat, w: nat): (r: nat)
    ensures r < Pow2(w)
  {
    LowBound(Shl(x, 1), w);
    Low(Shl(x, 1), w)
  }

  lemma Shl1Bit(x: nat, w: nat, j: nat)
    ensures Bit(Shl1(x, w), j) == (0 < j < w && Bit(x, j - 1))
  {
    LowBit(Shl(x, 1), w, j);
    ShlBit(x, 1, j);
  }

  /** `x & (1 << i)` tests bit i. */
  lemma BitTest(x: nat, i: nat)
    ensures (And(x, Pow2(i)) != 0) == Bit(x, i)
  {
    AndBit(x, Pow2(i), i);
    Pow2Bit(i, i);
    ZeroBits(i);
    if And(x, Pow2(i)) != 0 && !Bit(x, i) {
      forall j: nat ensures Bit(And(x, Pow2(i)), j) == Bit(0, j) {
        AndBit(x, Pow2(i), j);
        Pow2Bit(i, j);
        ZeroBits(j);
      }
      Extensional(And(x, Pow2(i)), 0);
    }
  }

  /** Shift one message bit in. */
  function Step(w: nat, p: nat, r: nat, b: bool): (r': nat)
    requires 0 < w && p < Pow2(w) && r < Pow2(w)
    ensures r' < Pow2(w)
  {
    var s := Shl1(r, w);
    XorBelow(s, p, w);
    if Bit(r, w - 1) != b then Xor(s, p) else s
  }

  function Run(w: nat, p: nat, r: nat, bits: seq<bool>): (r': nat)
    requires 0 < w && p < Pow2(w) && r < Pow2(w)
    ensures r' < Pow2(w)
    decreases |bits|
  {
    if bits == [] then r else Run(w, p, Step(w, p, r, bits[0]), bits[1..])
  }

  lemma XorBelow(x: nat, y: nat, w: nat)
    requires x < Pow2(w) && y < Pow2(w)
    ensures Xor(x, y) < Pow2(w)
  {
    forall i: nat | w <= i ensures !Bit(Xor(x, y), i) {
      XorBit(x, y, i);
      HighBitsZero(x, w, i);
      HighBitsZero(y, w, i);
    }
    BelowPow2(Xor(x, y), w);
  }

  lemma StepBit(w: nat, p: nat, r: nat, b: bool, i: nat)
    requires 0 < w && p < Pow2(w) && r < Pow2(w)
    ensures Bit(Step(w, p, r, b), i) ==
            ((0 < i < w && Bit(r, i - 1)) != (Bit(r, w - 1) != b && Bit(p, i)))
  {
    Shl1Bit(r, w, i);
    XorBit(Shl1(r, w), p, i);
  }

  lemma {:induction false} RunConcat(w: nat, p: nat, r: nat, bits: seq<bool>, more: seq<bool>)
    requires 0 < w && p < Pow2(w) && r < Pow2(w)
    ensures Run(w, p, r, bits + more) == Run(w, p, Run(w, p, r, bits), more)
    decreases |bits|
  {
    if bits == [] {
      assert bits + more == more;
    } else {
      assert (bits + more)[1..] == bits[1..] + more;
      RunConcat(w, p, Step(w, p, r, bits[0]), bits[1..], more);
    }
  }

  lemma RunSnoc(w: nat, p: nat, r: nat, bits: seq<bool>, b: bool)
    requires 0 < w && p < Pow2(w) && r < Pow2(w)
    ensures Run(w, p, r, bits + [b]) == Step(w, p, Run(w, p, r, bits), b)
  {
    RunConcat(w, p, r, bits, [b]);
  }

  // ----- the register holds a polynomial remainder

  /** The message as a polynomial; its first bit is the highest coefficient. */
  function MsgNum(bits: seq<bool>): nat
    decreases |bits|
  {
    if bits == [] then 0
    else 2 * MsgNum(bits[..|bits| - 1]) + (if bits[|bits| - 1] then 1 else 0)
  }

  function Clmul(a: nat, b: nat): nat
    decreases a
  {
    if a == 0 then 0 else Xor(2 * Clmul(a / 2, b), if a % 2 == 1 then b else 0)
  }

  function Generator(w: nat, p: nat): nat { Pow2(w) + p }

  /** r is the remainder of n by the generator. */
  ghost predicate IsRemainder(w: nat, p: nat, n: nat, r: nat) {
    r < Pow2(w) && exists quotient: nat :: n == Xor(Clmul(quotient, Generator(w, p)), r)
  }

  /** The quotient of the division the register performs. */
  function Quotient(w: nat, p: nat, r: nat, bits: seq<bool>): nat
    requires 0 < w && p < Pow2(w) && r < Pow2(w)
    decreases |bits|
  {
    if bits == [] then 0
    else
      var init, b := bits[..|bits| - 1], bits[|bits| - 1];
      2 * Quotient(w, p, r, init) + (if Bit(Run(w, p, r, init), w - 1) != b then 1 else 0)
  }

  lemma DoubleBit(x: nat, b: nat, i: nat)
    requires b < 2
    ensures Bit(2 * x + b, i) == if i == 0 then b == 1 else Bit(x, i - 1)
  {
    assert (2 * x + b) / 2 == x;
  }

  lemma GeneratorBit(w: nat, p: nat, i: nat)
    requires p < Pow2(w)
    ensures Bit(Generator(w, p), i) == (i == w || Bit(p, i))
  {
    Pow2Bit(w, i);
    HighBitsZero(p, w, w);
    if i > w { HighBitsZero(p, w, i); }
    SumIsXorAt(w, p, i);
  }

  lemma {:induction false} SumIsXorAt(w: nat, p: nat, i: nat)
    requires p < Pow2(w)
    ensures Bit(Pow2(w) + p, i) == (i == w || (i < w && Bit(p, i)))
    decreases w
  {
    if w == 0 {
      if i > 0 { ZeroBits(i - 1); }
    } else {
      assert (Pow2(w) + p) / 2 == Pow2(w - 1) + p / 2;
      if i > 0 { SumIsXorAt(w - 1, p / 2, i - 1); }
    }
  }

  /** message * x^w + seed * x^n == quotient * generator + register, for every message of
      n bits and every seed. */
  lemma {:induction false} RunDivides(w: nat, p: nat, r: nat, bits: seq<bool>)
    requires 0 < w && p < Pow2(w) && r < Pow2(w)
    ensures Xor(Shl(MsgNum(bits), w), Shl(r, |bits|)) ==
            Xor(Clmul(Quotient(w, p, r, bits), Generator(w, p)), Run(w, p, r, bits))
    decreases |bits|
  {
    if bits == [] {
      ShlZero(w);
      XorZero(r);
    } else {
      var init, b := bits[..|bits| - 1], bits[|bits| - 1];
      assert bits == init + [b];
      RunDivides(w, p, r, init);
      RunSnoc(w, p, r, init, b);
      DivideStep(w, p, MsgNum(init), Shl(r, |init|), Quotient(w, p, r, init), Run(w, p, r, init), b);
    }
  }

  lemma {:induction false} ShlZero(w: nat)
    ensures Shl(0, w) == 0
    decreases w
  {
    if w > 0 { ShlZero(w - 1); }
  }

  lemma {:induction false} XorZero(x: nat)
    ensures Xor(0, x) == x && Xor(x, 0) == x
    decreases x
  {
    if x > 0 { XorZero(x / 2); }
  }

  lemma DivideStepBit(w: nat, p: nat, m: nat, seed: nat, product: nat, next: nat, r: nat, b: bool, u: nat, i: nat)
    requires 0 < w && p < Pow2(w) && r < Pow2(w)
    requires Xor(Shl(m, w), seed) == Xor(product, r)
    requires u == if Bit(r, w - 1) != b then 1 else 0
    requires next == Xor(2 * product, if u == 1 then Generator(w, p) else 0)
    ensures Bit(Xor(Shl(2 * m + (if b then 1 else 0), w), 2 * seed), i) == Bit(Xor(next, Step(w, p, r, b)), i)
  {
    hide Xor, Shl, Step, Generator, Pow2, Bit;
    var m' := 2 * m + (if b then 1 else 0);
    var g := Generator(w, p);
    XorBit(Shl(m', w), 2 * seed, i);
    ShlBit(m', w, i);
    DoubleBit(seed, 0, i);
    XorBit(next, Step(w, p, r, b), i);
    XorBit(2 * product, if u == 1 then g else 0, i);
    DoubleBit(product, 0, i);
    GeneratorBit(w, p, i);
    ZeroBits(i);
    StepBit(w, p, r, b, i);
    if w <= i {
      DoubleBit(m, if b then 1 else 0, i - w);
      HighBitsZero(r, w, i);
      HighBitsZero(p, w, i);
    }
    if i > 0 {
      XorBit(Shl(m, w), seed, i - 1);
      ShlBit(m, w, i - 1);
      XorBit(product, r, i - 1);
      if w <= i - 1 { HighBitsZero(r, w, i - 1); }
    }
  }

  /** One message bit turns the division of n into that of 2 n + b x^w. */
  lemma DivideStep(w: nat, p: nat, m: nat, seed: nat, quotient: nat, r: nat, b: bool)
    requires 0 < w && p < Pow2(w) && r < Pow2(w)
    requires Xor(Shl(m, w), seed) == Xor(Clmul(quotient, Generator(w, p)), r)
    ensures var u := if Bit(r, w - 1) != b then 1 else 0;
            Xor(Shl(2 * m + (if b then 1 else 0), w), 2 * seed) ==
            Xor(Clmul(2 * quotient + u, Generator(w, p)), Step(w, p, r, b))
  {
    var g := Generator(w, p);
    var u := if Bit(r, w - 1) != b then 1 else 0;
    var m' := 2 * m + (if b then 1 else 0);
    var q' := 2 * quotient + u;
    var r' := Step(w, p, r, b);
    var product := 2 * Clmul(quotient, g);
    assert Clmul(q', g) == Xor(product, if u == 1 then g else 0) by {
      if q' == 0 { XorZero(0); } else { assert q' / 2 == quotient; }
    }
    forall i: nat ensures Bit(Xor(Shl(m', w), 2 * seed), i) == Bit(Xor(Clmul(q', g), r'), i) {
      DivideStepBit(w, p, m, seed, Clmul(quotient, g), Clmul(q', g), r, b, u, i);
    }
    Extensional(Xor(Shl(m', w), 2 * seed), Xor(Clmul(q', g), r'));
  }

  /** The register after a message is the remainder of message * x^w + seed * x^n. */
  lemma RunIsRemainder(w: nat, p: nat, r: nat, bits: seq<bool>)
    requires 0 < w && p < Pow2(w) && r < Pow2(w)
    ensures IsRemainder(w, p, Xor(Shl(MsgNum(bits), w), Shl(r, |bits|)), Run(w, p, r, bits))
  {
    RunDivides(w, p, r, bits);
  }

  /** A multiple of the generator other than zero has a term of degree w or more. */
  lemma {:induction false} MultipleIsHigh(w: nat, p: nat, a: nat) returns (d: nat)
    requires p < Pow2(w) && 0 < a
    ensures w <= d && Bit(Clmul(a, Generator(w, p)), d)
    decreases a
  {
    var g := Generator(w, p);
    if a == 1 {
      d := w;
      XorBit(0, g, w);
      GeneratorBit(w, p, w);
      ZeroBits(w);
    } else {
      var e := MultipleIsHigh(w, p, a / 2);
      d := e + 1;
      XorBit(2 * Clmul(a / 2, g), if a % 2 == 1 then g else 0, d);
      DoubleBit(Clmul(a / 2, g), 0, d);
      GeneratorBit(w, p, d);
      HighBitsZero(p, w, d);
      ZeroBits(d);
    }
  }

  lemma XorSwap(a: nat, b: nat, c: nat, d: nat)
    ensures Xor(Xor(a, b), Xor(c, d)) == Xor(Xor(a, c), Xor(b, d))
  {
    var x, y := Xor(Xor(a, b), Xor(c, d)), Xor(Xor(a, c), Xor(b, d));
    forall i: nat ensures Bit(x, i) == Bit(y, i) {
      XorBit(Xor(a, b), Xor(c, d), i);
      XorBit(Xor(a, c), Xor(b, d), i);
      XorBit(a, b, i);
      XorBit(c, d, i);
      XorBit(a, c, i);
      XorBit(b, d, i);
    }
    Extensional(x, y);
  }

  lemma XorDouble(x: nat, y: nat)
    ensures Xor(2 * x, 2 * y) == 2 * Xor(x, y)
  {
    assert (2 * x) / 2 == x && (2 * y) / 2 == y;
    XorZero(0);
  }

  lemma XorSelf(x: nat)
    ensures Xor(x, x) == 0
  {
    forall i: nat ensures Bit(Xor(x, x), i) == Bit(0, i) { XorBit(x, x, i); ZeroBits(i); }
    Extensional(Xor(x, x), 0);
  }

  function Times(odd: bool, g: nat): nat { if odd then g else 0 }

  lemma ClmulUnfold(a: nat, g: nat)
    ensures Clmul(a, g) == Xor(2 * Clmul(a / 2, g), Times(a % 2 == 1, g))
  {
    if a == 0 { XorZero(0); }
  }

  lemma TimesXor(s: bool, t: bool, g: nat)
    ensures Times(s != t, g) == Xor(Times(s, g), Times(t, g))
  {
    XorZero(g);
    XorZero(0);
    XorSelf(g);
  }

  lemma {:induction false} ClmulLinear(a: nat, b: nat, g: nat)
    ensures Clmul(Xor(a, b), g) == Xor(Clmul(a, g), Clmul(b, g))
    decreases a + b
  {
    if a == 0 && b == 0 {
      XorZero(0);
    } else {
      ClmulLinear(a / 2, b / 2, g);
      var c := Xor(a, b);
      ClmulUnfold(a, g);
      ClmulUnfold(b, g);
      ClmulUnfold(c, g);
      assert c / 2 == Xor(a / 2, b / 2) && (c % 2 == 1) == ((a % 2 == 1) != (b % 2 == 1));
      XorDouble(Clmul(a / 2, g), Clmul(b / 2, g));
      TimesXor(a % 2 == 1, b % 2 == 1, g);
      XorSwap(2 * Clmul(a / 2, g), 2 * Clmul(b / 2, g), Times(a % 2 == 1, g), Times(b % 2 == 1, g));
    }
  }

  /** Division by the generator has one remainder. */
  lemma RemainderUnique(w: nat, p: nat, n: nat, r: nat, r': nat)
    requires p < Pow2(w)
    requires IsRemainder(w, p, n, r) && IsRemainder(w, p, n, r')
    ensures r == r'
  {
    var g := Generator(w, p);
    var a: nat :| n == Xor(Clmul(a, g), r);
    var a': nat :| n == Xor(Clmul(a', g), r');
    ClmulLinear(a, a', g);
    var c := Xor(a, a');
    if c != 0 {
      var d := MultipleIsHigh(w, p, c);
      XorBit(Clmul(a, g), Clmul(a', g), d);
      XorBit(Clmul(a, g), r, d);
      XorBit(Clmul(a', g), r', d);
      HighBitsZero(r, w, d);
      HighBitsZero(r', w, d);
      assert false;
    }
    forall i: nat ensures Bit(r, i) == Bit(r', i) {
      XorBit(Clmul(a, g), Clmul(a', g), i);
      ZeroBits(i);
      XorBit(Clmul(a, g), r, i);
      XorBit(Clmul(a', g), r', i);
    }
    Extensional(r, r');
  }

  // ----- linearity

  function XorSeq(a: seq<bool>, b: seq<bool>): (c: seq<bool>)
    requires |a| == |b|
    ensures |c| == |a|
  {
    seq(|a|, i requires 0 <= i < |a| => a[i] != b[i])
  }

  lemma StepLinear(w: nat, p: nat, r: nat, b: bool, r': nat, b': bool)
    requires 0 < w && p < Pow2(w) && r < Pow2(w) && r' < Pow2(w)
    ensures Xor(r, r') < Pow2(w)
    ensures Step(w, p, Xor(r, r'), b != b') == Xor(Step(w, p, r, b), Step(w, p, r', b'))
  {
    XorBelow(r, r', w);
    var x, y, z := Step(w, p, Xor(r, r'), b != b'), Step(w, p, r, b), Step(w, p, r', b');
    forall i: nat ensures Bit(x, i) == Bit(Xor(y, z), i) {
      StepLinearBit(w, p, r, b, r', b', i);
      XorBit(y, z, i);
    }
    Extensional(x, Xor(y, z));
  }

  lemma StepLinearBit(w: nat, p: nat, r: nat, b: bool, r': nat, b': bool, i: nat)
    requires 0 < w && p < Pow2(w) && r < Pow2(w) && r' < Pow2(w) && Xor(r, r') < Pow2(w)
    ensures Bit(Step(w, p, Xor(r, r'), b != b'), i) == (Bit(Step(w, p, r, b), i) != Bit(Step(w, p, r', b'), i))
  {
    XorBit(r, r', w - 1);
    if i > 0 { XorBit(r, r', i - 1); }
    StepBit(w, p, Xor(r, r'), b != b', i);
    StepBit(w, p, r, b, i);
    StepBit(w, p, r', b', i);
  }

  lemma {:induction false} RunLinear(w: nat, p: nat, r: nat, bits: seq<bool>, r': nat, bits': seq<bool>)
    requires 0 < w && p < Pow2(w) && r < Pow2(w) && r' < Pow2(w) && |bits| == |bits'|
    ensures Xor(r, r') < Pow2(w)
    ensures Run(w, p, Xor(r, r'), XorSeq(bits, bits')) == Xor(Run(w, p, r, bits), Run(w, p, r', bits'))
    decreases |bits|
  {
    XorBelow(r, r', w);
    if bits != [] {
      StepLinear(w, p, r, bits[0], r', bits'[0]);
      RunLinear(w, p, Step(w, p, r, bits[0]), bits[1..], Step(w, p, r', bits'[0]), bits'[1..]);
      assert XorSeq(bits, bits')[1..] == XorSeq(bits[1..], bits'[1..]);
    }
  }

  // ----- injectivity, when the generator has a constant term

  ghost predicate Agree(r: nat, r': nat, m: nat) {
    forall i: nat :: i < m ==> Bit(r, i) == Bit(r', i)
  }

  /** If m + 1 low bits agree after a step, the feedback was the same and m low bits
      agreed before it. */
  lemma AgreeBack(w: nat, p: nat, r: nat, b: bool, r': nat, b': bool, m: nat)
    requires 0 < w && p < Pow2(w) && p % 2 == 1 && r < Pow2(w) && r' < Pow2(w) && m + 1 <= w
    requires Agree(Step(w, p, r, b), Step(w, p, r', b'), m + 1)
    ensures (Bit(r, w - 1) != b) == (Bit(r', w - 1) != b')
    ensures Agree(r, r', m)
  {
    StepBit(w, p, r, b, 0);
    StepBit(w, p, r', b', 0);
    assert Bit(Step(w, p, r, b), 0) == Bit(Step(w, p, r', b'), 0);
    forall i: nat | i < m ensures Bit(r, i) == Bit(r', i) {
      StepBit(w, p, r, b, i + 1);
      StepBit(w, p, r', b', i + 1);
      assert Bit(Step(w, p, r, b), i + 1) == Bit(Step(w, p, r', b'), i + 1);
    }
  }

  lemma {:induction false} AgreeRun(w: nat, p: nat, r: nat, bits: seq<bool>, r': nat, bits': seq<bool>, m: nat)
    requires 0 < w && p < Pow2(w) && p % 2 == 1 && r < Pow2(w) && r' < Pow2(w)
    requires |bits| == |bits'| <= m <= w
    requires Agree(Run(w, p, r, bits), Run(w, p, r', bits'), m)
    ensures Agree(r, r', m - |bits|)
    decreases |bits|
  {
    if bits != [] {
      AgreeRun(w, p, Step(w, p, r, bits[0]), bits[1..], Step(w, p, r', bits'[0]), bits'[1..], m);
      AgreeBack(w, p, r, bits[0], r', bits'[0], m - |bits|);
    }
  }

  /** From one register state, two messages of equal length, at most w, that end in the
      same state are the same message. */
  lemma {:induction false} RunInjectiveInMessage(w: nat, p: nat, r: nat, bits: seq<bool>, bits': seq<bool>)
    requires 0 < w && p < Pow2(w) && p % 2 == 1 && r < Pow2(w)
    requires |bits| == |bits'| <= w
    requires Run(w, p, r, bits) == Run(w, p, r, bits')
    ensures bits == bits'
    decreases |bits|
  {
    if bits != [] {
      var s, s' := Step(w, p, r, bits[0]), Step(w, p, r, bits'[0]);
      AgreeRun(w, p, s, bits[1..], s', bits'[1..], w);
      AgreeBack(w, p, r, bits[0], r, bits'[0], 0);
      RunInjectiveInMessage(w, p, s, bits[1..], bits'[1..]);
      assert bits == [bits[0]] + bits[1..] && bits' == [bits'[0]] + bits'[1..];
    }
  }

  /** For one message, two register states that end in the same state are the same. */
  lemma {:induction false} RunInjectiveInState(w: nat, p: nat, r: nat, r': nat, bits: seq<bool>)
    requires 0 < w && p < Pow2(w) && p % 2 == 1 && r < Pow2(w) && r' < Pow2(w)
    requires Run(w, p, r, bits) == Run(w, p, r', bits)
    ensures r == r'
    decreases |bits|
  {
    if bits != [] {
      var b := bits[0];
      RunInjectiveInState(w, p, Step(w, p, r, b), Step(w, p, r', b), bits[1..]);
      AgreeBack(w, p, r, b, r', b, w - 1);
      assert forall i: nat :: i < w - 1 ==> Bit(r, i) == Bit(r', i);
      ExtensionalBelow(r, r', w);
    }
  }

  lemma ThreeParts(x: seq<bool>, lo: nat, hi: nat)
    requires lo <= hi <= |x|
    ensures x == x[..lo] + x[lo..hi] + x[hi..]
  {
  }

  /** Messages that differ only within one block of at most w bits end in different
      register states. */
  lemma RunDetectsBlock(w: nat, p: nat, r: nat, before: seq<bool>, block: seq<bool>, block': seq<bool>,
                        after: seq<bool>)
    requires 0 < w && p < Pow2(w) && p % 2 == 1 && r < Pow2(w)
    requires |block| == |block'| <= w && block != block'
    ensures Run(w, p, r, before + block + after) != Run(w, p, r, before + block' + after)
  {
    RunConcat(w, p, r, before + block, after);
    RunConcat(w, p, r, before + block', after);
    RunConcat(w, p, r, before, block);
    RunConcat(w, p, r, before, block');
    var s := Run(w, p, r, before);
    var t, t' := Run(w, p, s, block), Run(w, p, s, block');
    if t == t' { RunInjectiveInMessage(w, p, s, block, block'); }
    if Run(w, p, t, after) == Run(w, p, t', after) { RunInjectiveInState(w, p, t, t', after); }
  }

  // ----- the reflected, least-significant-bit-first form

  /** The w low bits of x in reverse order. */
  function Reverse(x: nat, w: nat): (y: nat)
    ensures y < Pow2(w)
  {
    var bits := seq(w, i requires 0 <= i < w => Bit(x, i));
    MsgNumBelow(bits);
    MsgNum(bits)
  }

  lemma {:induction false} MsgNumBelow(bits: seq<bool>)
    ensures MsgNum(bits) < Pow2(|bits|)
    decreases |bits|
  {
    if bits != [] { MsgNumBelow(bits[..|bits| - 1]); }
  }

  lemma {:induction false} MsgNumBit(bits: seq<bool>, i: nat)
    ensures Bit(MsgNum(bits), i) == (i < |bits| && bits[|bits| - 1 - i])
    decreases |bits|
  {
    if bits == [] {
      ZeroBits(i);
    } else {
      var init := bits[..|bits| - 1];
      DoubleBit(MsgNum(init), if bits[|bits| - 1] then 1 else 0, i);
      if i > 0 { MsgNumBit(init, i - 1); }
    }
  }

  lemma ReverseBit(x: nat, w: nat, i: nat)
    ensures Bit(Reverse(x, w), i) == (i < w && Bit(x, w - 1 - i))
  {
    MsgNumBit(seq(w, i requires 0 <= i < w => Bit(x, i)), i);
  }

  lemma ReverseTwice(x: nat, w: nat)
    requires x < Pow2(w)
    ensures Reverse(Reverse(x, w), w) == x
  {
    forall i: nat | i < w ensures Bit(Reverse(Reverse(x, w), w), i) == Bit(x, i) {
      ReverseBit(Reverse(x, w), w, i);
      ReverseBit(x, w, w - 1 - i);
    }
    ExtensionalBelow(Reverse(Reverse(x, w), w), x, w);
  }

  lemma ReverseNot(r: nat, w: nat)
    requires r < Pow2(w)
    ensures Reverse(Not(r, w), w) == Not(Reverse(r, w), w)
  {
    forall i: nat | i < w ensures Bit(Reverse(Not(r, w), w), i) == Bit(Not(Reverse(r, w), w), i) {
      ReverseBit(Not(r, w), w, i);
      NotBit(r, w, w - 1 - i);
      NotBit(Reverse(r, w), w, i);
      ReverseBit(r, w, i);
    }
    ExtensionalBelow(Reverse(Not(r, w), w), Not(Reverse(r, w), w), w);
  }

  function ReflectedStep(w: nat, p: nat, r: nat, b: bool): nat {
    if Bit(r, 0) != b then Xor(r / 2, Reverse(p, w)) else r / 2
  }

  function ReflectedRun(w: nat, p: nat, r: nat, bits: seq<bool>): nat
    decreases |bits|
  {
    if bits == [] then r else ReflectedRun(w, p, ReflectedStep(w, p, r, bits[0]), bits[1..])
  }

  /** The reflected register is the reversal of the register, at every step. */
  lemma ReflectedSimulates(w: nat, p: nat, r: nat, b: bool)
    requires 0 < w && p < Pow2(w) && r < Pow2(w)
    ensures ReflectedStep(w, p, Reverse(r, w), b) == Reverse(Step(w, p, r, b), w)
  {
    var x, y := ReflectedStep(w, p, Reverse(r, w), b), Reverse(Step(w, p, r, b), w);
    ReverseBit(r, w, 0);
    forall i: nat ensures Bit(x, i) == Bit(y, i) {
      ReverseBit(Step(w, p, r, b), w, i);
      ReverseBit(r, w, i + 1);
      XorBit(Reverse(r, w) / 2, Reverse(p, w), i);
      ReverseBit(p, w, i);
      if i < w { StepBit(w, p, r, b, w - 1 - i); }
    }
    Extensional(x, y);
  }

  lemma {:induction false} ReflectedRunSimulates(w: nat, p: nat, r: nat, bits: seq<bool>)
    requires 0 < w && p < Pow2(w) && r < Pow2(w)
    ensures ReflectedRun(w, p, Reverse(r, w), bits) == Reverse(Run(w, p, r, bits), w)
    decreases |bits|
  {
    if bits != [] {
      ReflectedSimulates(w, p, r, bits[0]);
      ReflectedRunSimulates(w, p, Step(w, p, r, bits[0]), bits[1..]);
    }
  }
}
