/** Which differences come back to themselves after a number of register steps. The divisor
    has the factor x + 1, so one non-zero difference does not move at all. */
module CrcKernel {
  import opened Crc32c

  /** The one non-zero register value that a step leaves alone. */
  const FIXED := Word(0xFCA42DAF)

  lemma {:induction false} FixedStep()
    ensures Step(FIXED) == FIXED
  {
  }

  lemma {:induction false} FixedSteps(n: nat)
    ensures Steps(FIXED, n) == FIXED
  {
    FixedStep();
    hide Step;
    if n > 0 {
      FixedSteps(n - 1);
    }
  }

  // ---- Linearity ----

  lemma {:induction false} XorPair(a: Word, b: Word, p: Word)
    ensures Xor(Xor(a, p), Xor(b, p)) == Xor(a, b)
  {
  }

  lemma {:induction false} XorSelf(a: Word)
    ensures Xor(a, a) == ZERO
  {
  }

  lemma {:induction false} StepLinear(a: Word, b: Word)
    ensures Step(Xor(a, b)) == Xor(Step(a), Step(b))
  {
    hide Low, Half, Xor;
    XorLow(a, b);
    XorHalf(a, b);
    XorPair(Half(a), Half(b), POLY);
    XorShuffle(Half(a), Half(b), POLY);
    XorAssociates(Half(a), Half(b), POLY);
  }

  lemma {:induction false} StepsLinear(a: Word, b: Word, n: nat)
    ensures Steps(Xor(a, b), n) == Xor(Steps(a, n), Steps(b, n))
    decreases n
  {
    hide Step, Xor;
    if n > 0 {
      StepLinear(a, b);
      StepsLinear(Step(a), Step(b), n - 1);
    }
  }

  /** The same bytes move a difference along without looking at them. */
  lemma {:induction false} UpdateLinear(a: Word, d: Word, data: seq<bv8>)
    ensures Update(Xor(a, d), data) == Xor(Update(a, data), Steps(d, 8 * |data|))
    decreases |data|
  {
    if data != [] {
      hide Steps, Xor, Wide;
      var x := Wide(data[0]);
      XorShuffle(a, d, x);
      StepsLinear(Xor(a, x), d, 8);
      UpdateLinear(ByteStep(a, data[0]), Steps(d, 8), data[1..]);
      StepsBoth(d, 8, 8 * |data[1..]|);
    } else {
      assert Steps(d, 0) == d;
    }
  }

  // ---- Thirteen steps ----

  function Mask(c: bv32): bv32 { (c >> 1) ^ (0x82F63B78 & (0 - (c & 1))) }

  function Mask4(c: bv32): bv32 { Mask(Mask(Mask(Mask(c)))) }

  lemma {:induction false} StepIsMask(c: bv32)
    ensures Step(Word(c)) == Word(Mask(c))
  {
  }

  lemma {:induction false} FourSteps(c: Word)
    ensures Steps(c, 4) == Step(Step(Step(Step(c))))
  {
    hide Step;
    assert Steps(c, 4) == Steps(Step(c), 3) == Steps(Step(Step(c)), 2);
    assert Steps(Step(Step(c)), 2) == Steps(Step(Step(Step(c))), 1) == Steps(Step(Step(Step(Step(c)))), 0);
  }

  lemma {:induction false} StepsIsMask4(c: bv32)
    ensures Steps(Word(c), 4) == Word(Mask4(c))
  {
    hide Step, Mask, Steps;
    FourSteps(Word(c));
    StepIsMask(c);
    StepIsMask(Mask(c));
    StepIsMask(Mask(Mask(c)));
    StepIsMask(Mask(Mask(Mask(c))));
  }

  function Thirteen(w: Word): Word { Word(Mask(Mask4(Mask4(Mask4(w.bits))))) }

  lemma {:induction false} StepsIsThirteen(w: Word)
    ensures Steps(w, 13) == Thirteen(w)
  {
    hide Step, Mask, Mask4, Steps;
    var c := w.bits;
    StepsBoth(w, 4, 9);
    StepsIsMask4(c);
    StepsBoth(Word(Mask4(c)), 4, 5);
    StepsIsMask4(Mask4(c));
    StepsBoth(Word(Mask4(Mask4(c))), 4, 1);
    StepsIsMask4(Mask4(Mask4(c)));
    var z := Mask4(Mask4(Mask4(c)));
    OneStep(Word(z));
    StepIsMask(z);
  }

  lemma {:induction false} OneStep(c: Word)
    ensures Steps(c, 1) == Step(c)
  {
    hide Step;
    assert Steps(c, 1) == Steps(Step(c), 0);
  }

  lemma {:induction false} EvenKernel(d: Word)
    requires !Low(d) && Thirteen(d) == d
    ensures d == ZERO
  {
    EvenKernelBits(d.bits);
  }

  lemma {:induction false} EvenKernelBits(d: bv32)
    requires d & 1 != 1 && Mask(Mask4(Mask4(Mask4(d)))) == d
    ensures d == 0
  {
  }

  lemma {:induction false} EvenImage(d: Word)
    requires !Low(d)
    ensures Xor(Thirteen(d), d) != FIXED
  {
    EvenImageBits(d.bits);
  }

  lemma {:induction false} EvenImageBits(d: bv32)
    requires d & 1 != 1
    ensures Mask(Mask4(Mask4(Mask4(d)))) ^ d != 0xFCA42DAF
  {
  }

  lemma {:induction false} FlipLow(d: Word)
    ensures Low(Xor(d, FIXED)) == !Low(d)
  {
  }

  /** How far `n` steps move a difference. */
  function Moved(d: Word, n: nat): Word {
    Xor(Steps(d, n), d)
  }

  lemma {:induction false} MovedLinear(d: Word, e: Word, n: nat)
    ensures Moved(Xor(d, e), n) == Xor(Moved(d, n), Moved(e, n))
  {
    hide Steps, Xor;
    StepsLinear(d, e, n);
    XorFour(Steps(d, n), Steps(e, n), d, e);
  }

  lemma {:induction false} XorFour(a: Word, b: Word, c: Word, d: Word)
    ensures Xor(Xor(a, b), Xor(c, d)) == Xor(Xor(a, c), Xor(b, d))
  {
  }

  lemma {:induction false} MovedFixed(d: Word, n: nat)
    ensures Moved(Xor(d, FIXED), n) == Moved(d, n)
  {
    hide Steps, Xor;
    MovedLinear(d, FIXED, n);
    FixedSteps(n);
    XorSelf(FIXED);
    XorZero(Moved(d, n));
  }

  /** After `n` steps only zero and the fixed value are where they were, and no difference
      has moved by exactly the fixed value. */
  ghost predicate OnlyFixed(n: nat) {
    forall d: Word :: (Moved(d, n) == ZERO ==> d == ZERO || d == FIXED) && Moved(d, n) != FIXED
  }

  lemma {:induction false} OnlyFixed13(d: Word)
    ensures Moved(d, 13) == ZERO ==> d == ZERO || d == FIXED
    ensures Moved(d, 13) != FIXED
  {
    hide Steps, Mask, Mask4;
    if Low(d) {
      FlipLow(d);
      MovedFixed(d, 13);
      EvenCase(Xor(d, FIXED));
      XorUndo(d, FIXED);
      XorSwap(ZERO, FIXED);
      XorZero(FIXED);
      hide *;
    } else {
      EvenCase(d);
    }
  }

  lemma {:induction false} EvenCase(d: Word)
    requires !Low(d)
    ensures Moved(d, 13) == ZERO ==> d == ZERO
    ensures Moved(d, 13) != FIXED
  {
    hide Steps, Thirteen, Xor, Low;
    StepsIsThirteen(d);
    EvenImage(d);
    if Moved(d, 13) == ZERO {
      XorSame(Steps(d, 13), d);
      EvenKernel(d);
    }
  }

  lemma {:induction false} XorSame(a: Word, b: Word)
    requires Xor(a, b) == ZERO
    ensures a == b
  {
  }

  // ---- Doubling ----

  /** Moving twice by `n` is moving once by `2 * n`, because differences cancel in pairs. */
  lemma {:induction false} MovedTwice(d: Word, n: nat)
    ensures Moved(Moved(d, n), n) == Moved(d, 2 * n)
  {
    hide Steps, Xor;
    StepsLinear(Steps(d, n), d, n);
    StepsBoth(d, n, n);
    XorMiddle(Steps(Steps(d, n), n), Steps(d, n), d);
  }

  lemma {:induction false} XorMiddle(a: Word, b: Word, c: Word)
    ensures Xor(Xor(a, b), Xor(b, c)) == Xor(a, c)
  {
    XorSwap(b, c);
    XorPair(a, c, b);
    hide Xor;
  }

  lemma {:induction false} OnlyFixedDoubles(n: nat, d: Word)
    requires OnlyFixed(n)
    ensures Moved(d, 2 * n) == ZERO ==> d == ZERO || d == FIXED
    ensures Moved(d, 2 * n) != FIXED
  {
    hide Steps, Xor, Moved;
    MovedTwice(d, n);
    assert Moved(d, n) != FIXED;
  }

  lemma {:induction false} OnlyFixed832()
    ensures OnlyFixed(832)
  {
    hide Moved;
    forall d: Word ensures (Moved(d, 13) == ZERO ==> d == ZERO || d == FIXED) && Moved(d, 13) != FIXED {
      OnlyFixed13(d);
    }
    Double(13);
    Double(26);
    Double(52);
    Double(104);
    Double(208);
    Double(416);
  }

  lemma {:induction false} Double(n: nat)
    requires OnlyFixed(n)
    ensures OnlyFixed(2 * n)
  {
    hide Moved;
    forall d: Word ensures (Moved(d, 2 * n) == ZERO ==> d == ZERO || d == FIXED) && Moved(d, 2 * n) != FIXED {
      OnlyFixedDoubles(n, d);
    }
  }
}
