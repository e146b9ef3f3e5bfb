/** The xorshift generator (fw/pano_ldr/rand.c) on 32-bit words. */
module Xorshift {
  import opened Bits
  import opened Words
  import Pigeonhole

  // The operations have names so that proofs can use their algebra instead of their bits.
  function Shl5(x: bv32): bv32 { x << 5 }
  function Shl10(x: bv32): bv32 { x << 10 }
  function Shl20(x: bv32): bv32 { x << 20 }
  function Shl13(x: bv32): bv32 { x << 13 }
  function Shl26(x: bv32): bv32 { x << 26 }
  function Shr17(x: bv32): bv32 { x >> 17 }

  function Left13(x: bv32): bv32 { Xor(x, Shl13(x)) }
  function Right17(x: bv32): bv32 { Xor(x, Shr17(x)) }
  function Left5(x: bv32): bv32 { Xor(x, Shl5(x)) }

  /** The new seed, which is also the number returned. */
  function NextSeed(x: bv32): bv32 { Left5(Right17(Left13(x))) }

  /** Each step is undone by repeating it. */
  function PreviousSeed(x: bv32): bv32 { Undo13(Right17(Undo5(x))) }

  function Undo13(x: bv32): bv32 { Left13(Left13(Left13(x))) }

  function Undo5(x: bv32): bv32 { Left5(Left5(Left5(Left5(Left5(Left5(Left5(x))))))) }

  // ---- What each step does to the bits ----

  lemma Shl13Bits(x: bv32, b: Index)
    ensures Bit(Shl13(x), b) <==> b >= 13 && Bit(x, b - 13)
  {
  }

  lemma Shr17Bits(x: bv32, b: Index)
    ensures Bit(Shr17(x), b) <==> b < 15 && Bit(x, b + 17)
  {
  }

  lemma Shl5Bits(x: bv32, b: Index)
    ensures Bit(Shl5(x), b) <==> b >= 5 && Bit(x, b - 5)
  {
  }

  lemma StepBits(x: bv32, b: Index)
    ensures Bit(Left13(x), b) <==> Bit(x, b) != (b >= 13 && Bit(x, b - 13))
    ensures Bit(Right17(x), b) <==> Bit(x, b) != (b < 15 && Bit(x, b + 17))
    ensures Bit(Left5(x), b) <==> Bit(x, b) != (b >= 5 && Bit(x, b - 5))
  {
    hide Bit, Xor, Shl13, Shr17, Shl5;
    Shl13Bits(x, b);
    BitOfXor(x, Shl13(x), b);
    Shr17Bits(x, b);
    BitOfXor(x, Shr17(x), b);
    Shl5Bits(x, b);
    BitOfXor(x, Shl5(x), b);
  }

  /** Bit `b` after the first step: added to the bit 13 places below. */
  predicate FirstBit(x: bv32, b: Index) { Bit(x, b) != (b >= 13 && Bit(x, b - 13)) }

  /** Bit `b` after the second step: added to the bit 17 places above. */
  predicate SecondBit(x: bv32, b: Index) { FirstBit(x, b) != (b < 15 && FirstBit(x, b + 17)) }

  lemma FirstBits(x: bv32, b: Index)
    ensures Bit(Left13(x), b) == FirstBit(x, b)
  {
    hide Bit, Left13;
    StepBits(x, b);
  }

  lemma SecondBits(x: bv32, b: Index)
    ensures Bit(Right17(Left13(x)), b) == SecondBit(x, b)
  {
    hide Bit, Left13, Right17, FirstBit;
    StepBits(Left13(x), b);
    FirstBits(x, b);
    if b < 15 {
      FirstBits(x, b + 17);
    }
  }

  /** Main result: the state map bit by bit: the third step adds the bit 5 places below. */
  lemma NextSeedBits(x: bv32, b: Index)
    ensures Bit(NextSeed(x), b) <==> SecondBit(x, b) != (b >= 5 && SecondBit(x, b - 5))
  {
    hide Bit, Left13, Right17, Left5, SecondBit;
    StepBits(Right17(Left13(x)), b);
    SecondBits(x, b);
    if b >= 5 {
      SecondBits(x, b - 5);
    }
  }

  // ---- Algebra ----

  lemma Cancel(a: bv32, b: bv32, c: bv32)
    ensures Xor(Xor(a, b), Xor(b, c)) == Xor(a, c) && Xor(a, 0) == a
  {
  }

  lemma ShiftsBy5Distribute(a: bv32, b: bv32)
    ensures Shl5(Xor(a, b)) == Xor(Shl5(a), Shl5(b))
  {
  }

  lemma ShiftsBy10Distribute(a: bv32, b: bv32)
    ensures Shl10(Xor(a, b)) == Xor(Shl10(a), Shl10(b))
  {
  }

  lemma ShiftsBy20Distribute(a: bv32, b: bv32)
    ensures Shl20(Xor(a, b)) == Xor(Shl20(a), Shl20(b))
  {
  }

  lemma ShiftsBy13Distribute(a: bv32, b: bv32)
    ensures Shl13(Xor(a, b)) == Xor(Shl13(a), Shl13(b))
  {
  }

  lemma ShiftsBy26Distribute(a: bv32, b: bv32)
    ensures Shl26(Xor(a, b)) == Xor(Shl26(a), Shl26(b))
  {
  }

  lemma ShiftsBy17Distribute(a: bv32, b: bv32)
    ensures Shr17(Xor(a, b)) == Xor(Shr17(a), Shr17(b))
  {
  }

  lemma ShiftsDouble(a: bv32)
    ensures Shl5(Shl5(a)) == Shl10(a) && Shl10(Shl10(a)) == Shl20(a) && Shl20(Shl20(a)) == 0
    ensures Shl13(Shl13(a)) == Shl26(a) && Shl26(Shl26(a)) == 0 && Shr17(Shr17(a)) == 0
  {
  }

  /** Applying a step twice doubles its shift, until nothing is left of it. */
  lemma Right17Twice(x: bv32)
    ensures Right17(Right17(x)) == x
  {
    hide Xor, Shr17;
    ShiftsBy17Distribute(x, Shr17(x));
    ShiftsDouble(x);
    Cancel(x, Shr17(x), 0);
  }

  lemma Left13FourTimes(x: bv32)
    ensures Left13(Left13(Left13(Left13(x)))) == x
  {
    hide Xor, Shl13, Shl26;
    var y := Left13(Left13(x));
    Left13Twice(x);
    Left13Twice(y);
    ShiftsBy26Distribute(x, Shl26(x));
    ShiftsDouble(x);
    Cancel(x, Shl26(x), 0);
  }

  lemma Left13Twice(x: bv32)
    ensures Left13(Left13(x)) == Xor(x, Shl26(x))
  {
    hide Xor, Shl13, Shl26;
    ShiftsBy13Distribute(x, Shl13(x));
    ShiftsDouble(x);
    Cancel(x, Shl13(x), Shl26(x));
  }

  lemma Left5Twice(x: bv32)
    ensures Left5(Left5(x)) == Xor(x, Shl10(x))
  {
    hide Xor, Shl5, Shl10;
    ShiftsBy5Distribute(x, Shl5(x));
    ShiftsDouble(x);
    Cancel(x, Shl5(x), Shl10(x));
  }

  lemma Left5FourTimes(x: bv32)
    ensures Left5(Left5(Left5(Left5(x)))) == Xor(x, Shl20(x))
  {
    hide Xor, Shl5, Shl10, Shl20;
    Left5Twice(x);
    Left5Twice(Left5(Left5(x)));
    ShiftsBy10Distribute(x, Shl10(x));
    ShiftsDouble(x);
    Cancel(x, Shl10(x), Shl20(x));
  }

  lemma Left5EightTimes(x: bv32)
    ensures Left5(Undo5(x)) == x && Undo5(Left5(x)) == x
  {
    hide Xor, Shl5, Shl10, Shl20, Left5;
    Left5FourTimes(x);
    Left5FourTimes(Left5(Left5(Left5(Left5(x)))));
    ShiftsBy20Distribute(x, Shl20(x));
    ShiftsDouble(x);
    Cancel(x, Shl20(x), 0);
  }

  lemma ZeroStays()
    ensures NextSeed(0) == 0
  {
  }

  /** Main result: the state map is a bijection on 32-bit words, and zero is its only way to zero. */
  lemma NextSeedIsBijection(x: bv32)
    ensures PreviousSeed(NextSeed(x)) == x && NextSeed(PreviousSeed(x)) == x
    ensures NextSeed(x) == 0 <==> x == 0
  {
    PreviousUndoesNext(x);
    NextUndoesPrevious(x);
    PreviousUndoesNext(0);
    ZeroStays();
    hide NextSeed, PreviousSeed;
  }

  lemma PreviousUndoesNext(x: bv32)
    ensures PreviousSeed(NextSeed(x)) == x
  {
    hide Left13, Right17, Left5, Undo5;
    Left5EightTimes(Right17(Left13(x)));
    Right17Twice(Left13(x));
    Left13FourTimes(x);
  }

  lemma NextUndoesPrevious(x: bv32)
    ensures NextSeed(PreviousSeed(x)) == x
  {
    hide Left13, Right17, Left5, Undo5;
    Left13FourTimes(Right17(Undo5(x)));
    Right17Twice(Undo5(x));
    Left5EightTimes(x);
  }

  // ---- The sequence from a seed ----

  function Iterate(seed: bv32, n: nat): bv32 {
    if n == 0 then seed else NextSeed(Iterate(seed, n - 1))
  }

  lemma {:induction false} NeverZero(seed: bv32, n: nat)
    requires seed != 0
    ensures Iterate(seed, n) != 0
  {
    if n > 0 {
      hide NextSeed;
      NeverZero(seed, n - 1);
      NextSeedIsBijection(Iterate(seed, n - 1));
    }
  }

  /** Two equal members of the sequence lie as far apart as the seed and its first return. */
  lemma {:induction false} RepeatsFromSeed(seed: bv32, i: nat, j: nat)
    requires i <= j && Iterate(seed, i) == Iterate(seed, j)
    ensures Iterate(seed, j - i) == seed
  {
    if i > 0 {
      hide NextSeed, PreviousSeed;
      NextSeedIsBijection(Iterate(seed, i - 1));
      NextSeedIsBijection(Iterate(seed, j - 1));
      RepeatsFromSeed(seed, i - 1, j - 1);
    }
  }

  // ---- Periodicity ----

  /** A number for each word, to count words by. */
  function Rank(x: bv32): int { x as int }

  lemma RankRange(x: bv32)
    ensures 0 <= Rank(x) < WORDS
    ensures Rank(x) == 0 <==> x == 0
  {
  }

  lemma RankInjective(x: bv32, y: bv32)
    requires Rank(x) == Rank(y)
    ensures x == y
  {
    RankRange(x);
    WordRoundTrip(x);
    WordRoundTrip(y);
  }

  lemma WordRoundTrip(x: bv32)
    requires 0 <= x as int < WORDS
    ensures (x as int) as bv32 == x
  {
  }

  /** Main result: from any nonzero seed every output is nonzero, and the sequence returns to the seed itself
      within 2^32 - 1 steps: there is no tail before the cycle. */
  lemma PurelyPeriodic(seed: bv32) returns (period: nat)
    requires seed != 0
    ensures 1 <= period <= WORDS - 1
    ensures forall n: nat :: Iterate(seed, n + period) == Iterate(seed, n) != 0
  {
    hide NextSeed, Rank;
    var s := seq(WORDS, k requires 0 <= k < WORDS => Rank(Iterate(seed, k)));
    forall k | 0 <= k < |s|
      ensures 1 <= s[k] <= WORDS - 1
    {
      NeverZero(seed, k);
      RankRange(Iterate(seed, k));
    }
    var i, j := Pigeonhole.RepeatWithin(s, WORDS - 1);
    RankInjective(Iterate(seed, i), Iterate(seed, j));
    RepeatsFromSeed(seed, i, j);
    period := j - i;
    forall n: nat
      ensures Iterate(seed, n + period) == Iterate(seed, n) != 0
    {
      Shift(seed, period, n);
      NeverZero(seed, n);
    }
  }

  lemma {:induction false} Shift(seed: bv32, period: nat, n: nat)
    requires Iterate(seed, period) == seed
    ensures Iterate(seed, n + period) == Iterate(seed, n)
  {
    if n > 0 {
      hide NextSeed;
      Shift(seed, period, n - 1);
    }
  }

  /** The first numbers from the seed 1 that the generator starts with. */
  lemma FirstNumbers()
    ensures Iterate(1, 1) == 270369 && Iterate(1, 2) == 67634689 && Iterate(1, 3) == 0x9DCC_A8C5
  {
    assert NextSeed(1) == 270369;
    assert NextSeed(270369) == 67634689;
    assert NextSeed(67634689) == 0x9DCC_A8C5;
  }

  // ---- The generator, with its static seed ----

  class Generator {
    var y: bv32

    constructor ()
      ensures y == 1
    {
      y := 1;
    }

    method Srand(seed: bv32)
      modifies this
      ensures y == seed
    {
      y := seed;
    }

    method Rand() returns (r: bv32)
      modifies this
      ensures y == r == NextSeed(old(y))
    {
      hide Left13, Right17, Left5;
      y := Left13(y);
      y := Right17(y);
      y := Left5(y);
      r := y;
    }
  }
}
