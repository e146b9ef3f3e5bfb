/** 32-bit words as bits. The operators are named so that proofs can reason about single bits. */
module Bits {

  type Index = b: bv6 | b < 32

  predicate Bit(x: bv32, b: Index) { (x >> b) & 1 == 1 }

  /** A byte has no bits from 8 on. */
  predicate ByteBit(x: bv8, b: Index) { b < 8 && (x >> b) & 1 == 1 }

  function Or(x: bv32, y: bv32): bv32 { x | y }

  function And(x: bv32, y: bv32): bv32 { x & y }

  function Xor(x: bv32, y: bv32): bv32 { x ^ y }

  function Not(x: bv32): bv32 { !x }

  lemma BitOfOr(x: bv32, y: bv32, b: Index)
    ensures Bit(Or(x, y), b) <==> Bit(x, b) || Bit(y, b)
  {
  }

  lemma BitOfAnd(x: bv32, y: bv32, b: Index)
    ensures Bit(And(x, y), b) <==> Bit(x, b) && Bit(y, b)
  {
  }

  lemma BitOfXor(x: bv32, y: bv32, b: Index)
    ensures Bit(Xor(x, y), b) <==> Bit(x, b) != Bit(y, b)
  {
    assert (x ^ y) >> b == (x >> b) ^ (y >> b);
  }

  lemma BitOfNot(x: bv32, b: Index)
    ensures Bit(Not(x), b) <==> !Bit(x, b)
  {
  }

  lemma BitOfZero(b: Index)
    ensures !Bit(0, b)
  {
  }

  lemma SomeBit(x: bv32)
    ensures x != 0 <==> exists b: Index :: Bit(x, b)
  {
    if x != 0 && !exists b: Index :: Bit(x, b) {
      assert !Bit(x, 0) && !Bit(x, 1) && !Bit(x, 2) && !Bit(x, 3) && !Bit(x, 4) && !Bit(x, 5) && !Bit(x, 6) && !Bit(x, 7);
      assert !Bit(x, 8) && !Bit(x, 9) && !Bit(x, 10) && !Bit(x, 11) && !Bit(x, 12) && !Bit(x, 13) && !Bit(x, 14) && !Bit(x, 15);
      assert !Bit(x, 16) && !Bit(x, 17) && !Bit(x, 18) && !Bit(x, 19) && !Bit(x, 20) && !Bit(x, 21) && !Bit(x, 22) && !Bit(x, 23);
      assert !Bit(x, 24) && !Bit(x, 25) && !Bit(x, 26) && !Bit(x, 27) && !Bit(x, 28) && !Bit(x, 29) && !Bit(x, 30) && !Bit(x, 31);
    }
  }

  lemma SomeCommonBit(x: bv32, y: bv32)
    ensures And(x, y) != 0 <==> exists b: Index :: Bit(x, b) && Bit(y, b)
  {
    hide Bit, And;
    SomeBit(And(x, y));
    forall b: Index
      ensures Bit(And(x, y), b) <==> Bit(x, b) && Bit(y, b)
    {
      BitOfAnd(x, y, b);
    }
  }
}
