/** The numbers that 32-bit machine words stand for, digit by digit, and the machine form of
    `calculate_addr_next` (fpga/axi4_axi4lite_conv.v:93-122). */
module MachineWords {
  import opened Words
  import opened AxiBurst
  import Division

  // The operations have names so that proofs can use these facts instead of their bits.
  function Half(w: bv32): bv32 { w >> 1 }
  function Inc(w: bv32): bv32 { w + 1 }
  predicate Odd(w: bv32) { w & 1 == 1 }

  function Power(n: nat): (p: nat)
    ensures p > 0
  {
    if n == 0 then 1 else 2 * Power(n - 1)
  }

  /** The number whose binary digits are the lowest `n` bits. */
  function Digits(w: bv32, n: nat): (d: nat)
    ensures d < Power(n)
    decreases n
  {
    if n == 0 then 0 else 2 * Digits(Half(w), n - 1) + if Odd(w) then 1 else 0
  }

  lemma DigitsStep(w: bv32, n: nat)
    ensures Digits(w, n) == if n == 0 then 0 else 2 * Digits(Half(w), n - 1) + if Odd(w) then 1 else 0
  {
  }

  lemma PowerStep(n: nat)
    ensures Power(n) == if n == 0 then 1 else 2 * Power(n - 1)
  {
  }

  lemma Power32()
    ensures Power(32) == WORDS
  {
    assert Power(8) == 0x100 && Power(16) == 0x1_0000 && Power(24) == 0x100_0000;
  }

  function Number(w: bv32): Word {
    Power32();
    Digits(w, 32)
  }

  // ---- Counting ----

  lemma IncEven(w: bv32)
    requires !Odd(w)
    ensures Half(Inc(w)) == Half(w) && Odd(Inc(w))
  {
  }

  lemma IncOdd(w: bv32)
    requires Odd(w) && w != 0xFFFF_FFFF
    ensures Half(Inc(w)) == Inc(Half(w)) && !Odd(Inc(w))
  {
  }

  lemma HalfIsNotLargest(w: bv32)
    ensures Half(w) != 0xFFFF_FFFF
  {
  }

  lemma {:induction false} IncDigits(w: bv32, n: nat)
    requires w != 0xFFFF_FFFF
    ensures Digits(Inc(w), n) == if Digits(w, n) + 1 < Power(n) then Digits(w, n) + 1 else 0
    decreases n
  {
    hide Half, Inc, Odd;
    if n > 0 {
      if Odd(w) {
        IncOdd(w);
        HalfIsNotLargest(w);
        IncDigits(Half(w), n - 1);
      } else {
        IncEven(w);
      }
    }
  }

  lemma {:induction false} ZeroDigits(n: nat)
    ensures Digits(0, n) == 0
  {
    if n > 0 {
      ZeroDigits(n - 1);
    }
  }

  lemma Largest()
    ensures Digits(0xFFFF_FFFF, 32) == 0xFFFF_FFFF
  {
    hide Power;
    assert Digits(0x3, 2) == 0x3 && Digits(0xF, 4) == 0xF && Digits(0x3F, 6) == 0x3F && Digits(0xFF, 8) == 0xFF;
    assert Digits(0x3FF, 10) == 0x3FF && Digits(0xFFF, 12) == 0xFFF && Digits(0x3FFF, 14) == 0x3FFF;
    assert Digits(0xFFFF, 16) == 0xFFFF && Digits(0x3_FFFF, 18) == 0x3_FFFF && Digits(0xF_FFFF, 20) == 0xF_FFFF;
    assert Digits(0x3F_FFFF, 22) == 0x3F_FFFF && Digits(0xFF_FFFF, 24) == 0xFF_FFFF;
    assert Digits(0x3FF_FFFF, 26) == 0x3FF_FFFF && Digits(0xFFF_FFFF, 28) == 0xFFF_FFFF;
    assert Digits(0x3FFF_FFFF, 30) == 0x3FFF_FFFF;
  }

  lemma AddOne(w: bv32)
    ensures Number(Inc(w)) == (Number(w) + 1) % WORDS
  {
    hide Digits, Power;
    Power32();
    if w == 0xFFFF_FFFF {
      assert Inc(w) == 0;
      ZeroDigits(32);
      Largest();
    } else {
      hide Inc;
      IncDigits(w, 32);
    }
  }

  lemma AddFour(w: bv32)
    ensures Number(w + 4) == (Number(w) + 4) % WORDS
  {
    hide Number;
    assert w + 4 == Inc(Inc(Inc(Inc(w))));
    AddOne(w);
    AddOne(Inc(w));
    AddOne(Inc(Inc(w)));
    AddOne(Inc(Inc(Inc(w))));
  }

  // ---- Masks ----

  function Clear(a: bv32, mask: bv32): bv32 { a & !mask }
  function Keep(b: bv32, mask: bv32): bv32 { b & mask }
  function Join(a: bv32, b: bv32): bv32 { a | b }

  function Splice(a: bv32, b: bv32, mask: bv32): bv32 { Join(Clear(a, mask), Keep(b, mask)) }

  lemma ClearHalves(a: bv32, mask: bv32)
    ensures Half(Clear(a, mask)) == Clear(Half(a), Half(mask))
  {
  }

  lemma KeepHalves(b: bv32, mask: bv32)
    ensures Half(Keep(b, mask)) == Keep(Half(b), Half(mask))
  {
  }

  lemma JoinHalves(a: bv32, b: bv32)
    ensures Half(Join(a, b)) == Join(Half(a), Half(b))
  {
  }

  lemma SpliceHalves(a: bv32, b: bv32, mask: bv32)
    ensures Half(Splice(a, b, mask)) == Splice(Half(a), Half(b), Half(mask))
  {
    hide Half, Clear, Keep, Join;
    ClearHalves(a, mask);
    KeepHalves(b, mask);
    JoinHalves(Clear(a, mask), Keep(b, mask));
  }

  lemma SpliceLowest(a: bv32, b: bv32, mask: bv32)
    requires Odd(mask)
    ensures Odd(Splice(a, b, mask)) <==> Odd(b)
  {
  }

  lemma SpliceNone(a: bv32, b: bv32)
    ensures Splice(a, b, Ones(0)) == a
  {
  }

  /** A mask of ones below bit `k`. */
  function Ones(k: nat): bv32
    requires k <= 6
  {
    if k == 0 then 0 else if k == 1 then 1 else if k == 2 then 3 else if k == 3 then 7
    else if k == 4 then 0xF else if k == 5 then 0x1F else 0x3F
  }

  lemma OnesHalves(k: nat)
    requires 1 <= k <= 6
    ensures Odd(Ones(k)) && Half(Ones(k)) == Ones(k - 1)
  {
  }

  /** Splicing at bit `k` takes the lowest `k` digits from the one word and the rest from the other. */
  lemma {:induction false} SpliceDigits(a: bv32, b: bv32, k: nat, n: nat)
    requires k <= 6 && k <= n
    ensures Digits(Splice(a, b, Ones(k)), n) == Digits(a, n) - Digits(a, k) + Digits(b, k)
    decreases n
  {
    hide Half, Odd, Splice, Ones, Power;
    DigitsStep(Splice(a, b, Ones(k)), n);
    DigitsStep(a, n);
    DigitsStep(a, k);
    DigitsStep(b, k);
    hide Digits;
    if k == 0 {
      SpliceNone(a, b);
    } else {
      OnesHalves(k);
      SpliceHalves(a, b, Ones(k));
      SpliceLowest(a, b, Ones(k));
      SpliceDigits(Half(a), Half(b), k - 1, n - 1);
    }
  }

  lemma DoubleRemainder(x: int, b: int, s: int)
    requires 0 <= b < 2 && s > 0
    ensures (2 * x + b) % (2 * s) == 2 * (x % s) + b
  {
    assert x == x / s * s + x % s;
    assert 2 * x + b == (x / s) * (2 * s) + (2 * (x % s) + b);
    Division.Unique(2 * x + b, x / s, 2 * (x % s) + b, 2 * s);
  }

  /** The lowest digits are a remainder. */
  lemma {:induction false} LowestDigits(w: bv32, k: nat, n: nat)
    requires k <= n
    ensures Digits(w, n) % Power(k) == Digits(w, k)
    decreases n
  {
    hide Half, Odd, Power;
    PowerStep(n);
    PowerStep(k);
    if k > 0 {
      LowestDigits(Half(w), k - 1, n - 1);
      DoubleRemainder(Digits(Half(w), n - 1), if Odd(w) then 1 else 0, Power(k - 1));
    }
  }

  // ---- calculate_addr_next as written ----

  function Mask(len: Len): bv32 {
    if len == 0 then 0x03 else if len == 1 then 0x07 else if len == 3 then 0x0F else if len == 7 then 0x1F else 0x3F
  }

  function NextAddress(addr: bv32, burst: BurstType, len: Len): bv32 {
    match burst
    case Fixed => addr
    case Wrap => (addr & !Mask(len)) | ((addr + 4) & Mask(len))
    case _ => addr + 4
  }

  lemma MaskOnes(len: Len) returns (k: nat)
    ensures k <= 6 && Ones(k) == Mask(len) && Power(k) == WrapSize(len)
  {
    k := if len == 0 then 2 else if len == 1 then 3 else if len == 3 then 4 else if len == 7 then 5 else 6;
    assert Power(4) == 16;
  }

  lemma SpliceIsCode(addr: bv32, len: Len)
    ensures NextAddress(addr, Wrap, len) == Splice(addr, addr + 4, Mask(len))
  {
  }

  lemma WrapIsMachine(addr: bv32, next: bv32, len: Len)
    ensures var size := WrapSize(len);
            Number(Splice(addr, next, Mask(len))) == Number(addr) - Number(addr) % size + Number(next) % size
  {
    hide Digits, Splice, Ones, Power, Mask, WrapSize;
    var k := MaskOnes(len);
    SpliceDigits(addr, next, k, 32);
    LowestDigits(addr, k, 32);
    LowestDigits(next, k, 32);
  }

  /** Main result: the arithmetic used in `AxiBurst` is the machine's, bit for bit. */
  lemma NextAddressIsMachine(addr: bv32, burst: BurstType, len: Len)
    ensures Number(NextAddress(addr, burst, len)) == CalculateAddrNext(Number(addr), burst, len)
  {
    hide Number, Splice, Mask, WrapSize;
    AddFour(addr);
    if burst == Wrap {
      SpliceIsCode(addr, len);
      WrapIsMachine(addr, addr + 4, len);
    }
  }
}
