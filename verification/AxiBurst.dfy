/** Burst addresses of the AXI4 to AXI4-Lite converter (fpga/axi4_axi4lite_conv.v).

    Addresses are 32-bit words, kept as integers below 2^32 with the wrap-around written out.
    The converter's masks are all of the form 2^n - 1, so `x & mask` is `x % (mask + 1)` and
    `(x & ~mask) | (y & mask)` a sum; `MachineWords.NextAddressIsMachine` ties the machine's function to
    `CalculateAddrNext`. */
module AxiBurst {
  import Division
  import opened Words

  type Len = x: int | 0 <= x < 256

  /** The two-bit AxBURST code; 2'b11 is reserved and the converter treats it as INCR. */
  datatype BurstType = Fixed | Incr | Wrap | Reserved

  /** A read or write command. */
  datatype Command = Command(addr: Word, id: int, len: Len, burst: BurstType)

  /** mask + 1 in `calculate_addr_next`. */
  function WrapSize(len: Len): (size: Word)
    ensures size in {4, 8, 16, 32, 64}
  {
    if len == 0 then 4
    else if len == 1 then 8
    else if len == 3 then 16
    else if len == 7 then 32
    else 64
  }

  function CalculateAddrNext(addr: Word, burst: BurstType, len: Len): Word {
    match burst
    case Fixed => addr
    case Wrap =>
      var size := WrapSize(len);
      addr - addr % size + (addr + 4) % WORDS % size
    case _ => (addr + 4) % WORDS
  }

  /** The address the converter holds for beat `k`: `k` applications of `CalculateAddrNext`. */
  function Iterate(start: Word, burst: BurstType, len: Len, k: nat): Word {
    if k == 0 then start else CalculateAddrNext(Iterate(start, burst, len, k - 1), burst, len)
  }

  lemma IterateOnce(start: Word, burst: BurstType, len: Len)
    ensures Iterate(start, burst, len, 0) == start
    ensures Iterate(start, burst, len, 1) == CalculateAddrNext(start, burst, len)
  {
    hide CalculateAddrNext;
  }

  // ---- The AMBA AXI address equations, section A3.4.1, for 4-byte beats ----

  function Aligned(start: Word): Word {
    start - start % 4
  }

  /** Address_N of the standard, with N = k + 1 and k <= len. */
  function AxiAddress(start: Word, burst: BurstType, len: Len, k: nat): int {
    match burst
    case Fixed => start
    case Wrap =>
      var container := 4 * (len + 1);
      var boundary := start / container * container;
      var linear := start + 4 * k;
      if linear < boundary + container then linear else linear - container
    case _ => if k == 0 then start else (Aligned(start) + 4 * k) % WORDS
  }

  /** A WRAP burst has 2, 4, 8 or 16 beats and starts at a multiple of the beat size. */
  predicate LegalBurst(start: Word, burst: BurstType, len: Len) {
    burst == Wrap ==> len in {1, 3, 7, 15} && start % 4 == 0
  }

  // ---- Closed forms of the iteration ----

  lemma {:induction false} FixedClosedForm(start: Word, len: Len, k: nat)
    ensures Iterate(start, Fixed, len, k) == start
  {
    if k > 0 {
      FixedClosedForm(start, len, k - 1);
    }
  }

  lemma RemainderStep(x: int)
    ensures (x % WORDS + 4) % WORDS == (x + 4) % WORDS
  {
  }

  lemma IncrStep(addr: Word, burst: BurstType, len: Len)
    requires burst == Incr || burst == Reserved
    ensures CalculateAddrNext(addr, burst, len) == (addr + 4) % WORDS
  {
  }

  lemma {:induction false} IncrClosedForm(start: Word, burst: BurstType, len: Len, k: nat)
    requires burst == Incr || burst == Reserved
    ensures Iterate(start, burst, len, k) == (start + 4 * k) % WORDS
  {
    if k > 0 {
      hide CalculateAddrNext;
      IncrClosedForm(start, burst, len, k - 1);
      IncrStep(Iterate(start, burst, len, k - 1), burst, len);
      RemainderStep(start + 4 * (k - 1));
    }
  }

  /** Adding a word moves to the next offset of the window, or to the start of the next window. */
  lemma AddWord(addr: int, size: int)
    requires 4 <= size
    ensures (addr + 4) % size == if addr % size + 4 < size then addr % size + 4 else addr % size + 4 - size
  {
    var q, r := addr / size, addr % size;
    assert addr == q * size + r;
    if r + 4 < size {
      Division.Unique(addr + 4, q, r + 4, size);
    } else {
      assert (q + 1) * size == q * size + size;
      Division.Unique(addr + 4, q + 1, r + 4 - size, size);
    }
  }

  /** The windows of every size tile the address space, so the wrap at 2^32 is also the end of a window. */
  lemma NextOffset(addr: Word, size: int)
    requires size in {4, 8, 16, 32, 64}
    ensures (addr + 4) % WORDS % size == if addr % size + 4 < size then addr % size + 4 else addr % size + 4 - size
  {
    if addr + 4 < WORDS {
      AddWord(addr, size);
    } else {
      LastWindow(addr, size);
      Division.Unique((addr + 4) % WORDS, 0, (addr + 4) % WORDS, size);
    }
  }

  lemma LastWindow(addr: Word, size: int)
    requires size in {4, 8, 16, 32, 64} && WORDS <= addr + 4
    ensures addr % size + 4 - size == (addr + 4) % WORDS
  {
  }

  lemma WrapStep(addr: Word, len: Len)
    ensures var size := WrapSize(len); var next := CalculateAddrNext(addr, Wrap, len);
            && next / size == addr / size
            && next % size == if addr % size + 4 < size then addr % size + 4 else addr % size + 4 - size
  {
    var size := WrapSize(len);
    NextOffset(addr, size);
    assert addr == addr / size * size + addr % size;
    Division.Unique(CalculateAddrNext(addr, Wrap, len), addr / size, (addr + 4) % WORDS % size, size);
  }

  /** For any start address, any len and any number of steps, iterating WRAP walks round its aligned
      window. */
  lemma {:induction false} WrapClosedForm(start: Word, len: Len, k: nat)
    ensures var size := WrapSize(len); var addr := Iterate(start, Wrap, len, k);
            addr / size == start / size && addr % size == (start % size + 4 * k) % size
  {
    hide CalculateAddrNext, WrapSize;
    var size := WrapSize(len);
    if k == 0 {
      Division.Unique(start % size, 0, start % size, size);
    } else {
      WrapClosedForm(start, len, k - 1);
      WrapStep(Iterate(start, Wrap, len, k - 1), len);
      AddWord(start % size + 4 * (k - 1), size);
    }
  }

  /** Within one turn the offset wraps at most once. */
  lemma WrapFirstTurn(start: Word, len: Len, k: nat)
    requires 4 * k <= WrapSize(len)
    ensures var size := WrapSize(len); var offset := start % size + 4 * k; var addr := Iterate(start, Wrap, len, k);
            addr / size == start / size && addr % size == if offset < size then offset else offset - size
  {
    hide Iterate, WrapSize;
    var size := WrapSize(len);
    var offset := start % size + 4 * k;
    WrapClosedForm(start, len, k);
    if offset < size {
      Division.Unique(offset, 0, offset, size);
    } else {
      Division.Unique(offset, 1, offset - size, size);
    }
  }

  lemma WrapMatchesAxi(start: Word, len: Len, k: nat)
    requires len in {1, 3, 7, 15} && start % 4 == 0 && k <= len
    ensures Iterate(start, Wrap, len, k) == AxiAddress(start, Wrap, len, k)
  {
    var size := WrapSize(len);
    assert size == 4 * (len + 1);
    WrapFirstTurn(start, len, k);
    var addr := Iterate(start, Wrap, len, k);
    assert addr == addr / size * size + addr % size;
    assert start == start / size * size + start % size;
  }

  lemma IncrMatchesAxi(start: Word, burst: BurstType, len: Len, k: nat)
    requires burst in {Incr, Reserved}
    ensures Iterate(start, burst, len, k) == AxiAddress(start, burst, len, k) <==> k == 0 || start % 4 == 0
  {
    IncrClosedForm(start, burst, len, k);
    if k > 0 {
      DistinctRemainders(Aligned(start) + 4 * k, start % 4);
    }
  }

  lemma DistinctRemainders(x: int, d: int)
    requires 0 <= d < 4
    ensures (x + d) % WORDS == x % WORDS <==> d == 0
  {
  }

  /** The converter follows the address structure of section A3.4.1 on every legal burst, except that
      an unaligned incrementing burst keeps its misalignment after the first beat. */
  lemma AxiConformance(start: Word, burst: BurstType, len: Len)
    requires LegalBurst(start, burst, len)
    ensures (forall k: nat | k <= len :: Iterate(start, burst, len, k) == AxiAddress(start, burst, len, k))
            <==> burst in {Fixed, Wrap} || len == 0 || start % 4 == 0
  {
    forall k: nat | k <= len
      ensures Iterate(start, burst, len, k) == AxiAddress(start, burst, len, k)
              <==> burst in {Fixed, Wrap} || k == 0 || start % 4 == 0
    {
      if burst == Fixed {
        FixedClosedForm(start, len, k);
      } else if burst == Wrap {
        WrapMatchesAxi(start, len, k);
      } else {
        IncrMatchesAxi(start, burst, len, k);
      }
    }
    if len > 0 {
      var one: nat := 1;
      assert Iterate(start, burst, len, one) == AxiAddress(start, burst, len, one)
             <==> burst in {Fixed, Wrap} || start % 4 == 0;
    }
  }

  lemma OffsetIsAligned(addr: Word, words: int, size: int)
    requires words > 0 && size == 4 * words && addr % 4 == 0
    ensures addr % size % 4 == 0
  {
    var q, r := addr / size, addr % size;
    assert addr == q * size + r == (q * words) * 4 + r;
    Division.Unique(addr, q * words + r / 4, r % 4, 4);
  }

  /** How far round its window a WRAP burst has to go to reach byte `offset` of it. */
  function Distance(start: Word, len: Len, offset: nat): int {
    var d := offset - start % WrapSize(len);
    if d >= 0 then d else d + WrapSize(len)
  }

  /** Beat `j` of a WRAP burst is at byte `offset` of the window exactly when `j` is the distance to it. */
  lemma WrapBeatAt(start: Word, len: Len, offset: nat, j: nat)
    requires len in {0, 1, 3, 7, 15} && start % 4 == 0 && j <= len
    requires offset < WrapSize(len) && offset % 4 == 0
    ensures Iterate(start, Wrap, len, j) % WrapSize(len) == offset <==> 4 * j == Distance(start, len, offset)
    ensures Iterate(start, Wrap, len, j) / WrapSize(len) == start / WrapSize(len)
  {
    WrapFirstTurn(start, len, j);
  }

  lemma DifferenceIsWholeBeats(from: nat, to: nat, size: int, len: Len)
    requires from % 4 == 0 && to % 4 == 0 && from < size && to < size && size == 4 * (len + 1)
    ensures var d := if to >= from then to - from else to - from + size; d % 4 == 0 && 0 <= d <= 4 * len
  {
  }

  lemma DistanceIsWholeBeats(start: Word, len: Len, word: Word)
    requires len in {0, 1, 3, 7, 15} && start % 4 == 0 && word % 4 == 0
    ensures var offset := word % WrapSize(len);
            offset % 4 == 0 && Distance(start, len, offset) % 4 == 0 && 0 <= Distance(start, len, offset) <= 4 * len
  {
    var size: int := WrapSize(len);
    assert size == 4 * (len + 1);
    hide WrapSize;
    OffsetIsAligned(start, len + 1, size);
    OffsetIsAligned(word, len + 1, size);
    DifferenceIsWholeBeats(start % size, word % size, size, len);
  }

  /** A full WRAP burst visits every word of its aligned window, each on exactly one beat. */
  lemma WrapVisitsEachWordOnce(start: Word, len: Len, word: Word) returns (k: nat)
    requires len in {0, 1, 3, 7, 15} && start % 4 == 0
    requires word % 4 == 0 && word / WrapSize(len) == start / WrapSize(len)
    ensures k <= len && Iterate(start, Wrap, len, k) == word
    ensures forall j: nat | j <= len && j != k :: Iterate(start, Wrap, len, j) != word
  {
    hide Iterate, Distance;
    DistanceIsWholeBeats(start, len, word);
    var offset := word % WrapSize(len);
    k := Distance(start, len, offset) / 4;
    forall j: nat | j <= len
      ensures Iterate(start, Wrap, len, j) == word <==> j == k
    {
      WrapBeatAt(start, len, offset, j);
      SameWord(Iterate(start, Wrap, len, j), word, WrapSize(len));
    }
  }

  lemma SameWord(a: Word, b: Word, size: int)
    requires size > 0 && a / size == b / size
    ensures a == b <==> a % size == b % size
  {
    assert a == a / size * size + a % size && b == b / size * size + b % size;
  }
}
