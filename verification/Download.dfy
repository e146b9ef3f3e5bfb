/** What flashing does to the flash (fw/pano_ldr/tftp_ldr.c:106-191), over a whole transfer. */
module Download {
  import Bits
  import opened NorFlash
  import opened Words
  import opened TftpLoader

  /** The device is well formed: whole blocks, and every address below the invalid one. */
  predicate Geometry(size: nat, eraseSize: nat) {
    eraseSize > 0 && size <= INVALID_FLASH_ADR && BlockOf(size, eraseSize) == size
  }

  /** One past the last block touched by bytes adr .. adr + n - 1. */
  function TouchedEnd(adr: nat, n: nat, eraseSize: nat): int
    requires eraseSize > 0
  {
    if n == 0 then BlockOf(adr, eraseSize) else BlockOf(adr + n - 1, eraseSize) + eraseSize
  }

  /** The contents a download is to leave: the file in place, the rest of the touched blocks blank, and
      everything else as it was. */
  function Image(mem: seq<Byte>, adr: nat, data: seq<Byte>, eraseSize: nat): (r: seq<Byte>)
    requires eraseSize > 0
    ensures |r| == |mem|
  {
    seq(|mem|, i requires 0 <= i < |mem| =>
        if adr <= i < adr + |data| then data[i - adr]
        else if BlockOf(adr, eraseSize) <= i < TouchedEnd(adr, |data|, eraseSize) then BLANK
        else mem[i])
  }

  /** The first payload with any data in it. */
  function FirstPayload(payloads: seq<seq<Byte>>): seq<Byte> {
    if payloads == [] then []
    else
      var first := FirstPayload(payloads[..|payloads| - 1]);
      if first == [] then payloads[|payloads| - 1] else first
  }

  predicate StaysInBlock(adr: nat, len: nat, eraseSize: nat)
    requires eraseSize > 0
  {
    adr % eraseSize + len <= eraseSize
  }

  /** Payloads of at most one block. */
  predicate Small(payloads: seq<seq<Byte>>, eraseSize: nat) {
    forall k | 0 <= k < |payloads| :: |payloads[k]| <= eraseSize
  }

  /** A flash transfer with autoerase that starts from address `adr` of contents `mem`. */
  function Flashing(autoErase: bool, mem: seq<Byte>, adr: nat): State {
    State(Started(ToFlash, autoErase, adr, 1024, 0), Device(mem, []))
  }

  function Flashed(autoErase: bool, mem: seq<Byte>, adr: nat, payloads: seq<seq<Byte>>, eraseSize: nat): State
    requires eraseSize > 0 && adr + |Flat(payloads)| <= |mem|
  {
    Feed(Flashing(autoErase, mem, adr), payloads, eraseSize)
  }

  // ---- Autoerase: the invariant ----

  /** After `data` has been flashed, the flash is the image of it, and LastEraseAdr is the block of the
      last byte, or still invalid. */
  ghost predicate Inv(s: State, mem: seq<Byte>, adr: nat, data: seq<Byte>, eraseSize: nat)
    requires eraseSize > 0
  {
    && s.t.kind == ToFlash && s.t.autoErase && s.t.error == InProgress
    && s.t.flashAdr == adr && s.t.bytesTransfered == |data|
    && s.t.lastEraseAdr == (if data == [] then INVALID_FLASH_ADR else BlockOf(adr + |data| - 1, eraseSize))
    && s.dev.mem == Image(mem, adr, data, eraseSize)
  }

  lemma StaysMeans(adr: nat, len: nat, eraseSize: nat)
    requires eraseSize > 0
    ensures StaysInBlock(adr, len, eraseSize) <==> adr + len <= BlockOf(adr, eraseSize) + eraseSize
  {
  }

  /** Where the erase of the next payload goes: to the block of its first byte if nothing was erased yet,
      else to the next block, and only if the payload ends outside the blocks erased so far. */
  lemma NextErase(s: State, mem: seq<Byte>, adr: nat, data: seq<Byte>, p: seq<Byte>, eraseSize: nat)
    requires Geometry(|mem|, eraseSize) && Inv(s, mem, adr, data, eraseSize)
    requires 0 < |p| <= eraseSize && adr + |data| + |p| <= |mem|
    requires data == [] ==> StaysInBlock(adr, |p|, eraseSize)
    ensures var end := TouchedEnd(adr, |data| + |p|, eraseSize);
            && (end == TouchedEnd(adr, |data|, eraseSize) ==>
                  EraseAhead(s, adr + |data|, |p|, eraseSize) == s)
            && (end != TouchedEnd(adr, |data|, eraseSize) ==>
                  && end == TouchedEnd(adr, |data|, eraseSize) + eraseSize
                  && 0 <= end - eraseSize
                  && EraseAhead(s, adr + |data|, |p|, eraseSize)
                     == State(s.t.(lastEraseAdr := end - eraseSize), EraseDevice(s.dev, end - eraseSize, eraseSize)))
  {
    var last := adr + |data| + |p| - 1;
    BlockBounds(last, eraseSize);
    assert last % WORDS == last;
    StaysMeans(adr, |p|, eraseSize);
    hide BlockOf, Image, StaysInBlock;
    if data == [] {
      BlockBounds(adr, eraseSize);
      BlockIsBlock(adr, eraseSize);
      BlockUnique(last, BlockOf(adr, eraseSize), eraseSize);
    } else {
      var block := BlockOf(adr + |data| - 1, eraseSize);
      BlockBounds(adr + |data| - 1, eraseSize);
      BlockIsBlock(adr + |data| - 1, eraseSize);
      if last < block + eraseSize {
        BlockUnique(last, block, eraseSize);
      } else {
        BlockNext(block, eraseSize);
        BlockUnique(last, block + eraseSize, eraseSize);
      }
      assert (block + eraseSize) % WORDS == block + eraseSize || last < block + eraseSize;
    }
  }

  /** Writing into blank bytes stores the payload; the image grows by it. */
  lemma ImageGrows(mem: seq<Byte>, adr: nat, data: seq<Byte>, p: seq<Byte>, eraseSize: nat, erased: seq<Byte>)
    requires eraseSize > 0 && p != [] && |erased| == |mem| && adr + |data| + |p| <= |mem|
    requires var end := TouchedEnd(adr, |data| + |p|, eraseSize);
             && TouchedEnd(adr, |data|, eraseSize) <= end
             && forall i | 0 <= i < |mem| ::
                  erased[i] == if TouchedEnd(adr, |data|, eraseSize) <= i < end then BLANK
                               else Image(mem, adr, data, eraseSize)[i]
    ensures Program(erased, adr + |data|, p) == Image(mem, adr, data + p, eraseSize)
  {
    hide Meet;
    var end := TouchedEnd(adr, |data| + |p|, eraseSize);
    var grown, written := Image(mem, adr, data + p, eraseSize), Program(erased, adr + |data|, p);
    BlockBounds(adr, eraseSize);
    BlockBounds(adr + |data| + |p| - 1, eraseSize);
    if data != [] {
      BlockBounds(adr + |data| - 1, eraseSize);
    }
    forall i | 0 <= i < |mem|
      ensures written[i] == grown[i]
    {
      if adr + |data| <= i < adr + |data| + |p| {
        MeetBlank(p[i - (adr + |data|)]);
      }
    }
  }

  /** The lazy erase blanks exactly the blocks that the payload is the first to touch. */
  lemma ErasedContents(s: State, mem: seq<Byte>, adr: nat, data: seq<Byte>, p: seq<Byte>, eraseSize: nat)
    requires Geometry(|mem|, eraseSize) && Inv(s, mem, adr, data, eraseSize)
    requires 0 < |p| <= eraseSize && adr + |data| + |p| <= |mem|
    requires data == [] ==> StaysInBlock(adr, |p|, eraseSize)
    ensures var e := EraseAhead(s, adr + |data|, |p|, eraseSize); var end := TouchedEnd(adr, |data| + |p|, eraseSize);
            && e.t == s.t.(lastEraseAdr := e.t.lastEraseAdr) && e.t.lastEraseAdr == end - eraseSize
            && |e.dev.mem| == |mem|
            && TouchedEnd(adr, |data|, eraseSize) <= end
            && forall i | 0 <= i < |mem| ::
                 e.dev.mem[i] == if TouchedEnd(adr, |data|, eraseSize) <= i < end then BLANK
                                 else Image(mem, adr, data, eraseSize)[i]
  {
    hide EraseAhead, Image;
    NextErase(s, mem, adr, data, p, eraseSize);
    if data == [] {
      BlockBounds(adr + |p| - 1, eraseSize);
    }
  }

  lemma PayloadKeepsInv(s: State, mem: seq<Byte>, adr: nat, data: seq<Byte>, p: seq<Byte>, eraseSize: nat)
    requires Geometry(|mem|, eraseSize) && Inv(s, mem, adr, data, eraseSize)
    requires |p| <= eraseSize && adr + |data| + |p| <= |mem|
    requires data == [] ==> StaysInBlock(adr, |p|, eraseSize)
    ensures Total([p]) == |p|
    ensures Inv(TftpWrite(s, [p], eraseSize), mem, adr, data + p, eraseSize)
  {
    hide EraseAhead, Image, Program, TftpWrite, Total, BlockOf, StaysInBlock;
    SingleBuffer(s, p, eraseSize);
    if p == [] {
      assert data + p == data;
    } else {
      ErasedContents(s, mem, adr, data, p, eraseSize);
      ImageGrows(mem, adr, data, p, eraseSize, EraseAhead(s, adr + |data|, |p|, eraseSize).dev.mem);
    }
  }

  lemma {:induction false} FeedKeepsInv(mem: seq<Byte>, adr: nat, payloads: seq<seq<Byte>>, eraseSize: nat)
    requires Geometry(|mem|, eraseSize) && adr + |Flat(payloads)| <= |mem|
    requires Small(payloads, eraseSize) && StaysInBlock(adr, |FirstPayload(payloads)|, eraseSize)
    ensures Inv(Flashed(true, mem, adr, payloads, eraseSize), mem, adr, Flat(payloads), eraseSize)
  {
    if payloads == [] {
      BlankImage(mem, adr, eraseSize);
    } else {
      var earlier, p := payloads[..|payloads| - 1], payloads[|payloads| - 1];
      FirstIsLonger(payloads, eraseSize, adr);
      FeedKeepsInv(mem, adr, earlier, eraseSize);
      PayloadKeepsInv(Flashed(true, mem, adr, earlier, eraseSize), mem, adr, Flat(earlier), p, eraseSize);
    }
  }

  lemma BlankImage(mem: seq<Byte>, adr: nat, eraseSize: nat)
    requires eraseSize > 0
    ensures Image(mem, adr, [], eraseSize) == mem
  {
    var nothing: seq<Byte> := [];
    assert TouchedEnd(adr, |nothing|, eraseSize) == BlockOf(adr, eraseSize);
    assert Image(mem, adr, nothing, eraseSize) == mem;
  }

  lemma FirstIsLonger(payloads: seq<seq<Byte>>, eraseSize: nat, adr: nat)
    requires payloads != [] && eraseSize > 0
    requires StaysInBlock(adr, |FirstPayload(payloads)|, eraseSize)
    ensures StaysInBlock(adr, |FirstPayload(payloads[..|payloads| - 1])|, eraseSize)
    ensures Flat(payloads[..|payloads| - 1]) == [] ==>
              FirstPayload(payloads) == payloads[|payloads| - 1]
  {
    NothingFirst(payloads[..|payloads| - 1]);
    assert adr % eraseSize < eraseSize;
  }

  lemma {:induction false} NothingFirst(payloads: seq<seq<Byte>>)
    ensures FirstPayload(payloads) == [] <==> Flat(payloads) == []
  {
    if payloads != [] {
      NothingFirst(payloads[..|payloads| - 1]);
    }
  }

  /** Main result: a flash transfer with autoerase leaves exactly the image of the file, provided its first
      payload does not cross an erase boundary. */
  lemma AutoEraseLeavesImage(mem: seq<Byte>, adr: nat, payloads: seq<seq<Byte>>, eraseSize: nat)
    requires Geometry(|mem|, eraseSize) && adr + |Flat(payloads)| <= |mem|
    requires Small(payloads, eraseSize) && StaysInBlock(adr, |FirstPayload(payloads)|, eraseSize)
    ensures var r := Flashed(true, mem, adr, payloads, eraseSize); var file := Flat(payloads);
            && Close(r.t).error == Ok && r.t.bytesTransfered == |file|
            && r.dev.mem == Image(mem, adr, file, eraseSize)
            && r.dev.mem[adr..adr + |file|] == file
  {
    hide Flashed, Image, Flat;
    FeedKeepsInv(mem, adr, payloads, eraseSize);
    ImageHoldsFile(mem, adr, Flat(payloads), eraseSize);
  }

  lemma ImageHoldsFile(mem: seq<Byte>, adr: nat, file: seq<Byte>, eraseSize: nat)
    requires eraseSize > 0 && adr + |file| <= |mem|
    ensures Image(mem, adr, file, eraseSize)[adr..adr + |file|] == file
  {
    hide BlockOf;
  }

  // ---- Autoerase: every touched block is erased once, before any byte of it is written ----

  ghost predicate ErasedFirst(ops: seq<Op>, j: nat, eraseSize: nat)
    requires eraseSize > 0 && j < |ops|
  {
    ops[j].Programmed? ==>
      forall a | ops[j].adr <= a < ops[j].adr + ops[j].len :: Erased(BlockOf(a, eraseSize), eraseSize) in ops[..j]
  }

  ghost predicate Disciplined(ops: seq<Op>, eraseSize: nat)
    requires eraseSize > 0
  {
    && (forall j | 0 <= j < |ops| :: ErasedFirst(ops, j, eraseSize))
    && (forall i, j | 0 <= i < j < |ops| && ops[i].Erased? && ops[j].Erased? :: ops[i].adr != ops[j].adr)
  }

  lemma DisciplineExtends(ops: seq<Op>, op: Op, eraseSize: nat)
    requires eraseSize > 0 && Disciplined(ops, eraseSize)
    requires op.Erased? ==> forall i | 0 <= i < |ops| && ops[i].Erased? :: ops[i].adr != op.adr
    requires op.Programmed? ==>
               forall a | op.adr <= a < op.adr + op.len :: Erased(BlockOf(a, eraseSize), eraseSize) in ops
    ensures Disciplined(ops + [op], eraseSize)
  {
    var ops' := ops + [op];
    forall j | 0 <= j < |ops'|
      ensures ErasedFirst(ops', j, eraseSize)
    {
      if j < |ops| {
        assert ErasedFirst(ops, j, eraseSize) && ops'[..j] == ops[..j];
      } else {
        assert ops'[..j] == ops;
      }
    }
  }

  lemma DisciplineOfPrefix(ops: seq<Op>, more: seq<Op>, eraseSize: nat)
    requires eraseSize > 0 && Disciplined(ops + more, eraseSize)
    ensures Disciplined(ops, eraseSize)
  {
    forall j | 0 <= j < |ops|
      ensures ErasedFirst(ops, j, eraseSize)
    {
      assert ErasedFirst(ops + more, j, eraseSize) && (ops + more)[..j] == ops[..j];
    }
    forall i, j | 0 <= i < j < |ops| && ops[i].Erased? && ops[j].Erased?
      ensures ops[i].adr != ops[j].adr
    {
      assert (ops + more)[i] == ops[i] && (ops + more)[j] == ops[j];
    }
  }

  /** The last block erased is among the erases, and no erase lies above it. */
  ghost predicate OpsInv(ops: seq<Op>, adr: nat, n: nat, eraseSize: nat)
    requires eraseSize > 0
  {
    && Disciplined(ops, eraseSize)
    && (n == 0 ==> ops == [])
    && (n > 0 ==>
          var last := BlockOf(adr + n - 1, eraseSize);
          && Erased(last, eraseSize) in ops
          && forall i | 0 <= i < |ops| && ops[i].Erased? :: ops[i].adr <= last)
  }

  /** The bytes of a payload lie in the last block of the data so far or in the one the payload ends in. */
  lemma PayloadBlocks(adr: nat, n: nat, len: nat, a: nat, eraseSize: nat)
    requires 0 < len <= eraseSize && adr + n <= a < adr + n + len
    requires n == 0 ==> StaysInBlock(adr, len, eraseSize)
    ensures BlockOf(a, eraseSize) == BlockOf(adr + n + len - 1, eraseSize)
            || (n > 0 && BlockOf(a, eraseSize) == BlockOf(adr + n - 1, eraseSize))
  {
    var last := adr + n + len - 1;
    BlockBounds(last, eraseSize);
    BlockIsBlock(last, eraseSize);
    if a >= BlockOf(last, eraseSize) {
      BlockUnique(a, BlockOf(last, eraseSize), eraseSize);
    } else if n > 0 {
      BlockBounds(adr + n - 1, eraseSize);
      BlockIsBlock(adr + n - 1, eraseSize);
      var before := BlockOf(adr + n - 1, eraseSize);
      if a >= before + eraseSize {
        BlockNext(before, eraseSize);
        BlockUnique(last, before + eraseSize, eraseSize);
        assert false;
      }
      BlockUnique(a, before, eraseSize);
    } else {
      BlockBounds(adr, eraseSize);
      BlockIsBlock(adr, eraseSize);
      BlockUnique(last, BlockOf(adr, eraseSize), eraseSize);
      assert false;
    }
  }

  /** The commands of one payload: an erase if it touches a new block, then the write. */
  lemma PayloadOps(s: State, mem: seq<Byte>, adr: nat, data: seq<Byte>, p: seq<Byte>, eraseSize: nat)
    requires Geometry(|mem|, eraseSize) && Inv(s, mem, adr, data, eraseSize)
    requires 0 < |p| <= eraseSize && adr + |data| + |p| <= |mem|
    requires data == [] ==> StaysInBlock(adr, |p|, eraseSize)
    ensures Total([p]) == |p|
    ensures var end := TouchedEnd(adr, |data| + |p|, eraseSize);
            TwoOps(TftpWrite(s, [p], eraseSize).dev.ops, s.dev.ops,
                   end != TouchedEnd(adr, |data|, eraseSize), end - eraseSize, eraseSize, adr + |data|, |p|)
    ensures TouchedEnd(adr, |data|, eraseSize) <= TouchedEnd(adr, |data| + |p|, eraseSize)
  {
    hide EraseAhead, Image, Program, Erase;
    SingleBuffer(s, p, eraseSize);
    NextErase(s, mem, adr, data, p, eraseSize);
  }

  predicate TwoOps(ops': seq<Op>, ops: seq<Op>, erases: bool, block: int, eraseSize: nat, adr: int, len: nat) {
    ops' == ops + (if erases then [Erased(block, eraseSize)] else []) + [Programmed(adr, len)]
  }

  lemma PayloadKeepsOps(ops: seq<Op>, ops': seq<Op>, adr: nat, n: nat, len: nat, eraseSize: nat)
    requires 0 < len <= eraseSize && OpsInv(ops, adr, n, eraseSize)
    requires n == 0 ==> StaysInBlock(adr, len, eraseSize)
    requires var end := TouchedEnd(adr, n + len, eraseSize);
             && TouchedEnd(adr, n, eraseSize) <= end
             && TwoOps(ops', ops, end != TouchedEnd(adr, n, eraseSize), end - eraseSize, eraseSize, adr + n, len)
    ensures OpsInv(ops', adr, n + len, eraseSize)
  {
    hide Disciplined;
    var end := TouchedEnd(adr, n + len, eraseSize);
    var last := BlockOf(adr + n + len - 1, eraseSize);
    var erased := if end != TouchedEnd(adr, n, eraseSize) then ops + [Erased(last, eraseSize)] else ops;
    if end != TouchedEnd(adr, n, eraseSize) {
      DisciplineExtends(ops, Erased(last, eraseSize), eraseSize);
      assert erased[|ops|] == Erased(last, eraseSize);
    } else {
      NewBlockNeedsErase(adr, len, eraseSize);
    }
    assert Erased(last, eraseSize) in erased;
    forall a | adr + n <= a < adr + n + len
      ensures Erased(BlockOf(a, eraseSize), eraseSize) in erased
    {
      PayloadBlocks(adr, n, len, a, eraseSize);
    }
    DisciplineExtends(erased, Programmed(adr + n, len), eraseSize);
    assert ops' == erased + [Programmed(adr + n, len)];
  }

  lemma NewBlockNeedsErase(adr: nat, len: nat, eraseSize: nat)
    requires 0 < len && eraseSize > 0
    ensures TouchedEnd(adr, len, eraseSize) != TouchedEnd(adr, 0, eraseSize)
  {
    BlockBounds(adr, eraseSize);
    BlockBounds(adr + len - 1, eraseSize);
  }

  lemma {:induction false} FeedKeepsOps(mem: seq<Byte>, adr: nat, payloads: seq<seq<Byte>>, eraseSize: nat)
    requires Geometry(|mem|, eraseSize) && adr + |Flat(payloads)| <= |mem|
    requires Small(payloads, eraseSize) && StaysInBlock(adr, |FirstPayload(payloads)|, eraseSize)
    ensures OpsInv(Flashed(true, mem, adr, payloads, eraseSize).dev.ops, adr, |Flat(payloads)|, eraseSize)
  {
    if payloads != [] {
      hide Inv, OpsInv, StaysInBlock, Flat, FirstPayload, Flashed, Small, Geometry;
      var earlier, p := payloads[..|payloads| - 1], payloads[|payloads| - 1];
      FlatSplits(payloads);
      FirstIsLonger(payloads, eraseSize, adr);
      SmallerIsSmall(payloads, eraseSize);
      FeedKeepsOps(mem, adr, earlier, eraseSize);
      FeedKeepsInv(mem, adr, earlier, eraseSize);
      var s := Flashed(true, mem, adr, earlier, eraseSize);
      StillInProgress(s, mem, adr, Flat(earlier), eraseSize);
      NextPayloadOps(s, mem, adr, Flat(earlier), p, eraseSize);
      FlashedStep(mem, adr, payloads, eraseSize);
    }
  }

  lemma SmallerIsSmall(payloads: seq<seq<Byte>>, eraseSize: nat)
    requires payloads != [] && Small(payloads, eraseSize)
    ensures Small(payloads[..|payloads| - 1], eraseSize) && |payloads[|payloads| - 1]| <= eraseSize
  {
  }

  lemma NextPayloadOps(s: State, mem: seq<Byte>, adr: nat, data: seq<Byte>, p: seq<Byte>, eraseSize: nat)
    requires Geometry(|mem|, eraseSize) && Inv(s, mem, adr, data, eraseSize)
    requires OpsInv(s.dev.ops, adr, |data|, eraseSize) && |p| <= eraseSize && adr + |data| + |p| <= |mem|
    requires data == [] ==> StaysInBlock(adr, |p|, eraseSize)
    ensures Total([p]) == |p| && s.t.flashAdr + s.t.bytesTransfered + |p| <= |s.dev.mem|
    ensures OpsInv(TftpWrite(s, [p], eraseSize).dev.ops, adr, |data| + |p|, eraseSize)
  {
    hide OpsInv, TftpWrite, TwoOps, StaysInBlock, TouchedEnd, Image;
    SingleBuffer(s, p, eraseSize);
    if p != [] {
      PayloadOps(s, mem, adr, data, p, eraseSize);
      PayloadKeepsOps(s.dev.ops, TftpWrite(s, [p], eraseSize).dev.ops, adr, |data|, |p|, eraseSize);
    }
  }

  lemma FlashedStep(mem: seq<Byte>, adr: nat, payloads: seq<seq<Byte>>, eraseSize: nat)
    requires eraseSize > 0 && payloads != [] && adr + |Flat(payloads)| <= |mem|
    requires adr + |Flat(payloads[..|payloads| - 1])| <= |mem|
    requires var s := Flashed(true, mem, adr, payloads[..|payloads| - 1], eraseSize);
             && Total([payloads[|payloads| - 1]]) == |payloads[|payloads| - 1]| && s.t.error == InProgress
             && s.t.flashAdr + s.t.bytesTransfered + |payloads[|payloads| - 1]| <= |s.dev.mem|
    ensures Flashed(true, mem, adr, payloads, eraseSize)
            == TftpWrite(Flashed(true, mem, adr, payloads[..|payloads| - 1], eraseSize), [payloads[|payloads| - 1]], eraseSize)
  {
    hide TftpWrite, Flat;
  }

  lemma StillInProgress(s: State, mem: seq<Byte>, adr: nat, data: seq<Byte>, eraseSize: nat)
    requires eraseSize > 0 && Inv(s, mem, adr, data, eraseSize)
    ensures s.t.error == InProgress
  {
  }

  // ---- What a first payload across an erase boundary does ----

  /** A fresh transfer's first payload erases its first block and nothing more, whatever it touches. */
  lemma FirstPayloadOps(mem: seq<Byte>, adr: nat, p: seq<Byte>, eraseSize: nat)
    requires Geometry(|mem|, eraseSize) && p != [] && adr + |p| <= |mem|
    ensures Total([p]) == |p|
    ensures var block := BlockOf(adr, eraseSize); var s := TftpWrite(Flashing(true, mem, adr), [p], eraseSize);
            && 0 <= block
            && s.dev.ops == [Erased(block, eraseSize), Programmed(adr, |p|)]
            && s.t == Flashing(true, mem, adr).t.(bytesTransfered := |p|, lastEraseAdr := block)
            && |s.dev.mem| == |mem|
  {
    hide Program, Erase, TftpWrite, EraseAhead;
    SingleBuffer(Flashing(true, mem, adr), p, eraseSize);
    FirstErase(mem, adr, |p|, eraseSize);
  }

  lemma FirstErase(mem: seq<Byte>, adr: nat, len: nat, eraseSize: nat)
    requires Geometry(|mem|, eraseSize) && 0 < len && adr + len <= |mem|
    ensures var block := BlockOf(adr, eraseSize); var s := Flashing(true, mem, adr);
            && 0 <= block
            && EraseAhead(s, adr, len, eraseSize)
               == State(s.t.(lastEraseAdr := block), EraseDevice(s.dev, block, eraseSize))
  {
    BlockBounds(adr, eraseSize);
    BlockBounds(adr + len - 1, eraseSize);
    assert (adr + len - 1) % WORDS == adr + len - 1;
  }

  lemma CrossingIsUndisciplined(adr: nat, len: nat, eraseSize: nat)
    requires 0 < len && eraseSize > 0 && !StaysInBlock(adr, len, eraseSize)
    ensures !Disciplined([Erased(BlockOf(adr, eraseSize), eraseSize), Programmed(adr, len)], eraseSize)
  {
    var block := BlockOf(adr, eraseSize);
    var ops := [Erased(block, eraseSize), Programmed(adr, len)];
    BlockBounds(adr, eraseSize);
    BlockIsBlock(adr, eraseSize);
    BlockNext(block, eraseSize);
    var a := block + eraseSize;
    assert adr <= a < adr + len;
    assert ops[..1] == [Erased(block, eraseSize)];
    assert Erased(BlockOf(a, eraseSize), eraseSize) !in ops[..1];
    assert !ErasedFirst(ops, 1, eraseSize);
  }

  /** Later payloads only add commands. */
  lemma PayloadAddsOps(s: State, p: seq<Byte>, eraseSize: nat) returns (more: seq<Op>)
    requires eraseSize > 0 && s.t.kind == ToFlash && s.t.flashAdr + s.t.bytesTransfered + |p| <= |s.dev.mem|
    ensures Total([p]) == |p|
    ensures TftpWrite(s, [p], eraseSize).dev.ops == s.dev.ops + more
    ensures TftpWrite(s, [p], eraseSize).t.kind == ToFlash
  {
    hide Program, Erase, BlockOf;
    SingleBuffer(s, p, eraseSize);
    if p == [] {
      more := [];
    } else {
      var e := EraseAhead(s, s.t.flashAdr + s.t.bytesTransfered, |p|, eraseSize);
      more := e.dev.ops[|s.dev.ops|..] + [Programmed(s.t.flashAdr + s.t.bytesTransfered, |p|)];
    }
  }

  lemma {:induction false} FeedStartsWithFirst(mem: seq<Byte>, adr: nat, payloads: seq<seq<Byte>>, eraseSize: nat)
    returns (more: seq<Op>)
    requires Geometry(|mem|, eraseSize) && adr + |Flat(payloads)| <= |mem|
    ensures var first := FirstPayload(payloads); var r := Flashed(true, mem, adr, payloads, eraseSize);
            && r.t.kind == ToFlash
            && (first == [] ==> r == Flashing(true, mem, adr))
            && (first != [] ==>
                  r.dev.ops == [Erased(BlockOf(adr, eraseSize), eraseSize), Programmed(adr, |first|)] + more)
  {
    more := [];
    if payloads != [] {
      hide TftpWrite;
      var earlier, p := payloads[..|payloads| - 1], payloads[|payloads| - 1];
      var more' := FeedStartsWithFirst(mem, adr, earlier, eraseSize);
      NothingFirst(earlier);
      var s := Flashed(true, mem, adr, earlier, eraseSize);
      SingleBuffer(s, p, eraseSize);
      if FirstPayload(earlier) == [] {
        if p != [] {
          FirstPayloadOps(mem, adr, p, eraseSize);
        }
      } else if s.t.error != InProgress {
        more := more';
      } else {
        var m := PayloadAddsOps(s, p, eraseSize);
        more := more' + m;
      }
    }
  }

  /** Main result: every block a transfer touches is erased exactly once, before any byte of it is written,
      exactly when the first payload with data stays within one erase block. */
  lemma DisciplineExactlyWhenFirstStays(mem: seq<Byte>, adr: nat, payloads: seq<seq<Byte>>, eraseSize: nat)
    requires Geometry(|mem|, eraseSize) && adr + |Flat(payloads)| <= |mem| && Small(payloads, eraseSize)
    ensures Disciplined(Flashed(true, mem, adr, payloads, eraseSize).dev.ops, eraseSize)
            <==> StaysInBlock(adr, |FirstPayload(payloads)|, eraseSize)
  {
    hide Disciplined, Flashed;
    var first := FirstPayload(payloads);
    if StaysInBlock(adr, |first|, eraseSize) {
      FeedKeepsOps(mem, adr, payloads, eraseSize);
    } else {
      EmptyStays(adr, eraseSize);
      var more := FeedStartsWithFirst(mem, adr, payloads, eraseSize);
      var firstOps := [Erased(BlockOf(adr, eraseSize), eraseSize), Programmed(adr, |first|)];
      CrossingIsUndisciplined(adr, |first|, eraseSize);
      if Disciplined(firstOps + more, eraseSize) {
        DisciplineOfPrefix(firstOps, more, eraseSize);
      }
    }
  }

  lemma EmptyStays(adr: nat, eraseSize: nat)
    requires eraseSize > 0
    ensures StaysInBlock(adr, 0, eraseSize)
  {
  }

  /** The damage: the next payload erases the second block, and with it what the first had put there. */
  lemma CrossingTailIsErased(mem: seq<Byte>, adr: nat, p: seq<Byte>, q: seq<Byte>, eraseSize: nat, i: nat)
    requires Geometry(|mem|, eraseSize) && adr + |p| + |q| <= |mem|
    requires 0 < |p| <= eraseSize && !StaysInBlock(adr, |p|, eraseSize) && q != []
    requires BlockOf(adr, eraseSize) + eraseSize <= i < adr + |p|
    ensures Total([p]) == |p| && Total([q]) == |q|
    ensures var s := TftpWrite(Flashing(true, mem, adr), [p], eraseSize);
            && s.t.flashAdr + s.t.bytesTransfered == adr + |p| && |s.dev.mem| == |mem|
            && var s' := TftpWrite(s, [q], eraseSize); |s'.dev.mem| == |mem| && s'.dev.mem[i] == BLANK
  {
    hide Meet, BlockOf, TftpWrite, EraseAhead;
    FirstPayloadOps(mem, adr, p, eraseSize);
    var s := TftpWrite(Flashing(true, mem, adr), [p], eraseSize);
    SecondErase(s, mem, adr, |p|, q, eraseSize);
    SingleBuffer(s, q, eraseSize);
  }

  lemma SecondErase(s: State, mem: seq<Byte>, adr: nat, n: nat, q: seq<Byte>, eraseSize: nat)
    requires Geometry(|mem|, eraseSize) && adr + n + |q| <= |mem| == |s.dev.mem|
    requires 0 < n <= eraseSize && !StaysInBlock(adr, n, eraseSize) && q != []
    requires var block := BlockOf(adr, eraseSize);
             0 <= block && s.t == Flashing(true, mem, adr).t.(bytesTransfered := n, lastEraseAdr := block)
    ensures var next := BlockOf(adr, eraseSize) + eraseSize;
            EraseAhead(s, adr + n, |q|, eraseSize)
            == State(s.t.(lastEraseAdr := next), EraseDevice(s.dev, next, eraseSize))
    ensures adr + n <= BlockOf(adr, eraseSize) + 2 * eraseSize
  {
    BlockBounds(adr, eraseSize);
    var last := adr + n + |q| - 1;
    BlockBounds(last, eraseSize);
    assert last % WORDS == last;
    assert (BlockOf(adr, eraseSize) + eraseSize) % WORDS == BlockOf(adr, eraseSize) + eraseSize;
  }

  // ---- So the image is left exactly when the first payload stays ----

  /** The byte at the start of the second block, after a first payload that crosses into it: written without an
      erase, and erased by the next payload with data. */
  ghost predicate Damaged(r: State, mem: seq<Byte>, adr: nat, payloads: seq<seq<Byte>>, i: nat, eraseSize: nat)
    requires eraseSize > 0 && adr <= i < adr + |FirstPayload(payloads)| && i < |mem|
  {
    var first, n := FirstPayload(payloads), |Flat(payloads)|;
    && |r.dev.mem| == |mem| && r.t.kind == ToFlash && r.t.flashAdr == adr && r.t.error == InProgress
    && r.t.bytesTransfered == n && i < adr + n
    && if n == |first| then
         && r.t == Flashing(true, mem, adr).t.(bytesTransfered := n, lastEraseAdr := r.t.lastEraseAdr)
         && r.t.lastEraseAdr == BlockOf(adr, eraseSize)
         && r.dev.mem[i] == Meet(mem[i], first[i - adr])
       else r.dev.mem[i] == BLANK
  }

  lemma FirstDamages(mem: seq<Byte>, adr: nat, p: seq<Byte>, i: nat, eraseSize: nat)
    requires Geometry(|mem|, eraseSize) && p != [] && adr + |p| <= |mem|
    requires BlockOf(adr, eraseSize) + eraseSize <= i < adr + |p|
    ensures adr <= i && Total([p]) == |p|
    ensures var s := TftpWrite(Flashing(true, mem, adr), [p], eraseSize);
            && s.t == Flashing(true, mem, adr).t.(bytesTransfered := |p|, lastEraseAdr := BlockOf(adr, eraseSize))
            && |s.dev.mem| == |mem| && s.dev.mem[i] == Meet(mem[i], p[i - adr])
  {
    hide Meet, TftpWrite, EraseAhead;
    BlockBounds(adr, eraseSize);
    SingleBuffer(Flashing(true, mem, adr), p, eraseSize);
    FirstErase(mem, adr, |p|, eraseSize);
  }

  /** A later payload leaves an erased byte below it erased. */
  lemma LaterKeepsBlank(s: State, p: seq<Byte>, i: nat, eraseSize: nat)
    requires eraseSize > 0 && s.t.kind == ToFlash && s.t.flashAdr + s.t.bytesTransfered + |p| <= |s.dev.mem|
    requires i < s.t.flashAdr + s.t.bytesTransfered && i < |s.dev.mem| && s.dev.mem[i] == BLANK && s.t.error == InProgress
    ensures Total([p]) == |p|
    ensures var s' := TftpWrite(s, [p], eraseSize);
            && |s'.dev.mem| == |s.dev.mem| && s'.dev.mem[i] == BLANK
            && s'.t == s.t.(bytesTransfered := s.t.bytesTransfered + |p|, lastEraseAdr := s'.t.lastEraseAdr)
  {
    hide Meet, BlockOf;
    SingleBuffer(s, p, eraseSize);
  }

  lemma SecondDamages(s: State, mem: seq<Byte>, adr: nat, n: nat, q: seq<Byte>, i: nat, eraseSize: nat)
    requires Geometry(|mem|, eraseSize) && adr + n + |q| <= |mem| == |s.dev.mem|
    requires 0 < n <= eraseSize && !StaysInBlock(adr, n, eraseSize) && q != []
    requires var block := BlockOf(adr, eraseSize);
             0 <= block && s.t == Flashing(true, mem, adr).t.(bytesTransfered := n, lastEraseAdr := block)
    requires BlockOf(adr, eraseSize) + eraseSize <= i < adr + n
    ensures Total([q]) == |q|
    ensures var s' := TftpWrite(s, [q], eraseSize);
            && |s'.dev.mem| == |mem| && s'.dev.mem[i] == BLANK
            && s'.t == s.t.(bytesTransfered := n + |q|, lastEraseAdr := s'.t.lastEraseAdr)
  {
    hide Meet, BlockOf, TftpWrite, EraseAhead;
    SecondErase(s, mem, adr, n, q, eraseSize);
    SingleBuffer(s, q, eraseSize);
  }

  lemma {:induction false} FeedDamages(mem: seq<Byte>, adr: nat, payloads: seq<seq<Byte>>, i: nat, eraseSize: nat)
    requires Geometry(|mem|, eraseSize) && adr + |Flat(payloads)| <= |mem| && Small(payloads, eraseSize)
    requires !StaysInBlock(adr, |FirstPayload(payloads)|, eraseSize)
    requires BlockOf(adr, eraseSize) + eraseSize <= i < adr + |FirstPayload(payloads)|
    ensures adr <= i < |mem|
    ensures Damaged(Flashed(true, mem, adr, payloads, eraseSize), mem, adr, payloads, i, eraseSize)
  {
    hide Meet, TftpWrite, StaysInBlock;
    BlockBounds(adr, eraseSize);
    EmptyStays(adr, eraseSize);
    FirstBounds(payloads, eraseSize);
    var earlier, p := payloads[..|payloads| - 1], payloads[|payloads| - 1];
    var s := Flashed(true, mem, adr, earlier, eraseSize);
    hide BlockOf;
    SingleBuffer(s, p, eraseSize);
    if FirstPayload(earlier) == [] {
      NothingFlashed(mem, adr, earlier, eraseSize);
      FirstDamages(mem, adr, p, i, eraseSize);
    } else {
      FirstBounds(earlier, eraseSize);
      FeedDamages(mem, adr, earlier, i, eraseSize);
      if p == [] {
        assert Flat(payloads) == Flat(earlier);
      } else if |Flat(earlier)| == |FirstPayload(earlier)| {
        SecondDamages(s, mem, adr, |Flat(earlier)|, p, i, eraseSize);
      } else {
        LaterKeepsBlank(s, p, i, eraseSize);
      }
    }
  }

  lemma {:induction false} FirstBounds(payloads: seq<seq<Byte>>, eraseSize: nat)
    requires Small(payloads, eraseSize)
    ensures |FirstPayload(payloads)| <= |Flat(payloads)| && |FirstPayload(payloads)| <= eraseSize
  {
    if payloads != [] {
      FirstBounds(payloads[..|payloads| - 1], eraseSize);
    }
  }

  lemma {:induction false} NothingFlashed(mem: seq<Byte>, adr: nat, payloads: seq<seq<Byte>>, eraseSize: nat)
    requires eraseSize > 0 && adr + |Flat(payloads)| <= |mem| && FirstPayload(payloads) == []
    ensures Flat(payloads) == [] && Flashed(true, mem, adr, payloads, eraseSize) == Flashing(true, mem, adr)
  {
    NothingFirst(payloads);
    if payloads != [] {
      hide TftpWrite;
      NothingFlashed(mem, adr, payloads[..|payloads| - 1], eraseSize);
      SingleBuffer(Flashing(true, mem, adr), payloads[|payloads| - 1], eraseSize);
    }
  }

  /** Payloads of the same lengths. */
  predicate SameShape(a: seq<seq<Byte>>, b: seq<seq<Byte>>) {
    |a| == |b| && forall k | 0 <= k < |a| :: |a[k]| == |b[k]|
  }

  lemma {:induction false} ShapeLengths(a: seq<seq<Byte>>, b: seq<seq<Byte>>)
    requires SameShape(a, b)
    ensures |Flat(a)| == |Flat(b)| && |FirstPayload(a)| == |FirstPayload(b)|
  {
    if a != [] {
      ShapeLengths(a[..|a| - 1], b[..|b| - 1]);
    }
  }

  predicate All(data: seq<Byte>, b: Byte) { forall i | 0 <= i < |data| :: data[i] == b }

  function FilledLike(payloads: seq<seq<Byte>>, b: Byte): (r: seq<seq<Byte>>)
    ensures SameShape(r, payloads) && forall k | 0 <= k < |r| :: All(r[k], b)
  {
    seq(|payloads|, k requires 0 <= k < |payloads| => seq(|payloads[k]|, _ => b))
  }

  lemma {:induction false} FlatAll(payloads: seq<seq<Byte>>, b: Byte)
    requires forall k | 0 <= k < |payloads| :: All(payloads[k], b)
    ensures All(Flat(payloads), b) && All(FirstPayload(payloads), b)
  {
    if payloads != [] {
      FlatAll(payloads[..|payloads| - 1], b);
    }
  }

  /** A transfer of this file into these contents leaves the image of it. */
  ghost predicate LeavesImage(mem: seq<Byte>, adr: nat, payloads: seq<seq<Byte>>, eraseSize: nat)
    requires eraseSize > 0
  {
    && adr + |Flat(payloads)| <= |mem|
    && Flashed(true, mem, adr, payloads, eraseSize).dev.mem == Image(mem, adr, Flat(payloads), eraseSize)
  }

  /** Contents and a file of the given shape that show the damage: the file is 0xff in a flash of zeros if the
      first payload is all there is, and otherwise zeros. */
  lemma DamageShows(size: nat, adr: nat, shape: seq<seq<Byte>>, eraseSize: nat)
    returns (mem: seq<Byte>, payloads: seq<seq<Byte>>)
    requires Geometry(size, eraseSize) && adr + |Flat(shape)| <= size && Small(shape, eraseSize)
    requires !StaysInBlock(adr, |FirstPayload(shape)|, eraseSize)
    ensures |mem| == size && SameShape(payloads, shape) && !LeavesImage(mem, adr, payloads, eraseSize)
  {
    var b: Byte := if |Flat(shape)| == |FirstPayload(shape)| then 0xFF else 0;
    var i := BlockOf(adr, eraseSize) + eraseSize;
    BlockBounds(adr, eraseSize);
    mem := seq(size, _ => 0);
    payloads := FilledLike(shape, b);
    ShapeLengths(payloads, shape);
    FlatAll(payloads, b);
    FirstBounds(payloads, eraseSize);
    hide BlockOf, Flashed, FilledLike;
    FeedDamages(mem, adr, payloads, i, eraseSize);
    ZeroMeets(0xFF);
  }

  lemma ZeroMeets(b: Byte)
    ensures Meet(0, b) == 0
  {
  }

  /** Main result: a transfer of given payload lengths leaves the image of every file in every old contents
      exactly if its first payload with data stays within one erase block. */
  lemma ImageExactlyWhenFirstStays(size: nat, adr: nat, shape: seq<seq<Byte>>, eraseSize: nat)
    requires Geometry(size, eraseSize) && adr + |Flat(shape)| <= size && Small(shape, eraseSize)
    ensures (forall mem, payloads | |mem| == size && SameShape(payloads, shape) :: LeavesImage(mem, adr, payloads, eraseSize))
            <==> StaysInBlock(adr, |FirstPayload(shape)|, eraseSize)
  {
    hide LeavesImage, StaysInBlock;
    if StaysInBlock(adr, |FirstPayload(shape)|, eraseSize) {
      forall mem, payloads | |mem| == size && SameShape(payloads, shape)
        ensures LeavesImage(mem, adr, payloads, eraseSize)
      {
        StayingLeavesImage(mem, adr, payloads, shape, eraseSize);
      }
    } else {
      var mem, payloads := DamageShows(size, adr, shape, eraseSize);
    }
  }

  lemma StayingLeavesImage(mem: seq<Byte>, adr: nat, payloads: seq<seq<Byte>>, shape: seq<seq<Byte>>, eraseSize: nat)
    requires Geometry(|mem|, eraseSize) && adr + |Flat(shape)| <= |mem| && Small(shape, eraseSize)
    requires SameShape(payloads, shape) && StaysInBlock(adr, |FirstPayload(shape)|, eraseSize)
    ensures LeavesImage(mem, adr, payloads, eraseSize)
  {
    hide Flashed;
    ShapeLengths(payloads, shape);
    AutoEraseLeavesImage(mem, adr, payloads, eraseSize);
  }

  // ---- Autoerase off: a bitwise meet ----

  lemma ProgramTwice(mem: seq<Byte>, adr: nat, a: seq<Byte>, b: seq<Byte>)
    ensures Program(Program(mem, adr, a), adr + |a|, b) == Program(mem, adr, a + b)
  {
    hide Meet;
  }

  lemma {:induction false} FeedIsProgram(mem: seq<Byte>, adr: nat, payloads: seq<seq<Byte>>, eraseSize: nat)
    requires eraseSize > 0 && adr + |Flat(payloads)| <= |mem|
    ensures var r := Flashed(false, mem, adr, payloads, eraseSize);
            && r.t == Flashing(false, mem, adr).t.(bytesTransfered := |Flat(payloads)|)
            && r.dev.mem == Program(mem, adr, Flat(payloads))
            && forall k | 0 <= k < |r.dev.ops| :: r.dev.ops[k].Programmed?
  {
    if payloads == [] {
      assert Program(mem, adr, []) == mem;
    } else {
      hide Program, TftpWrite;
      var earlier, p := payloads[..|payloads| - 1], payloads[|payloads| - 1];
      FeedIsProgram(mem, adr, earlier, eraseSize);
      SingleBuffer(Flashed(false, mem, adr, earlier, eraseSize), p, eraseSize);
      ProgramTwice(mem, adr, Flat(earlier), p);
      ProgramNothing(Program(mem, adr, Flat(earlier)), adr + |Flat(earlier)|);
      assert p == [] ==> Flat(payloads) == Flat(earlier);
    }
  }

  lemma ProgramNothing(mem: seq<Byte>, adr: nat)
    ensures Program(mem, adr, []) == mem
  {
  }

  lemma NoEraseIsMeet(mem: seq<Byte>, adr: nat, payloads: seq<seq<Byte>>, eraseSize: nat)
    requires eraseSize > 0 && adr + |Flat(payloads)| <= |mem|
    ensures var r := Flashed(false, mem, adr, payloads, eraseSize); var file := Flat(payloads);
            && Close(r.t).error == Ok && |r.dev.mem| == |mem|
            && (forall k | 0 <= k < |r.dev.ops| :: r.dev.ops[k].Programmed?)
            && (forall i | 0 <= i < |mem| ::
                  r.dev.mem[i] == if adr <= i < adr + |file| then Meet(mem[i], file[i - adr]) else mem[i])
            && Flashed(false, r.dev.mem, adr, payloads, eraseSize).dev.mem == r.dev.mem
  {
    hide Meet, Flat, Flashed;
    FeedIsProgram(mem, adr, payloads, eraseSize);
    FeedIsProgram(Program(mem, adr, Flat(payloads)), adr, payloads, eraseSize);
    ProgramAgain(mem, adr, Flat(payloads));
  }

  /** Main result: without autoerase a transfer erases nothing; a bit in its range is set afterwards exactly if
      it was set before and is set in the file, and everything else is as it was; repeating it changes nothing
      more. */
  lemma NoEraseLeavesMeet(mem: seq<Byte>, adr: nat, payloads: seq<seq<Byte>>, eraseSize: nat)
    requires eraseSize > 0 && adr + |Flat(payloads)| <= |mem|
    ensures var r := Flashed(false, mem, adr, payloads, eraseSize); var file := Flat(payloads);
            && Close(r.t).error == Ok && |r.dev.mem| == |mem|
            && (forall k | 0 <= k < |r.dev.ops| :: r.dev.ops[k].Programmed?)
            && (forall i, b: Bits.Index | adr <= i < adr + |file| ::
                  Bits.ByteBit(r.dev.mem[i], b) <==> Bits.ByteBit(mem[i], b) && Bits.ByteBit(file[i - adr], b))
            && (forall i | 0 <= i < |mem| && !(adr <= i < adr + |file|) :: r.dev.mem[i] == mem[i])
            && Flashed(false, r.dev.mem, adr, payloads, eraseSize).dev.mem == r.dev.mem
  {
    hide Meet, Flat, Flashed, Bits.ByteBit;
    NoEraseIsMeet(mem, adr, payloads, eraseSize);
    var file := Flat(payloads);
    forall i, b: Bits.Index | adr <= i < adr + |file|
      ensures Bits.ByteBit(Flashed(false, mem, adr, payloads, eraseSize).dev.mem[i], b)
              <==> Bits.ByteBit(mem[i], b) && Bits.ByteBit(file[i - adr], b)
    {
      MeetBits(mem[i], file[i - adr], b);
    }
  }

  lemma ProgramAgain(mem: seq<Byte>, adr: nat, data: seq<Byte>)
    ensures Program(Program(mem, adr, data), adr, data) == Program(mem, adr, data)
  {
    hide Meet;
    var met := Program(mem, adr, data);
    forall i | 0 <= i < |mem|
      ensures Program(met, adr, data)[i] == met[i]
    {
      if adr <= i < adr + |data| {
        MeetTwice(mem[i], data[i - adr]);
      }
    }
  }
}
