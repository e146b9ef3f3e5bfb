/** Verifying and saving (fw/pano_ldr/tftp_ldr.c:69-104, 150-171), alone and after a download. */
module RoundTrip {
  import opened NorFlash
  import opened Words
  import opened TftpLoader
  import Division
  import Download

  // ---- Verify ----

  function Verified(dev: Device, adr: nat, maxBytes: nat, payloads: seq<seq<Byte>>, eraseSize: nat): State
    requires eraseSize > 0 && adr + |Flat(payloads)| <= |dev.mem|
  {
    Feed(State(Started(Compare, true, adr, maxBytes, 0), dev), payloads, eraseSize)
  }

  predicate Fits(payloads: seq<seq<Byte>>, maxBytes: nat) {
    forall k | 0 <= k < |payloads| :: |payloads[k]| <= maxBytes
  }

  /** The flash agrees with the file on its first `n` bytes. */
  predicate SameUpTo(mem: seq<Byte>, adr: nat, file: seq<Byte>, n: nat)
    requires adr + |file| <= |mem| && n <= |file|
  {
    mem[adr..adr + n] == file[..n]
  }

  predicate DiffersAt(mem: seq<Byte>, adr: nat, file: seq<Byte>, n: nat)
    requires adr + |file| <= |mem|
  {
    n < |file| && mem[adr + n] != file[n]
  }

  /** What each status says about the comparison so far; the flash is never changed. */
  ghost predicate Compared(r: State, dev: Device, adr: nat, maxBytes: nat, payloads: seq<seq<Byte>>)
    requires adr + |Flat(payloads)| <= |dev.mem|
  {
    var file, n := Flat(payloads), r.t.bytesTransfered;
    && r.dev == dev
    && r.t == Started(Compare, true, adr, maxBytes, 0).(bytesTransfered := n, error := r.t.error)
    && n <= |file| && SameUpTo(dev.mem, adr, file, n)
    && match r.t.error
       case InProgress => n == |file| && Fits(payloads, maxBytes)
       case ErrCompareFail => DiffersAt(dev.mem, adr, file, n)
       case ErrBufTooSmall => !Fits(payloads, maxBytes)
       case _ => false
  }

  lemma SameExtends(mem: seq<Byte>, adr: nat, file: seq<Byte>, p: seq<Byte>, n: nat)
    requires adr + |file| + |p| <= |mem| && n <= |p| && SameUpTo(mem, adr, file, |file|)
    requires mem[adr + |file|..adr + |file| + |p|][..n] == p[..n]
    ensures SameUpTo(mem, adr, file + p, |file| + n)
  {
    assert mem[adr..adr + |file| + n] == mem[adr..adr + |file|] + mem[adr + |file|..adr + |file| + |p|][..n];
    assert (file + p)[..|file| + n] == file + p[..n];
  }

  /** A failed comparison stays failed, at the same byte, in the longer file. */
  lemma ComparedStays(r: State, dev: Device, adr: nat, maxBytes: nat, payloads: seq<seq<Byte>>)
    requires payloads != [] && adr + |Flat(payloads)| <= |dev.mem|
    requires Compared(r, dev, adr, maxBytes, payloads[..|payloads| - 1]) && r.t.error != InProgress
    ensures Compared(r, dev, adr, maxBytes, payloads)
  {
    var earlier, file := Flat(payloads[..|payloads| - 1]), Flat(payloads);
    assert file[..|earlier|] == earlier;
    assert file[..r.t.bytesTransfered] == earlier[..r.t.bytesTransfered];
  }

  /** The comparison of one buffer. */
  lemma CompareBuf(r: State, p: seq<Byte>, eraseSize: nat)
    requires eraseSize > 0 && r.t.kind == Compare && r.t.error == InProgress
    requires r.t.flashAdr + r.t.bytesTransfered + |p| <= |r.dev.mem|
    ensures Total([p]) == |p|
    ensures var adr := r.t.flashAdr + r.t.bytesTransfered; var r' := TftpWrite(r, [p], eraseSize);
            var n := r'.t.bytesTransfered - r.t.bytesTransfered;
            && r'.dev == r.dev && 0 <= n <= |p|
            && r'.t == r.t.(bytesTransfered := r'.t.bytesTransfered, error := r'.t.error)
            && r.dev.mem[adr..adr + |p|][..n] == p[..n]
            && (|p| > r.t.maxBytes ==> r'.t.error == ErrBufTooSmall && n == 0)
            && (|p| <= r.t.maxBytes ==>
                  if n == |p| then r'.t.error == InProgress
                  else r'.t.error == ErrCompareFail && r.dev.mem[adr + n] != p[n])
  {
    hide TftpWrite;
    SingleBuffer(r, p, eraseSize);
    if 0 < |p| <= r.t.maxBytes {
      var adr := r.t.flashAdr + r.t.bytesTransfered;
      var n := Agree(r.dev.mem[adr..adr + |p|], p);
    }
  }

  lemma FitsExtends(payloads: seq<seq<Byte>>, maxBytes: nat)
    requires payloads != []
    ensures Fits(payloads, maxBytes)
            <==> Fits(payloads[..|payloads| - 1], maxBytes) && |payloads[|payloads| - 1]| <= maxBytes
  {
  }

  lemma PayloadKeepsCompared(r: State, dev: Device, adr: nat, maxBytes: nat, payloads: seq<seq<Byte>>, eraseSize: nat)
    requires eraseSize > 0 && payloads != [] && adr + |Flat(payloads)| <= |dev.mem|
    requires Compared(r, dev, adr, maxBytes, payloads[..|payloads| - 1]) && r.t.error == InProgress
    ensures var p := payloads[|payloads| - 1]; Total([p]) == |p|
    ensures Compared(TftpWrite(r, [payloads[|payloads| - 1]], eraseSize), dev, adr, maxBytes, payloads)
  {
    hide TftpWrite, SameUpTo, Total, Fits, Flat;
    FitsExtends(payloads, maxBytes);
    var earlier, p := Flat(payloads[..|payloads| - 1]), payloads[|payloads| - 1];
    FlatSplits(payloads);
    CompareBuf(r, p, eraseSize);
    SameExtends(dev.mem, adr, earlier, p, TftpWrite(r, [p], eraseSize).t.bytesTransfered - |earlier|);
  }

  lemma {:induction false} FeedCompares(dev: Device, adr: nat, maxBytes: nat, payloads: seq<seq<Byte>>, eraseSize: nat)
    requires eraseSize > 0 && adr + |Flat(payloads)| <= |dev.mem|
    ensures Compared(Verified(dev, adr, maxBytes, payloads, eraseSize), dev, adr, maxBytes, payloads)
  {
    if payloads != [] {
      hide Compared, TftpWrite;
      var earlier := payloads[..|payloads| - 1];
      FeedCompares(dev, adr, maxBytes, earlier, eraseSize);
      var r := Verified(dev, adr, maxBytes, earlier, eraseSize);
      if r.t.error != InProgress {
        ComparedStays(r, dev, adr, maxBytes, payloads);
      } else {
        PayloadKeepsCompared(r, dev, adr, maxBytes, payloads, eraseSize);
      }
    }
  }

  /** Main result: verify ends in Ok exactly when the flash holds the file and every payload fits the
      comparison buffer; otherwise, if they all fit, it stops at the first byte that differs. The flash is
      never changed. */
  lemma VerifyDecidesEquality(dev: Device, adr: nat, maxBytes: nat, payloads: seq<seq<Byte>>, eraseSize: nat)
    requires eraseSize > 0 && adr + |Flat(payloads)| <= |dev.mem|
    ensures var r := Verified(dev, adr, maxBytes, payloads, eraseSize); var t := Close(r.t); var file := Flat(payloads);
            && r.dev == dev
            && (t.error == Ok <==> dev.mem[adr..adr + |file|] == file && Fits(payloads, maxBytes))
            && (t.error != Ok && Fits(payloads, maxBytes) ==>
                  && t.error == ErrCompareFail
                  && SameUpTo(dev.mem, adr, file, t.bytesTransfered)
                  && DiffersAt(dev.mem, adr, file, t.bytesTransfered))
  {
    hide Flat, Fits;
    FeedCompares(dev, adr, maxBytes, payloads, eraseSize);
    var file := Flat(payloads);
    var r := Verified(dev, adr, maxBytes, payloads, eraseSize);
    assert file[..|file|] == file;
    if r.t.error == ErrCompareFail {
      assert dev.mem[adr..adr + |file|][r.t.bytesTransfered] == dev.mem[adr + r.t.bytesTransfered];
    }
  }

  // ---- Save ----

  /** The engine asks for blocks of `blockSize` bytes until one comes back short. */
  function SavedBlocks(t: Transfer, mem: seq<Byte>, blockSize: nat): seq<seq<Byte>>
    requires t.kind == Save && 0 < blockSize && t.bytesTransfered <= t.sendLen && t.flashAdr + t.sendLen <= |mem|
    decreases t.sendLen - t.bytesTransfered
  {
    var (t', block) := TftpRead(t, mem, blockSize);
    if |block| < blockSize then [block] else [block] + SavedBlocks(t', mem, blockSize)
  }

  lemma Join(mem: seq<Byte>, a: nat, b: nat, c: nat)
    requires a <= b <= c <= |mem|
    ensures mem[a..b] + mem[b..c] == mem[a..c]
  {
  }

  lemma {:induction false} SavedBlocksAreFlash(t: Transfer, mem: seq<Byte>, blockSize: nat)
    requires t.kind == Save && 0 < blockSize && t.bytesTransfered <= t.sendLen && t.flashAdr + t.sendLen <= |mem|
    ensures var blocks := SavedBlocks(t, mem, blockSize);
            && Flat(blocks) == mem[t.flashAdr + t.bytesTransfered..t.flashAdr + t.sendLen]
            && FullThenShort(blocks, blockSize)
    decreases t.sendLen - t.bytesTransfered
  {
    hide Flat;
    var (t', block) := TftpRead(t, mem, blockSize);
    if |block| < blockSize {
      FlatOne(block);
    } else {
      var rest := SavedBlocks(t', mem, blockSize);
      SavedBlocksAreFlash(t', mem, blockSize);
      FlatCons(block, rest);
      Join(mem, t.flashAdr + t.bytesTransfered, t'.flashAdr + t'.bytesTransfered, t.flashAdr + t.sendLen);
    }
  }

  lemma FlatOne(block: seq<Byte>)
    ensures Flat([block]) == block
  {
    assert [block][..0] == [];
  }

  /** Full blocks, and then one that is not. */
  predicate FullThenShort(blocks: seq<seq<Byte>>, blockSize: nat) {
    && blocks != []
    && (forall k | 0 <= k < |blocks| - 1 :: |blocks[k]| == blockSize)
    && |blocks[|blocks| - 1]| < blockSize
  }

  function Saving(adr: nat, len: nat): Transfer { Started(Save, true, adr, 1024, len) }

  /** Main result: save sends exactly the requested bytes, as full blocks and then one short, possibly empty,
      block that tells the server the file is complete. */
  lemma SaveSendsFlash(mem: seq<Byte>, adr: nat, len: nat, blockSize: nat)
    requires 0 < blockSize && adr + len <= |mem|
    ensures var blocks := SavedBlocks(Saving(adr, len), mem, blockSize);
            && Flat(blocks) == mem[adr..adr + len]
            && (forall k | 0 <= k < |blocks| - 1 :: |blocks[k]| == blockSize)
            && blocks != [] && |blocks[|blocks| - 1]| < blockSize
            && |blocks| == len / blockSize + 1
  {
    SavedBlocksAreFlash(Saving(adr, len), mem, blockSize);
    CountBlocks(SavedBlocks(Saving(adr, len), mem, blockSize), blockSize);
  }

  lemma CountBlocks(blocks: seq<seq<Byte>>, blockSize: nat)
    requires 0 < blockSize && blocks != []
    requires forall k | 0 <= k < |blocks| - 1 :: |blocks[k]| == blockSize
    requires |blocks[|blocks| - 1]| < blockSize
    ensures |Flat(blocks)| / blockSize == |blocks| - 1
  {
    var full := blocks[..|blocks| - 1];
    FullBlocks(full, blockSize);
    Division.Unique(|Flat(blocks)|, |full|, |blocks[|blocks| - 1]|, blockSize);
  }

  lemma {:induction false} FullBlocks(blocks: seq<seq<Byte>>, blockSize: nat)
    requires forall k | 0 <= k < |blocks| :: |blocks[k]| == blockSize
    ensures |Flat(blocks)| == |blocks| * blockSize
  {
    if blocks != [] {
      FullBlocks(blocks[..|blocks| - 1], blockSize);
      FlatSplits(blocks);
      hide Flat;
      assert |blocks| * blockSize == (|blocks| - 1) * blockSize + blockSize;
    }
  }

  // ---- Round trips ----

  /** Main result: a download with autoerase, from whatever was in flash, is saved back as the same bytes and
      verifies, however either side is cut into payloads. */
  lemma DownloadSaveVerify(mem: seq<Byte>, adr: nat, payloads: seq<seq<Byte>>, eraseSize: nat, blockSize: nat,
                           again: seq<seq<Byte>>, maxBytes: nat)
    requires Download.Geometry(|mem|, eraseSize) && adr + |Flat(payloads)| <= |mem| && 0 < blockSize
    requires Download.Small(payloads, eraseSize)
    requires Download.StaysInBlock(adr, |Download.FirstPayload(payloads)|, eraseSize)
    requires Flat(again) == Flat(payloads) && Fits(again, maxBytes)
    ensures var r := Download.Flashed(true, mem, adr, payloads, eraseSize);
            && |r.dev.mem| == |mem|
            && Flat(SavedBlocks(Saving(adr, |Flat(payloads)|), r.dev.mem, blockSize)) == Flat(payloads)
            && Close(Verified(r.dev, adr, maxBytes, again, eraseSize).t).error == Ok
  {
    hide SavedBlocks, Verified, Download.Flashed, Flat, Fits, Download.Small;
    Download.AutoEraseLeavesImage(mem, adr, payloads, eraseSize);
    var r := Download.Flashed(true, mem, adr, payloads, eraseSize);
    SaveSendsFlash(r.dev.mem, adr, |Flat(payloads)|, blockSize);
    VerifyDecidesEquality(r.dev, adr, maxBytes, again, eraseSize);
  }

  /** Main result: after a download without autoerase, verify succeeds exactly when no bit of the file is 1
      where the flash already had a 0. */
  lemma NoEraseVerifiesIffOnlyClears(mem: seq<Byte>, adr: nat, payloads: seq<seq<Byte>>, eraseSize: nat, maxBytes: nat)
    requires eraseSize > 0 && adr + |Flat(payloads)| <= |mem| && Fits(payloads, maxBytes)
    ensures var r := Download.Flashed(false, mem, adr, payloads, eraseSize); var file := Flat(payloads);
            && |r.dev.mem| == |mem|
            && (Close(Verified(r.dev, adr, maxBytes, payloads, eraseSize).t).error == Ok
                <==> forall k | 0 <= k < |file| :: file[k] & !mem[adr + k] == 0)
  {
    hide Verified, Download.Flashed, Flat, Fits, Meet;
    Download.NoEraseIsMeet(mem, adr, payloads, eraseSize);
    var r, file := Download.Flashed(false, mem, adr, payloads, eraseSize), Flat(payloads);
    VerifyDecidesEquality(r.dev, adr, maxBytes, payloads, eraseSize);
    forall k | 0 <= k < |file|
      ensures r.dev.mem[adr..adr + |file|][k] == file[k] <==> file[k] & !mem[adr + k] == 0
    {
      OnlyClears(mem[adr + k], file[k]);
    }
  }
}
