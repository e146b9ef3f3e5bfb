/** The TFTP callbacks (fw/pano_ldr/tftp_ldr.c): flashing, verifying and saving. The TFTP engine that calls
    them is not part of this model; it hands over one payload per data packet and stops at the first error. */
module TftpLoader {
  import opened NorFlash
  import opened Words

  const INVALID_FLASH_ADR := 0xffff_ffff

  datatype Kind = ToFlash | Compare | Save

  datatype Status = Ok | ErrBufTooSmall | ErrCompareFail | InProgress | ErrInternal

  datatype Transfer = Transfer(kind: Kind, autoErase: bool, flashAdr: nat, maxBytes: nat, sendLen: nat,
                               bytesTransfered: nat, lastEraseAdr: nat, error: Status)

  datatype State = State(t: Transfer, dev: Device)

  /** The handle as `ldr_tftp_init` leaves it once the transfer has started. */
  function Started(kind: Kind, autoErase: bool, flashAdr: nat, maxBytes: nat, sendLen: nat): Transfer {
    Transfer(kind, autoErase, flashAdr, maxBytes, sendLen, 0, INVALID_FLASH_ADR, InProgress)
  }

  function Total(chain: seq<seq<Byte>>): nat {
    if chain == [] then 0 else |chain[0]| + Total(chain[1..])
  }

  // ---- tftp_write ----

  /** How far two equally long byte strings agree. */
  function Agree(a: seq<Byte>, b: seq<Byte>): (n: nat)
    requires |a| == |b|
    ensures n <= |a|
    ensures a[..n] == b[..n] && (n < |a| ==> a[n] != b[n])
  {
    if a == [] || a[0] != b[0] then 0 else
      var n := Agree(a[1..], b[1..]);
      assert a[..n + 1] == [a[0]] + a[1..][..n] && b[..n + 1] == [b[0]] + b[1..][..n];
      n + 1
  }

  /** The lazy erase: at most one block per buffer, when the buffer ends outside the last block erased. */
  function EraseAhead(s: State, adr: nat, len: nat, eraseSize: nat): State
    requires eraseSize > 0
  {
    var lastAdr := (adr + len - 1) % WORDS;
    if s.t.autoErase && s.t.lastEraseAdr != BlockOf(lastAdr, eraseSize) then
      BlockBounds(adr, eraseSize);
      var next := if s.t.lastEraseAdr == INVALID_FLASH_ADR then BlockOf(adr, eraseSize)
                  else (s.t.lastEraseAdr + eraseSize) % WORDS;
      State(s.t.(lastEraseAdr := next), EraseDevice(s.dev, next, eraseSize))
    else s
  }

  function Advance(t: Transfer, len: nat): Transfer {
    if t.error == InProgress then t.(bytesTransfered := t.bytesTransfered + len) else t
  }

  /** One buffer of the chain; `adr` is the address computed on entry. */
  function WriteBuf(s: State, adr: nat, buf: seq<Byte>, eraseSize: nat): State
    requires eraseSize > 0 && adr + |buf| <= |s.dev.mem|
  {
    match s.t.kind
    case ToFlash =>
      var e := EraseAhead(s, adr, |buf|, eraseSize);
      State(Advance(e.t, |buf|), ProgramDevice(e.dev, adr, buf))
    case Compare =>
      if |buf| > s.t.maxBytes then s.(t := s.t.(error := ErrBufTooSmall))
      else
        var n := Agree(s.dev.mem[adr..adr + |buf|], buf);
        s.(t := if n < |buf| then s.t.(bytesTransfered := s.t.bytesTransfered + n, error := ErrCompareFail)
                else Advance(s.t, n))
    case Save => s.(t := s.t.(error := ErrInternal))
  }

  /** The loop over a pbuf chain: every buffer goes to the address computed on entry. */
  function WriteChain(s: State, adr: nat, chain: seq<seq<Byte>>, eraseSize: nat): State
    requires eraseSize > 0 && adr + Total(chain) <= |s.dev.mem|
    decreases |chain|
  {
    if Total(chain) == 0 then s
    else
      var s' := WriteBuf(s, adr, chain[0], eraseSize);
      if s'.t.error != InProgress then s' else WriteChain(s', adr, chain[1..], eraseSize)
  }

  function TftpWrite(s: State, chain: seq<seq<Byte>>, eraseSize: nat): State
    requires eraseSize > 0 && s.t.flashAdr + s.t.bytesTransfered + Total(chain) <= |s.dev.mem|
  {
    WriteChain(s, s.t.flashAdr + s.t.bytesTransfered, chain, eraseSize)
  }

  // ---- tftp_read ----

  /** The next bytes of a save, cut off at the requested length. */
  function TftpRead(t: Transfer, mem: seq<Byte>, len: nat): (Transfer, seq<Byte>)
    requires t.kind == Save && t.bytesTransfered <= t.sendLen && t.flashAdr + t.sendLen <= |mem|
  {
    var n := if t.bytesTransfered + len > t.sendLen then t.sendLen - t.bytesTransfered else len;
    var adr := t.flashAdr + t.bytesTransfered;
    (t.(bytesTransfered := t.bytesTransfered + n), mem[adr..adr + n])
  }

  // ---- Payloads in one buffer and in several ----

  /** A payload in a single buffer, as a 512-byte TFTP block in a pool buffer is. */
  lemma SingleBuffer(s: State, p: seq<Byte>, eraseSize: nat)
    requires eraseSize > 0 && s.t.flashAdr + s.t.bytesTransfered + |p| <= |s.dev.mem|
    ensures Total([p]) == |p|
    ensures TftpWrite(s, [p], eraseSize)
            == if p == [] then s else WriteBuf(s, s.t.flashAdr + s.t.bytesTransfered, p, eraseSize)
  {
    hide WriteBuf;
    assert [p][1..] == [] && Total([p]) == |p|;
    if p != [] {
      var adr := s.t.flashAdr + s.t.bytesTransfered;
      assert WriteChain(s, adr, [p], eraseSize) == WriteBuf(s, adr, p, eraseSize);
    }
  }

  /** Data for a save is an internal error, and nothing is written. */
  lemma SaveRejectsData(s: State, chain: seq<seq<Byte>>, eraseSize: nat)
    requires eraseSize > 0 && s.t.flashAdr + s.t.bytesTransfered + Total(chain) <= |s.dev.mem|
    requires s.t.kind == Save && Total(chain) > 0
    ensures TftpWrite(s, chain, eraseSize) == s.(t := s.t.(error := ErrInternal))
  {
  }

  // ---- Streams of payloads ----

  lemma PayloadBounds(s: State, p: seq<Byte>, eraseSize: nat)
    requires eraseSize > 0 && s.t.flashAdr + s.t.bytesTransfered + |p| <= |s.dev.mem|
    ensures Total([p]) == |p|
    ensures var r := TftpWrite(s, [p], eraseSize);
            && |r.dev.mem| == |s.dev.mem| && r.t.flashAdr == s.t.flashAdr
            && r.t.bytesTransfered <= s.t.bytesTransfered + |p|
  {
    hide TftpWrite, BlockOf;
    SingleBuffer(s, p, eraseSize);
  }

  /** The engine delivers the payloads one by one until a callback fails. */
  function Feed(s: State, payloads: seq<seq<Byte>>, eraseSize: nat): (r: State)
    requires eraseSize > 0
    requires s.t.flashAdr + s.t.bytesTransfered + |Flat(payloads)| <= |s.dev.mem|
    ensures |r.dev.mem| == |s.dev.mem| && r.t.flashAdr == s.t.flashAdr
    ensures r.t.bytesTransfered <= s.t.bytesTransfered + |Flat(payloads)|
  {
    hide Flat, TftpWrite;
    if payloads == [] then s
    else
      var p := payloads[|payloads| - 1];
      FlatSplits(payloads);
      var r := Feed(s, payloads[..|payloads| - 1], eraseSize);
      if r.t.error != InProgress then r
      else
        PayloadBounds(r, p, eraseSize);
        TftpWrite(r, [p], eraseSize)
  }

  /** tftp_close. */
  function Close(t: Transfer): Transfer {
    if t.error == InProgress then t.(error := Ok) else t
  }

  // ---- Where a chain is written ----

  /** The write commands among the commands. */
  function Writes(ops: seq<Op>): seq<Op> {
    if ops == [] then [] else (if ops[0].Programmed? then [ops[0]] else []) + Writes(ops[1..])
  }

  /** One write per buffer, as long as data is left, and all at the same address. */
  function ChainWrites(adr: nat, chain: seq<seq<Byte>>): seq<Op> {
    if Total(chain) == 0 then [] else [Programmed(adr, |chain[0]|)] + ChainWrites(adr, chain[1..])
  }

  lemma BufferOps(s: State, adr: nat, buf: seq<Byte>, eraseSize: nat, more: seq<Op>) returns (ops: seq<Op>)
    requires eraseSize > 0 && adr + |buf| <= |s.dev.mem| && s.t.kind == ToFlash
    ensures WriteBuf(s, adr, buf, eraseSize).dev.ops == s.dev.ops + ops
    ensures Writes(ops + more) == [Programmed(adr, |buf|)] + Writes(more)
  {
    hide Program, Erase, BlockOf;
    var write := Programmed(adr, |buf|);
    ops := EraseAhead(s, adr, |buf|, eraseSize).dev.ops[|s.dev.ops|..] + [write];
    assert ([write] + more)[1..] == more;
    if |ops| == 2 {
      assert (ops + more)[1..] == [write] + more;
    } else {
      assert ops + more == [write] + more;
    }
  }

  lemma {:induction false} ChainIsWritten(s: State, adr: nat, chain: seq<seq<Byte>>, eraseSize: nat)
    returns (ops: seq<Op>)
    requires eraseSize > 0 && adr + Total(chain) <= |s.dev.mem|
    requires s.t.kind == ToFlash && s.t.error == InProgress
    ensures WriteChain(s, adr, chain, eraseSize).dev.ops == s.dev.ops + ops
    ensures Writes(ops) == ChainWrites(adr, chain)
    decreases |chain|
  {
    ops := [];
    if Total(chain) != 0 {
      hide EraseAhead, Program;
      var later := ChainIsWritten(WriteBuf(s, adr, chain[0], eraseSize), adr, chain[1..], eraseSize);
      var first := BufferOps(s, adr, chain[0], eraseSize, later);
      ops := first + later;
    }
  }

  /** The writes lie one after the other from `adr` on. */
  predicate Consecutive(adr: nat, ops: seq<Op>)
    decreases |ops|
  {
    ops == [] || (ops[0].Programmed? && ops[0].adr == adr && Consecutive(adr + ops[0].len, ops[1..]))
  }

  /** No data follows the first buffer that has any. */
  predicate OneDataBuffer(chain: seq<seq<Byte>>) {
    chain == [] || Total(chain[1..]) == 0 || (chain[0] == [] && OneDataBuffer(chain[1..]))
  }

  /** Main result: with and without autoerase, the write commands of a payload lie one after the other exactly
      when only one of its buffers has data: the address is computed once, on entry, and every buffer goes
      there. */
  lemma ChainIsConsecutive(s: State, chain: seq<seq<Byte>>, eraseSize: nat)
    requires eraseSize > 0 && s.t.flashAdr + s.t.bytesTransfered + Total(chain) <= |s.dev.mem|
    requires s.t.kind == ToFlash && s.t.error == InProgress
    ensures var ops := TftpWrite(s, chain, eraseSize).dev.ops;
            && s.dev.ops <= ops
            && (Consecutive(s.t.flashAdr + s.t.bytesTransfered, Writes(ops[|s.dev.ops|..])) <==> OneDataBuffer(chain))
  {
    hide Consecutive, OneDataBuffer, Writes, ChainWrites, WriteChain, Total;
    var adr := s.t.flashAdr + s.t.bytesTransfered;
    var ops := ChainIsWritten(s, adr, chain, eraseSize);
    assert (s.dev.ops + ops)[|s.dev.ops|..] == ops;
    WritesAreConsecutive(adr, chain);
  }

  lemma {:induction false} WritesAreConsecutive(adr: nat, chain: seq<seq<Byte>>)
    ensures Consecutive(adr, ChainWrites(adr, chain)) <==> OneDataBuffer(chain)
  {
    var ops := ChainWrites(adr, chain);
    if Total(chain) == 0 {
      NoData(chain);
    } else {
      assert ops[1..] == ChainWrites(adr, chain[1..]);
      if chain[0] == [] {
        WritesAreConsecutive(adr, chain[1..]);
      }
    }
  }

  lemma NoData(chain: seq<seq<Byte>>)
    requires Total(chain) == 0
    ensures OneDataBuffer(chain)
  {
  }

  // ---- The handle, updated in place by the callbacks ----

  class Handle {
    const flash: Flash
    var kind: Kind
    var autoErase: bool
    var flashAdr: nat
    var maxBytes: nat
    var sendLen: nat
    var bytesTransfered: nat
    var lastEraseAdr: nat
    var error: Status

    ghost function Snapshot(): State
      reads this, flash, flash.mem
    {
      State(Transfer(kind, autoErase, flashAdr, maxBytes, sendLen, bytesTransfered, lastEraseAdr, error),
                       flash.State())
    }

    constructor (flash: Flash, kind: Kind, autoErase: bool, flashAdr: nat, maxBytes: nat, sendLen: nat)
      ensures this.flash == flash
      ensures Snapshot() == State(Started(kind, autoErase, flashAdr, maxBytes, sendLen), flash.State())
    {
      this.flash, this.kind, this.autoErase := flash, kind, autoErase;
      this.flashAdr, this.maxBytes, this.sendLen := flashAdr, maxBytes, sendLen;
      bytesTransfered, lastEraseAdr, error := 0, INVALID_FLASH_ADR, InProgress;
    }

    /** tftp_write: a chain of buffers from the engine; 0 asks for more, -1 stops the transfer. */
    method Write(chain: seq<seq<Byte>>) returns (ret: int)
      requires flash.eraseSize > 0 && flashAdr + bytesTransfered + Total(chain) <= flash.mem.Length
      modifies `bytesTransfered, `lastEraseAdr, `error, flash`ops, flash.mem
      ensures Snapshot() == TftpWrite(old(Snapshot()), chain, flash.eraseSize)
      ensures ret == if 0 < Total(chain) && error != InProgress then -1 else 0
    {
      hide WriteBuf, BlockOf;
      var adr := flashAdr + bytesTransfered;
      var totalLen := Total(chain);
      var len, k := 0, 0;
      ret := 0;
      while ret == 0 && len < totalLen
        invariant 0 <= k <= |chain| && 0 <= len && len + Total(chain[k..]) == totalLen
        invariant adr + totalLen <= flash.mem.Length
        invariant ret == 0 || ret == -1
        invariant ret == 0 && 0 < k ==> error == InProgress
        invariant ret == -1 ==> error != InProgress && 0 < totalLen
        invariant WriteChain(old(Snapshot()), adr, chain, flash.eraseSize)
                  == if ret == 0 then WriteChain(Snapshot(), adr, chain[k..], flash.eraseSize) else Snapshot()
        decreases |chain| - k, ret + 1
      {
        assert chain[k..][0] == chain[k] && chain[k..][1..] == chain[k + 1..];
        WriteOne(adr, chain[k]);
        if error != InProgress {
          ret := -1;
        } else {
          len := len + |chain[k]|;
          k := k + 1;
        }
      }
    }

    method WriteOne(adr: nat, buf: seq<Byte>)
      requires flash.eraseSize > 0 && adr + |buf| <= flash.mem.Length
      modifies `bytesTransfered, `lastEraseAdr, `error, flash`ops, flash.mem
      ensures Snapshot() == WriteBuf(old(Snapshot()), adr, buf, flash.eraseSize)
    {
      hide EraseAhead, Agree;
      match kind {
        case ToFlash =>
          EraseIfNeeded(adr, |buf|);
          flash.Write(adr, buf);
        case Compare =>
          if |buf| > maxBytes {
            error := ErrBufTooSmall;
          } else {
            var ram := flash.Read(adr, |buf|);
            if ram != buf {
              FindDifference(ram, buf);
              error := ErrCompareFail;
            } else {
              AgreeAll(buf);
            }
          }
        case Save =>
          error := ErrInternal;
      }
      if error == InProgress {
        bytesTransfered := bytesTransfered + |buf|;
      }
    }

    method EraseIfNeeded(adr: nat, len: nat)
      requires flash.eraseSize > 0
      modifies `lastEraseAdr, flash`ops, flash.mem
      ensures Snapshot() == EraseAhead(old(Snapshot()), adr, len, flash.eraseSize)
    {
      BlockBounds(adr, flash.eraseSize);
      hide BlockOf, Erase;
      var eraseSize := flash.eraseSize;
      var eraseEnd := BlockOf((adr + len - 1) % WORDS, eraseSize);
      if autoErase && lastEraseAdr != eraseEnd {
        if lastEraseAdr == INVALID_FLASH_ADR {
          lastEraseAdr := BlockOf(adr, eraseSize);
        } else {
          lastEraseAdr := (lastEraseAdr + eraseSize) % WORDS;
        }
        flash.EraseRange(lastEraseAdr, eraseSize);
      }
    }

    /** Counts the bytes before the point of failure as transferred. */
    method FindDifference(ram: seq<Byte>, buf: seq<Byte>)
      requires |ram| == |buf|
      modifies `bytesTransfered
      ensures bytesTransfered == old(bytesTransfered) + Agree(ram, buf)
    {
      var i := 0;
      while i < |buf|
        invariant 0 <= i <= |buf| && bytesTransfered == old(bytesTransfered) + i
        invariant Agree(ram, buf) == i + Agree(ram[i..], buf[i..])
      {
        if ram[i] != buf[i] {
          break;
        }
        assert ram[i..][1..] == ram[i + 1..] && buf[i..][1..] == buf[i + 1..];
        bytesTransfered := bytesTransfered + 1;
        i := i + 1;
      }
    }

    /** tftp_read: fills the engine's buffer for a save and returns how much; any other transfer gets -1. */
    method Read(len: nat) returns (ret: int, data: seq<Byte>)
      requires kind == Save ==> bytesTransfered <= sendLen && flashAdr + sendLen <= flash.mem.Length
      modifies `bytesTransfered
      ensures kind == Save ==> (Snapshot().t, data) == TftpRead(old(Snapshot().t), flash.mem[..], len) && ret == |data|
      ensures kind != Save ==> ret == -1 && data == [] && Snapshot() == old(Snapshot())
    {
      if kind == Save {
        var n := len;
        if bytesTransfered + n > sendLen {
          n := sendLen - bytesTransfered;
        }
        data := flash.Read(flashAdr + bytesTransfered, n);
        bytesTransfered := bytesTransfered + n;
        ret := n;
      } else {
        ret, data := -1, [];
      }
    }

    method CloseTransfer()
      modifies `error
      ensures Snapshot().t == Close(old(Snapshot().t))
    {
      if error == InProgress {
        error := Ok;
      }
    }
  }

  lemma AgreeAll(buf: seq<Byte>)
    ensures Agree(buf, buf) == |buf|
  {
  }
}
