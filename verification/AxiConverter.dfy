/** The converter as the clocked module it is: registers, reset, and one method per clock edge. */
module AxiConverter {
  import opened AxiBurst
  import opened Words
  import AxiWrite
  import AxiRead

  class Converter {
    var awMask: bool
    var wMask: bool
    var arMask: bool

    var arValid: bool
    var arAddr: Word
    var arCnt: Len
    var arId: int
    var arLen: Len
    var arBurst: BurstType

    var awValid: bool
    var awAddr: Word
    var awCnt: Len
    var awId: int
    var awLen: Len
    var awBurst: BurstType
    var bLast: bool

    // What has crossed the ports since reset.
    ghost var writeTrace: AxiWrite.Trace
    ghost var readTrace: AxiRead.Trace

    function WriteRegs(): AxiWrite.Regs
      reads this
    {
      AxiWrite.Regs(awMask, wMask, awValid, awAddr, awCnt, awId, awLen, awBurst, bLast)
    }

    function ReadRegs(): AxiRead.Regs
      reads this
    {
      AxiRead.Regs(arMask, arValid, arAddr, arCnt, arId, arLen, arBurst)
    }

    ghost predicate Valid()
      reads this
    {
      && AxiWrite.Inv(WriteRegs(), writeTrace)
      && AxiRead.Inv(ReadRegs(), readTrace)
    }

    constructor ()
      ensures Valid()
      ensures WriteRegs() == AxiWrite.RESET && ReadRegs() == AxiRead.RESET
      ensures writeTrace == AxiWrite.NOTHING && readTrace == AxiRead.NOTHING
    {
      awMask, wMask, arMask := false, false, false;
      arValid, arAddr, arCnt, arId, arLen, arBurst := false, 0, 0, 0, 0, Fixed;
      awValid, awAddr, awCnt, awId, awLen, awBurst, bLast := false, 0, 0, 0, 0, Fixed, false;
      writeTrace, readTrace := AxiWrite.NOTHING, AxiRead.NOTHING;
    }

    /** One rising clock edge with reset inactive. Both neighbours keeping their contracts in this cycle,
        the edge keeps the refinement of everything seen so far. */
    method Clock(w: AxiWrite.Inputs, r: AxiRead.Inputs)
      requires Valid() && AxiWrite.Keeps(writeTrace, w) && AxiRead.Keeps(readTrace, r)
      modifies this
      ensures Valid()
      ensures WriteRegs() == AxiWrite.Next(old(WriteRegs()), w)
      ensures ReadRegs() == AxiRead.Next(old(ReadRegs()), r)
      ensures writeTrace == AxiWrite.Observe(old(writeTrace), old(WriteRegs()), w)
      ensures readTrace == AxiRead.Observe(old(readTrace), old(ReadRegs()), r)
    {
      hide AxiWrite.Inv, AxiWrite.Keeps, AxiWrite.Next, AxiWrite.Observe;
      hide AxiRead.Inv, AxiRead.Keeps, AxiRead.Next, AxiRead.Observe;
      ghost var w0, r0 := WriteRegs(), ReadRegs();
      ClockWrite(w);
      ClockRead(r);
      AxiWrite.StepKeepsInv(w0, writeTrace, w);
      AxiRead.StepKeepsInv(r0, readTrace, r);
      writeTrace := AxiWrite.Observe(writeTrace, w0, w);
      readTrace := AxiRead.Observe(readTrace, r0, r);
    }

    method ClockWrite(i: AxiWrite.Inputs)
      modifies `awMask, `wMask, `awValid, `awAddr, `awCnt, `awId, `awLen, `awBurst, `bLast
      ensures WriteRegs() == AxiWrite.Next(old(WriteRegs()), i)
    {
      hide CalculateAddrNext;
      hide AxiWrite.AwAccepted, AxiWrite.WAccepted, AxiWrite.BAccepted, AxiWrite.LiteAwAccepted;
      var awTaken, wTaken, bTaken, liteTaken := WriteWires(i);
      UpdateMasks(awTaken, wTaken, bTaken);
      if awValid && liteTaken {
        ContinueBurst();
      } else if awTaken {
        AcceptCommand(i.aw, wTaken, i.wLast);
      } else if bTaken {
        bLast := false;
      }
    }

    /** The handshakes of this cycle. */
    method WriteWires(i: AxiWrite.Inputs) returns (awTaken: bool, wTaken: bool, bTaken: bool, liteTaken: bool)
      ensures awTaken == AxiWrite.AwAccepted(WriteRegs(), i) && wTaken == AxiWrite.WAccepted(i)
      ensures bTaken == AxiWrite.BAccepted(WriteRegs(), i) && liteTaken == AxiWrite.LiteAwAccepted(WriteRegs(), i)
    {
      awTaken := i.awValid && i.outAwReady && !awMask;
      wTaken := i.wValid && i.outWReady;
      bTaken := i.outBValid && bLast && i.bReady;
      liteTaken := ((i.awValid && i.wValid && !awMask) || (awValid && i.wValid)) && i.outAwReady;
    }

    /** The held command moves to its next beat; the last one hands over to the B channel. */
    method ContinueBurst()
      modifies `awAddr, `awValid, `bLast, `awCnt
      ensures awAddr == CalculateAddrNext(old(awAddr), awBurst, awLen)
      ensures awValid == (old(awCnt) != 1 && old(awValid)) && bLast == (old(awCnt) == 1 || old(bLast))
      ensures awCnt == (old(awCnt) - 1) % 256
    {
      hide CalculateAddrNext;
      awAddr := CalculateAddrNext(awAddr, awBurst, awLen);
      if awCnt == 1 {
        awValid := false;
        bLast := true;
      }
      awCnt := (awCnt - 1) % 256;
    }

    /** A new command; its first beat may be passing through in the same cycle. */
    method AcceptCommand(aw: Command, dataReady: bool, wLast: bool)
      modifies `awId, `awValid, `awCnt, `awAddr, `awLen, `awBurst, `bLast
      ensures awId == aw.id && awLen == aw.len && awBurst == aw.burst
      ensures awValid == !(dataReady && wLast) && bLast == (dataReady && wLast)
      ensures awCnt == if dataReady then aw.len else (aw.len + 1) % 256
      ensures awAddr == if dataReady then CalculateAddrNext(aw.addr, aw.burst, aw.len) else aw.addr
    {
      hide CalculateAddrNext;
      awId := aw.id;
      if dataReady {
        awValid := !wLast;
        awCnt := aw.len;
        awAddr := CalculateAddrNext(aw.addr, aw.burst, aw.len);
        bLast := wLast;
      } else {
        awValid := true;
        awCnt := (aw.len + 1) % 256;
        awAddr := aw.addr;
        bLast := false;
      }
      awLen := aw.len;
      awBurst := aw.burst;
    }

    method UpdateMasks(awTaken: bool, wTaken: bool, bTaken: bool)
      modifies `awMask, `wMask
      ensures awMask == (awTaken || (old(awMask) && !bTaken))
      ensures wMask == (wTaken || (old(wMask) && !bTaken))
    {
      if bTaken {
        awMask := false;
        wMask := false;
      }
      if awTaken {
        awMask := true;
      }
      if wTaken {
        wMask := true;
      }
    }

    method ClockRead(i: AxiRead.Inputs)
      modifies `arMask, `arValid, `arAddr, `arCnt, `arId, `arLen, `arBurst
      ensures ReadRegs() == AxiRead.Next(old(ReadRegs()), i)
    {
      var arReady := i.outArReady && !arMask;
      var rLast := arCnt == 0;
      var outArValid := (i.arValid && !arMask) || arValid;

      if i.outRValid && rLast && i.rReady {
        arMask := false;
      }
      if i.arValid && arReady {
        arMask := true;
      }

      if arValid && outArValid && i.outArReady {
        arAddr := CalculateAddrNext(arAddr, arBurst, arLen);
        if arCnt == 1 {
          arValid := false;
        }
        arCnt := (arCnt - 1) % 256;
      } else if i.arValid && arReady {
        arValid := i.ar.len != 0;
        arCnt := i.ar.len;
        arLen := i.ar.len;
        arBurst := i.ar.burst;
        arAddr := CalculateAddrNext(i.ar.addr, i.ar.burst, i.ar.len);
        arId := i.ar.id;
      }
    }
  }
}
