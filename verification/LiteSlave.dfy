/** The AXI4-Lite slave port that fpga/gpio.v and fpga/eth_axi4lite.v share: write address / data split,
    accept logic, B and R responses. One clock edge is one step. */
module LiteSlave {
  import opened Words

  type Offset = x: int | 0 <= x < 256

  /** awvalid_q, wvalid_q, wr_addr_q, wr_data_q, bvalid_q, rvalid_q, rd_data_q. */
  datatype Regs = Regs(awValid: bool, wValid: bool, wrAddr: Offset, wrData: bv32,
                       bValid: bool, rValid: bool, rdData: bv32)

  /** What the master drives during one cycle; the write strobes are not used by either slave. */
  datatype Inputs = Inputs(awValid: bool, awAddr: Word, wValid: bool, wData: bv32, bReady: bool,
                           arValid: bool, arAddr: Word, rReady: bool)

  const RESET := Regs(false, false, 0, 0, false, false, 0)

  /** Address bits 7:0. */
  function Low(addr: Word): Offset { addr % 256 }

  // ---- Accept logic ----

  predicate AwReady(s: Regs, i: Inputs) { !s.bValid && !i.arValid && !s.awValid }

  predicate WReady(s: Regs, i: Inputs) { !s.bValid && !i.arValid && !s.wValid }

  predicate AwAccepted(s: Regs, i: Inputs) { i.awValid && AwReady(s, i) }

  predicate WAccepted(s: Regs, i: Inputs) { i.wValid && WReady(s, i) }

  predicate BAccepted(s: Regs, i: Inputs) { s.bValid && i.bReady }

  predicate RAccepted(s: Regs, i: Inputs) { s.rValid && i.rReady }

  predicate ReadEnable(s: Regs, i: Inputs) { i.arValid && !s.rValid }

  predicate CmdAccepted(s: Regs, i: Inputs) { AwAccepted(s, i) || s.awValid }

  predicate DataAccepted(s: Regs, i: Inputs) { WAccepted(s, i) || s.wValid }

  predicate WriteEnable(s: Regs, i: Inputs) { CmdAccepted(s, i) && DataAccepted(s, i) }

  function WriteAddr(s: Regs, i: Inputs): Offset { if s.awValid then s.wrAddr else Low(i.awAddr) }

  /** The data that belongs to the write being committed, wherever it is: on the bus or in wr_data_q. */
  function PairedData(s: Regs, i: Inputs): bv32 { if s.wValid then s.wrData else i.wData }

  /** `muxed` is data_r, the addressed register as it is in this cycle. */
  function Next(s: Regs, i: Inputs, muxed: bv32): Regs {
    Regs(
      if AwAccepted(s, i) && !DataAccepted(s, i) then true else if DataAccepted(s, i) then false else s.awValid,
      if WAccepted(s, i) && !CmdAccepted(s, i) then true else if CmdAccepted(s, i) then false else s.wValid,
      if AwAccepted(s, i) then Low(i.awAddr) else s.wrAddr,
      if WAccepted(s, i) then i.wData else s.wrData,
      if WriteEnable(s, i) then true else if i.bReady then false else s.bValid,
      if ReadEnable(s, i) then true else if i.rReady then false else s.rValid,
      if !s.rValid || i.rReady then muxed else s.rdData)
  }

  // ---- What an observer of the port has seen ----

  datatype Write = Write(addr: Offset, data: bv32)
  datatype Read = Read(addr: Offset, data: bv32)

  /** Accepted addresses and data in order of arrival, writes committed, B and R transfers, and the
      reads accepted, with the value of the addressed register at that moment. */
  datatype Trace = Trace(aws: seq<Offset>, ws: seq<bv32>, writes: seq<Write>, bs: nat, fetched: seq<Read>, rs: seq<bv32>)

  const NOTHING := Trace([], [], [], 0, [], [])

  function Observe(t: Trace, s: Regs, i: Inputs, muxed: bv32): Trace {
    Trace(
      if AwAccepted(s, i) then t.aws + [Low(i.awAddr)] else t.aws,
      if WAccepted(s, i) then t.ws + [i.wData] else t.ws,
      if WriteEnable(s, i) then t.writes + [Write(WriteAddr(s, i), PairedData(s, i))] else t.writes,
      if BAccepted(s, i) then t.bs + 1 else t.bs,
      if ReadEnable(s, i) then t.fetched + [Read(Low(i.arAddr), muxed)] else t.fetched,
      if RAccepted(s, i) then t.rs + [s.rdData] else t.rs)
  }

  // ---- The specification: the k-th address meets the k-th data, whichever came first ----

  /** Writes are the addresses zipped with the data; each is answered by one B, and at most one address
      or one datum is waiting for its partner. */
  ghost predicate WritesPair(t: Trace) {
    && |t.writes| <= |t.aws| && |t.writes| <= |t.ws|
    && (forall k | 0 <= k < |t.writes| :: t.writes[k] == Write(t.aws[k], t.ws[k]))
    && (|t.aws| == |t.writes| || |t.ws| == |t.writes|)
    && |t.aws| <= |t.writes| + 1 && |t.ws| <= |t.writes| + 1
    && t.bs <= |t.writes| <= t.bs + 1
  }

  /** R transfers are the values read at acceptance, in order. */
  ghost predicate ReadsReturn(t: Trace) {
    && |t.rs| <= |t.fetched| <= |t.rs| + 1
    && (forall k | 0 <= k < |t.rs| :: t.rs[k] == t.fetched[k].data)
  }

  /** awvalid_q, wvalid_q and bvalid_q say what is waiting, and for which write. */
  ghost predicate WriteState(s: Regs, t: Trace) {
    && s.awValid == (|t.aws| == |t.writes| + 1)
    && s.wValid == (|t.ws| == |t.writes| + 1)
    && s.bValid == (|t.writes| == t.bs + 1)
    && (s.bValid ==> !s.awValid && !s.wValid)
    && (s.awValid ==> s.wrAddr == t.aws[|t.aws| - 1])
    && (t.ws != [] ==> s.wrData == t.ws[|t.ws| - 1])
  }

  ghost predicate ReadState(s: Regs, t: Trace) {
    && s.rValid == (|t.fetched| == |t.rs| + 1)
    && (s.rValid ==> s.rdData == t.fetched[|t.rs|].data)
  }

  ghost predicate Inv(s: Regs, t: Trace) {
    WritesPair(t) && WriteState(s, t) && ReadsReturn(t) && ReadState(s, t)
  }

  lemma StepKeepsPairs(s: Regs, t: Trace, i: Inputs, muxed: bv32)
    requires WritesPair(t) && WriteState(s, t)
    ensures WritesPair(Observe(t, s, i, muxed))
  {
  }

  lemma StepKeepsWriteState(s: Regs, t: Trace, i: Inputs, muxed: bv32)
    requires WritesPair(t) && WriteState(s, t)
    ensures WriteState(Next(s, i, muxed), Observe(t, s, i, muxed))
  {
  }

  lemma StepKeepsReads(s: Regs, t: Trace, i: Inputs, muxed: bv32)
    requires ReadsReturn(t) && ReadState(s, t)
    ensures ReadsReturn(Observe(t, s, i, muxed)) && ReadState(Next(s, i, muxed), Observe(t, s, i, muxed))
  {
  }

  lemma StepKeepsInv(s: Regs, t: Trace, i: Inputs, muxed: bv32)
    requires Inv(s, t)
    ensures Inv(Next(s, i, muxed), Observe(t, s, i, muxed))
  {
    hide WritesPair, WriteState, ReadsReturn, ReadState, Next, Observe;
    StepKeepsPairs(s, t, i, muxed);
    StepKeepsWriteState(s, t, i, muxed);
    StepKeepsReads(s, t, i, muxed);
  }

  /** Nothing blocks: with no B pending and no read presented an address and a datum are taken, unless one
      already waits; a write commits as soon as both are there; B and R are handed over as soon as the master
      takes them; and a read is accepted as soon as the R before it has been taken. Registers are addressed by
      bits 7:0 of the bus address. */
  lemma NothingBlocks(s: Regs, t: Trace, i: Inputs, muxed: bv32)
    requires Inv(s, t)
    ensures var t' := Observe(t, s, i, muxed);
            && (i.awValid && !i.arValid && t.bs == |t.writes| == |t.aws| ==> t'.aws == t.aws + [i.awAddr % 256])
            && (i.wValid && !i.arValid && t.bs == |t.writes| == |t.ws| ==> t'.ws == t.ws + [i.wData])
            && (|t'.aws| > |t.writes| && |t'.ws| > |t.writes| ==> |t'.writes| == |t.writes| + 1)
            && (t.bs < |t.writes| && i.bReady ==> t'.bs == t.bs + 1)
            && (i.arValid && |t.rs| == |t.fetched| ==> t'.fetched == t.fetched + [Read(i.arAddr % 256, muxed)])
            && (|t.rs| < |t.fetched| && i.rReady ==> |t'.rs| == |t.rs| + 1)
  {
  }

  /** And nothing else happens: what is taken is on the bus, and at the port's own pace. */
  lemma OnlyFromBus(s: Regs, t: Trace, i: Inputs, muxed: bv32)
    requires Inv(s, t)
    ensures var t' := Observe(t, s, i, muxed);
            && (t'.aws == t.aws || (i.awValid && !i.arValid && t'.aws == t.aws + [i.awAddr % 256]))
            && (t'.ws == t.ws || (i.wValid && !i.arValid && t'.ws == t.ws + [i.wData]))
            && (t'.fetched == t.fetched || (i.arValid && t'.fetched == t.fetched + [Read(i.arAddr % 256, muxed)]))
  {
  }

  /** wr_data_q holds the data of the latest committed write until its B has been taken. */
  lemma RetimedDataIsLatest(s: Regs, t: Trace)
    requires WritesPair(t) && WriteState(s, t) && s.bValid
    ensures t.writes != [] && t.writes[|t.writes| - 1].data == s.wrData
  {
  }

  /** The data written to one register, in order. */
  function DataTo(writes: seq<Write>, addr: Offset): seq<bv32> {
    if writes == [] then [] else
      var w := writes[|writes| - 1];
      DataTo(writes[..|writes| - 1], addr) + (if w.addr == addr then [w.data] else [])
  }

  lemma DataToExtends(writes: seq<Write>, w: Write, addr: Offset)
    ensures DataTo(writes + [w], addr) == if w.addr == addr then DataTo(writes, addr) + [w.data] else DataTo(writes, addr)
  {
    assert (writes + [w])[..|writes|] == writes;
  }

  /** The values fetched from one register, in order. */
  function DataFrom(fetched: seq<Read>, addr: Offset): seq<bv32> {
    if fetched == [] then [] else
      var r := fetched[|fetched| - 1];
      DataFrom(fetched[..|fetched| - 1], addr) + (if r.addr == addr then [r.data] else [])
  }

  /** The port's registers as clocked by the hardware. */
  class Port {
    var awValid: bool
    var wValid: bool
    var wrAddr: Offset
    var wrData: bv32
    var bValid: bool
    var rValid: bool
    var rdData: bv32

    function State(): Regs
      reads this
    {
      Regs(awValid, wValid, wrAddr, wrData, bValid, rValid, rdData)
    }

    constructor ()
      ensures State() == RESET
    {
      awValid, wValid, wrAddr, wrData, bValid, rValid, rdData := false, false, 0, 0, false, false, 0;
    }

    /** One rising clock edge with reset inactive. */
    method Clock(i: Inputs, muxed: bv32)
      modifies this
      ensures State() == Next(old(State()), i, muxed)
    {
      ClockReads(i, muxed);
      var awTaken := i.awValid && !bValid && !i.arValid && !awValid;
      var wTaken := i.wValid && !bValid && !i.arValid && !wValid;
      SplitWrite(awTaken, wTaken, awTaken || awValid, wTaken || wValid, i.bReady);
      if awTaken {
        wrAddr := Low(i.awAddr);
      }
      if wTaken {
        wrData := i.wData;
      }
    }

    /** Write address / data split and BVALID. */
    method SplitWrite(awTaken: bool, wTaken: bool, command: bool, data: bool, bReady: bool)
      modifies `awValid, `wValid, `bValid
      ensures awValid == (if awTaken && !data then true else if data then false else old(awValid))
      ensures wValid == (if wTaken && !command then true else if command then false else old(wValid))
      ensures bValid == (if command && data then true else if bReady then false else old(bValid))
    {
      if awTaken && !data {
        awValid := true;
      } else if data {
        awValid := false;
      }
      if wTaken && !command {
        wValid := true;
      } else if command {
        wValid := false;
      }
      if command && data {
        bValid := true;
      } else if bReady {
        bValid := false;
      }
    }

    /** RVALID and the retimed read data. */
    method ClockReads(i: Inputs, muxed: bv32)
      modifies `rValid, `rdData
      ensures rValid == (if ReadEnable(old(State()), i) then true else if i.rReady then false else old(rValid))
      ensures rdData == if !old(rValid) || i.rReady then muxed else old(rdData)
    {
      var readEnable := i.arValid && !rValid;
      if !rValid || i.rReady {
        rdData := muxed;
      }
      if readEnable {
        rValid := true;
      } else if i.rReady {
        rValid := false;
      }
    }
  }
}
