/** The Ethernet register port (fpga/eth_axi4lite.v) between its AXI4-Lite side and the two FIFOs of the
    MAC: one clock edge is one step. */
module EthPort {
  import opened Bits
  import opened LiteSlave

  // Register offsets (fpga/eth_defs.v).
  const ETH_RX: Offset := 0x0
  const ETH_TX: Offset := 0x4
  const ETH_STATUS: Offset := 0x8

  /** tx_wr_en and rx_rd_en are the one-cycle FIFO strobes. */
  datatype Eth = Eth(port: LiteSlave.Regs, txWrEn: bool, rxRdEn: bool)

  const RESET_ETH := Eth(LiteSlave.RESET, false, false)

  /** One cycle of the surroundings: the register bus, the bytes that reach the receive FIFO at this edge,
      what the FIFO shows while it is empty, and the status bits other than RXEMPTY. */
  datatype Cycle = Cycle(bus: LiteSlave.Inputs, arrivals: seq<bv8>, idle: bv8, flags: bv32)

  // ---- One clock edge ----

  function Widen(b: bv8): bv32 { b as bv32 }

  function LowByte(w: bv32): bv8 { (w & 0xFF) as bv8 }

  /** First word fall through: the head is visible before it is popped. */
  function RxData(fifo: seq<bv8>, idle: bv8): bv8 { if fifo == [] then idle else fifo[0] }

  function ReadMux(addr: Offset, rxData: bv8, rxEmpty: bool, flags: bv32): bv32 {
    if addr == ETH_RX then Widen(rxData)
    else if addr == ETH_STATUS then Or(And(flags, 0xEB), if rxEmpty then 4 else 0)
    else 0
  }

  predicate ReadsRx(e: Eth, i: LiteSlave.Inputs) { ReadEnable(e.port, i) && Low(i.arAddr) == ETH_RX }

  predicate WritesTx(e: Eth, i: LiteSlave.Inputs) { WriteEnable(e.port, i) && WriteAddr(e.port, i) == ETH_TX }

  /** rx_rd_en keeps its value while another register is being read. */
  function NextEth(e: Eth, i: LiteSlave.Inputs, muxed: bv32): Eth {
    Eth(LiteSlave.Next(e.port, i, muxed),
        WritesTx(e, i),
        if ReadEnable(e.port, i) then Low(i.arAddr) == ETH_RX || e.rxRdEn else false)
  }

  /** `arrived`, `popped` and `pushed` are the bytes put into and taken out of the receive FIFO and put into
      the transmit FIFO since reset; `fifo` is the receive FIFO. */
  datatype State = State(eth: Eth, fifo: seq<bv8>, trace: LiteSlave.Trace, arrived: seq<bv8>, popped: seq<bv8>, pushed: seq<bv8>)

  const RESET_STATE := State(RESET_ETH, [], LiteSlave.NOTHING, [], [], [])

  function Muxed(s: State, i: Cycle): bv32 {
    ReadMux(Low(i.bus.arAddr), RxData(s.fifo, i.idle), s.fifo == [], i.flags)
  }

  predicate Pops(s: State) { s.eth.rxRdEn && s.fifo != [] }

  function NextState(s: State, i: Cycle): State {
    State(NextEth(s.eth, i.bus, Muxed(s, i)),
          (if Pops(s) then s.fifo[1..] else s.fifo) + i.arrivals,
          LiteSlave.Observe(s.trace, s.eth.port, i.bus, Muxed(s, i)),
          s.arrived + i.arrivals,
          if Pops(s) then s.popped + [s.fifo[0]] else s.popped,
          if s.eth.txWrEn then s.pushed + [LowByte(s.eth.port.wrData)] else s.pushed)
  }

  // ---- The specification ----

  function WidenAll(bytes: seq<bv8>): (words: seq<bv32>)
    ensures |words| == |bytes|
  {
    seq(|bytes|, k requires 0 <= k < |bytes| => Widen(bytes[k]))
  }

  function LowBytes(words: seq<bv32>): seq<bv8> {
    seq(|words|, k requires 0 <= k < |words| => LowByte(words[k]))
  }

  /** The bytes software has been given: those popped, and the head while its pop is under way. */
  function Given(s: State): seq<bv8> {
    s.popped + (if Pops(s) then [s.fifo[0]] else [])
  }

  /** Reads of ETH_RX return the bytes that arrived, in order, each once: one pop per read. */
  ghost predicate RxExactlyOnce(s: State) {
    && DataFrom(s.trace.fetched, ETH_RX) == WidenAll(Given(s))
    && s.arrived == s.popped + s.fifo
    && (s.eth.rxRdEn ==> s.fifo != [])
  }

  /** Writes of ETH_TX push their low bytes, in order, each once. */
  ghost predicate TxExactlyOnce(s: State) {
    LowBytes(DataTo(s.trace.writes, ETH_TX))
    == s.pushed + (if s.eth.txWrEn then [LowByte(s.eth.port.wrData)] else [])
  }

  ghost predicate StateInv(s: State) {
    && LiteSlave.Inv(s.eth.port, s.trace)
    && (s.eth.rxRdEn ==> s.eth.port.rValid)
    && TxExactlyOnce(s)
  }

  lemma StrobesAreShort(s: State, i: Cycle)
    requires s.eth.rxRdEn ==> s.eth.port.rValid
    ensures var s' := NextState(s, i);
            && s'.eth.rxRdEn == ReadsRx(s.eth, i.bus)
            && (s'.eth.rxRdEn ==> s'.eth.port.rValid)
  {
  }

  lemma LowBytesExtend(words: seq<bv32>, w: bv32)
    ensures LowBytes(words + [w]) == LowBytes(words) + [LowByte(w)]
  {
  }

  lemma StepKeepsTx(s: State, i: Cycle)
    requires StateInv(s)
    ensures TxExactlyOnce(NextState(s, i))
  {
    hide Muxed, LowByte, LowBytes;
    var s' := NextState(s, i);
    var writes, writes' := s.trace.writes, s'.trace.writes;
    if WriteEnable(s.eth.port, i.bus) {
      assert writes'[..|writes'| - 1] == writes;
      assert writes'[|writes'| - 1].data == s'.eth.port.wrData;
      assert DataTo(writes', ETH_TX) == DataTo(writes, ETH_TX) + (if s'.eth.txWrEn then [s'.eth.port.wrData] else []);
      LowBytesExtend(DataTo(writes, ETH_TX), s'.eth.port.wrData);
      assert DataTo(writes, ETH_TX) + [] == DataTo(writes, ETH_TX);
    }
  }

  lemma StepKeepsState(s: State, i: Cycle)
    requires StateInv(s)
    ensures StateInv(NextState(s, i))
  {
    hide TxExactlyOnce, LiteSlave.Inv, Muxed;
    LiteSlave.StepKeepsInv(s.eth.port, s.trace, i.bus, Muxed(s, i));
    StrobesAreShort(s, i);
    StepKeepsTx(s, i);
  }

  /** A cycle returns one more byte exactly when it accepts a read of ETH_RX: the head of the FIFO. */
  lemma ReadsReturnHead(s: State, i: Cycle)
    requires ReadsRx(s.eth, i.bus) ==> s.fifo != []
    ensures DataFrom(NextState(s, i).trace.fetched, ETH_RX)
            == DataFrom(s.trace.fetched, ETH_RX) + (if ReadsRx(s.eth, i.bus) then [Widen(s.fifo[0])] else [])
  {
    hide Widen, NextEth;
    var fetched, fetched' := s.trace.fetched, NextState(s, i).trace.fetched;
    if ReadEnable(s.eth.port, i.bus) {
      assert fetched'[..|fetched'| - 1] == fetched;
    }
  }

  lemma GivenGrows(s: State, i: Cycle)
    requires s.eth.rxRdEn ==> s.eth.port.rValid && s.fifo != []
    requires ReadsRx(s.eth, i.bus) ==> s.fifo != []
    ensures var s' := NextState(s, i);
            && Given(s') == Given(s) + (if ReadsRx(s.eth, i.bus) then [s.fifo[0]] else [])
            && s'.popped + s'.fifo == s.popped + s.fifo + i.arrivals
            && (s'.eth.rxRdEn ==> s'.fifo != [])
  {
    hide Muxed, LiteSlave.Next, LiteSlave.Observe;
    StrobesAreShort(s, i);
  }

  lemma WidenExtends(bytes: seq<bv8>, b: bv8)
    ensures WidenAll(bytes + [b]) == WidenAll(bytes) + [Widen(b)]
  {
  }

  lemma StepKeepsRx(s: State, i: Cycle)
    requires StateInv(s) && RxExactlyOnce(s)
    requires ReadsRx(s.eth, i.bus) ==> s.fifo != []
    ensures RxExactlyOnce(NextState(s, i))
  {
    hide LiteSlave.Inv, TxExactlyOnce, Widen, WidenAll, Given, DataFrom, NextEth, LiteSlave.Observe, Muxed;
    ReadsReturnHead(s, i);
    GivenGrows(s, i);
    if ReadsRx(s.eth, i.bus) {
      WidenExtends(Given(s), s.fifo[0]);
    } else {
      assert Given(s) + [] == Given(s);
      assert DataFrom(s.trace.fetched, ETH_RX) + [] == DataFrom(s.trace.fetched, ETH_RX);
    }
  }

  // ---- Runs ----

  function After(run: seq<Cycle>): State {
    if run == [] then RESET_STATE else NextState(After(run[..|run| - 1]), run[|run| - 1])
  }

  lemma {:induction false} RunInvariant(run: seq<Cycle>)
    ensures StateInv(After(run))
  {
    if run != [] {
      RunInvariant(run[..|run| - 1]);
      StepKeepsState(After(run[..|run| - 1]), run[|run| - 1]);
    }
  }

  /** Main result: on every run, each ETH_TX write pushes its own byte once; only the latest, whose B has not
      been taken, may still be on its way. */
  lemma TransmitIsExactlyOnce(run: seq<Cycle>)
    ensures TxExactlyOnce(After(run))
    ensures !After(run).eth.port.bValid ==>
              After(run).pushed == LowBytes(DataTo(After(run).trace.writes, ETH_TX))
  {
    RunInvariant(run);
    StrobeImpliesPending(run);
  }

  lemma StrobeImpliesPending(run: seq<Cycle>)
    ensures After(run).eth.txWrEn ==> After(run).eth.port.bValid
  {
    hide Muxed;
    if run != [] {
      var s := After(run[..|run| - 1]);
      assert After(run).eth == NextEth(s.eth, run[|run| - 1].bus, Muxed(s, run[|run| - 1]));
    }
  }

  lemma WidenBits(x: bv8, b: Index)
    ensures Bit(Widen(x), b) <==> ByteBit(x, b)
  {
  }

  lemma LowByteBits(w: bv32, b: Index)
    ensures ByteBit(LowByte(w), b) <==> b < 8 && Bit(w, b)
  {
  }

  /** Software looks at RXEMPTY: no read of ETH_RX is accepted while the FIFO is empty. */
  ghost predicate ReadsWhenReady(run: seq<Cycle>) {
    run != [] ==>
      var s := After(run[..|run| - 1]);
      ReadsWhenReady(run[..|run| - 1]) && (ReadsRx(s.eth, run[|run| - 1].bus) ==> s.fifo != [])
  }

  /** Main result: then the values fetched by reads of ETH_RX are the bytes that arrived, in order, with one
      pop each, reads of other registers pop nothing, and the R transfers return the values fetched. */
  lemma {:induction false} ReceiveIsExactlyOnce(run: seq<Cycle>)
    requires ReadsWhenReady(run)
    ensures RxExactlyOnce(After(run))
    ensures DataFrom(After(run).trace.fetched, ETH_RX) <= WidenAll(After(run).arrived)
    ensures LiteSlave.ReadsReturn(After(run).trace)
  {
    RunInvariant(run);
    hide NextState, TxExactlyOnce, LiteSlave.WritesPair, LiteSlave.WriteState;
    if run != [] {
      var earlier := run[..|run| - 1];
      ReceiveIsExactlyOnce(earlier);
      RunInvariant(earlier);
      StepKeepsRx(After(earlier), run[|run| - 1]);
    }
    GivenHasArrived(After(run));
  }

  lemma GivenHasArrived(s: State)
    requires RxExactlyOnce(s)
    ensures WidenAll(Given(s)) <= WidenAll(s.arrived)
  {
    assert Given(s) <= s.arrived;
  }

  /** Main result, bit by bit: the k-th value fetched from bus offset 0x00 is the k-th byte that arrived, in bits
      7:0, and 0 above; and the bytes popped are the first that arrived, one for each value but perhaps the
      last. */
  lemma ReceivedBits(run: seq<Cycle>, k: nat, b: Index)
    requires ReadsWhenReady(run) && k < |DataFrom(After(run).trace.fetched, 0x00)|
    ensures var s := After(run); var words := DataFrom(s.trace.fetched, 0x00);
            && k < |s.arrived| && (Bit(words[k], b) <==> ByteBit(s.arrived[k], b))
            && s.popped <= s.arrived && |s.popped| <= |words| <= |s.popped| + 1
  {
    hide Bit, ByteBit, Widen, After, ReadsWhenReady, DataFrom;
    ReceiveIsExactlyOnce(run);
    var s := After(run);
    assert DataFrom(s.trace.fetched, 0x00)[k] == WidenAll(s.arrived)[k];
    WidenBits(s.arrived[k], b);
  }

  /** And the k-th byte pushed is the k-th datum written to bus offset 0x04, in bits 7:0. */
  lemma PushedBits(run: seq<Cycle>, k: nat, b: Index)
    requires k < |After(run).pushed|
    ensures var s := After(run); var data := DataTo(s.trace.writes, 0x04);
            && |s.pushed| <= |data| && (ByteBit(s.pushed[k], b) <==> b < 8 && Bit(data[k], b))
            && (!s.eth.port.bValid ==> |s.pushed| == |data|)
  {
    hide Bit, ByteBit, LowByte, After, DataTo;
    TransmitIsExactlyOnce(run);
    var s := After(run);
    var data := DataTo(s.trace.writes, 0x04);
    assert s.pushed[k] == LowBytes(data)[k] == LowByte(data[k]);
    LowByteBits(data[k], b);
  }

  lemma FetchedStep(run: seq<Cycle>, c: Cycle)
    ensures After(run).trace.fetched <= After(run + [c]).trace.fetched
  {
    hide Muxed, NextEth;
    assert (run + [c])[..|run|] == run;
  }

  lemma {:induction false} FetchedGrows(run: seq<Cycle>, later: seq<Cycle>)
    ensures After(run).trace.fetched <= After(run + later).trace.fetched
    decreases |later|
  {
    hide After;
    if later == [] {
      assert run + later == run;
    } else {
      var n := |later| - 1;
      FetchedGrows(run, later[..n]);
      FetchedStep(run + later[..n], later[n]);
      assert run + later == run + later[..n] + [later[n]];
    }
  }

  /** The R transfer that answers a read, whenever the master takes it. */
  ghost predicate Answers(run: seq<Cycle>, c: Cycle, later: seq<Cycle>, value: bv32) {
    var k, rs := |After(run).trace.fetched|, After(run + [c] + later).trace.rs;
    k < |rs| ==> rs[k] == value
  }

  lemma AnswerIsFetched(run: seq<Cycle>, c: Cycle, later: seq<Cycle>)
    requires ReadEnable(After(run).eth.port, c.bus)
    ensures Answers(run, c, later, Muxed(After(run), c))
  {
    hide Muxed, NextEth;
    assert (run + [c])[..|run|] == run;
    FetchedGrows(run + [c], later);
    RunInvariant(run + [c] + later);
  }

  /** Main result: a read of 0x08 returns the status of its cycle: bit 2 says that the receive FIFO is empty,
      bits 0, 1, 3 and 5 to 7 are the other flags, the rest is 0. Offsets without a readable register give 0. */
  lemma StatusReads(run: seq<Cycle>, c: Cycle, later: seq<Cycle>, b: Index) returns (status: bv32)
    requires ReadEnable(After(run).eth.port, c.bus)
    ensures c.bus.arAddr % 256 == 0x08 ==> Answers(run, c, later, status)
    ensures Bit(status, b) <==> if b == 2 then After(run).fifo == [] else b < 8 && b != 4 && Bit(c.flags, b)
    ensures c.bus.arAddr % 256 !in {0x00, 0x08} ==> Answers(run, c, later, 0)
  {
    hide Answers, After, ReadEnable;
    AnswerIsFetched(run, c, later);
    var empty := After(run).fifo == [];
    status := Or(And(c.flags, 0xEB), if empty then 4 else 0);
    StatusBits(c.flags, empty, b);
  }

  /** The status flags come from wires other than RXEMPTY, and IE is always 0. */
  lemma StatusBits(flags: bv32, empty: bool, b: Index)
    ensures Bit(Or(And(flags, 0xEB), if empty then 4 else 0), b)
            <==> if b == 2 then empty else b < 8 && b != 4 && Bit(flags, b)
  {
  }

  /** In every reachable state nothing blocks. */
  lemma PortNeverBlocks(run: seq<Cycle>, c: Cycle)
    ensures var t, t' := After(run).trace, After(run + [c]).trace; var i := c.bus;
            && (i.awValid && !i.arValid && t.bs == |t.writes| == |t.aws| ==> t'.aws == t.aws + [i.awAddr % 256])
            && (i.wValid && !i.arValid && t.bs == |t.writes| == |t.ws| ==> t'.ws == t.ws + [i.wData])
            && (|t'.aws| > |t.writes| && |t'.ws| > |t.writes| ==> |t'.writes| == |t.writes| + 1)
            && (t.bs < |t.writes| && i.bReady ==> t'.bs == t.bs + 1)
            && (i.arValid && |t.rs| == |t.fetched| ==> |t'.fetched| == |t.fetched| + 1)
            && (|t.rs| < |t.fetched| && i.rReady ==> |t'.rs| == |t.rs| + 1)
  {
    hide NextEth, Muxed, LiteSlave.Inv, LiteSlave.Observe, TxExactlyOnce;
    assert (run + [c])[..|run|] == run;
    RunInvariant(run);
    LiteSlave.NothingBlocks(After(run).eth.port, After(run).trace, c.bus, Muxed(After(run), c));
  }

  /** The values fetched from ETH_RX so far are the bytes given out of the FIFO. */
  ghost predicate FetchedAreGiven(s: State) { DataFrom(s.trace.fetched, ETH_RX) == WidenAll(Given(s)) }

  /** A read of an empty FIFO fetches a word but no byte is given for it. */
  lemma EmptyReadFetchesNoByte(s: State, i: Cycle)
    requires StateInv(s) && RxExactlyOnce(s) && ReadsRx(s.eth, i.bus) && s.fifo == [] && i.arrivals == []
    ensures !FetchedAreGiven(NextState(s, i))
  {
    hide Widen, NextEth;
    StrobesAreShort(s, i);
    var fetched, fetched' := s.trace.fetched, NextState(s, i).trace.fetched;
    assert fetched'[..|fetched'| - 1] == fetched;
    assert |DataFrom(fetched', ETH_RX)| == |DataFrom(fetched, ETH_RX)| + 1;
  }

  /** That condition is needed: from any state in order, what a cycle lets software fetch are the bytes of the
      FIFO, whatever the FIFO does in it, exactly when the cycle accepts no read of an empty FIFO; and then
      the port stays in order. */
  lemma OrderNeedsNonemptyReads(s: State, bus: LiteSlave.Inputs, flags: bv32)
    requires StateInv(s) && RxExactlyOnce(s)
    ensures (forall arrivals: seq<bv8>, idle: bv8 :: FetchedAreGiven(NextState(s, Cycle(bus, arrivals, idle, flags))))
            <==> (ReadsRx(s.eth, bus) ==> s.fifo != [])
    ensures (forall arrivals: seq<bv8>, idle: bv8 :: RxExactlyOnce(NextState(s, Cycle(bus, arrivals, idle, flags))))
            <==> (ReadsRx(s.eth, bus) ==> s.fifo != [])
  {
    if ReadsRx(s.eth, bus) ==> s.fifo != [] {
      forall arrivals: seq<bv8>, idle: bv8
        ensures RxExactlyOnce(NextState(s, Cycle(bus, arrivals, idle, flags)))
      {
        StepKeepsRx(s, Cycle(bus, arrivals, idle, flags));
      }
    } else {
      EmptyReadFetchesNoByte(s, Cycle(bus, [], 0, flags));
    }
  }

  // ---- The port as the clocked module it is ----

  class Module {
    const port: LiteSlave.Port
    var txWrEn: bool
    var rxRdEn: bool

    function Registers(): Eth
      reads this, port
    {
      Eth(port.State(), txWrEn, rxRdEn)
    }

    constructor ()
      ensures Registers() == RESET_ETH && fresh(port)
    {
      port := new LiteSlave.Port();
      txWrEn, rxRdEn := false, false;
    }

    /** One rising clock edge with reset inactive. */
    method Clock(i: LiteSlave.Inputs, rxData: bv8, rxEmpty: bool, flags: bv32)
      modifies this, port
      ensures Registers() == NextEth(old(Registers()), i, ReadMux(Low(i.arAddr), rxData, rxEmpty, flags))
    {
      hide ReadMux, LiteSlave.Next;
      var readEnable := ReadEnable(port.State(), i);
      var writeTx := WriteEnable(port.State(), i) && WriteAddr(port.State(), i) == ETH_TX;
      port.Clock(i, ReadMux(Low(i.arAddr), rxData, rxEmpty, flags));
      txWrEn := writeTx;
      if readEnable {
        if Low(i.arAddr) == ETH_RX {
          rxRdEn := true;
        }
      } else {
        rxRdEn := false;
      }
    }
  }
}
