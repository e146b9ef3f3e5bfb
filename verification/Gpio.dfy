/** The GPIO peripheral (fpga/gpio.v) behind its AXI4-Lite port: one clock edge is one step. */
module Gpio {
  import opened Bits
  import opened LiteSlave

  // Register offsets (fpga/gpio_defs.v).
  const DIRECTION: Offset := 0x00
  const INPUT: Offset := 0x04
  const OUTPUT: Offset := 0x08
  const OUTPUT_SET: Offset := 0x0c
  const OUTPUT_CLR: Offset := 0x10
  const INT_MASK: Offset := 0x14
  const INT_SET: Offset := 0x18
  const INT_CLR: Offset := 0x1c
  const INT_STATUS: Offset := 0x20
  const INT_LEVEL: Offset := 0x24
  const INT_MODE: Offset := 0x28
  const BOOT_SPI_ADR: Offset := 0x2c
  const REBOOT_ADR: Offset := 0x30

  /** The registers written straight from the data bus. */
  datatype Config = Config(direction: bv32, mask: bv32, level: bv32, mode: bv32, bootSpi: bv32, reboot: bool)

  /** The one-cycle write pulses of the registers that live outside the port. */
  datatype Pulses = Pulses(set_: bool, clr: bool, out: bool, intSet: bool, intClr: bool)

  /** `raw`, `inputLast` and `intr` are interrupt_raw_q, input_last_q and intr_q. */
  datatype Core = Core(config: Config, inputMs: bv32, inputQ: bv32, inputLast: bv32, output: bv32,
                       raw: bv32, intr: bool)

  datatype Device = Device(port: LiteSlave.Regs, pulses: Pulses, core: Core)

  const NO_PULSE := Pulses(false, false, false, false, false)
  const RESET_DEVICE := Device(LiteSlave.RESET, NO_PULSE, Core(Config(0, 0, 0, 0, 0, false), 0, 0, 0, 0, 0, false))

  // ---- One clock edge ----

  /** The addressed register as it is in this cycle (data_r). */
  function ReadMux(c: Core, addr: Offset): bv32 {
    if addr == DIRECTION then c.config.direction
    else if addr == INPUT then c.inputQ
    else if addr == OUTPUT then c.output
    else if addr == INT_MASK then c.config.mask
    else if addr == INT_STATUS then c.raw
    else if addr == INT_LEVEL then c.config.level
    else if addr == INT_MODE then c.config.mode
    else if addr == BOOT_SPI_ADR then c.config.bootSpi
    else 0
  }

  function WriteConfig(c: Config, w: Write): Config {
    if w.addr == DIRECTION then c.(direction := w.data)
    else if w.addr == INT_MASK then c.(mask := w.data)
    else if w.addr == INT_LEVEL then c.(level := w.data)
    else if w.addr == INT_MODE then c.(mode := w.data)
    else if w.addr == BOOT_SPI_ADR then c.(bootSpi := And(w.data, 0xFFFFFF))
    else if w.addr == REBOOT_ADR then c.(reboot := And(w.data, 1) == 1)
    else c
  }

  /** The config registers take cfg_wdata_i, which is on the bus in the cycle of the commit. */
  function NextConfig(d: Device, i: Inputs): Config {
    if WriteEnable(d.port, i) then WriteConfig(d.core.config, Write(WriteAddr(d.port, i), i.wData))
    else d.core.config
  }

  function PulsesOf(addr: Offset): Pulses {
    Pulses(addr == OUTPUT_SET, addr == OUTPUT_CLR, addr == OUTPUT, addr == INT_SET, addr == INT_CLR)
  }

  function NextPulses(s: LiteSlave.Regs, i: Inputs): Pulses {
    if WriteEnable(s, i) then
      PulsesOf(WriteAddr(s, i))
    else NO_PULSE
  }

  /** output_next_r; the pulsed registers take the retimed wr_data_q. */
  function NextOutput(output: bv32, p: Pulses, wrData: bv32): bv32 {
    if p.set_ then Or(output, wrData)
    else if p.clr then And(output, Not(wrData))
    else if p.out then wrData
    else output
  }

  function LevelActive(c: Core): bv32 {
    var activeLow := Not(c.config.level);
    var levelMask := Not(c.config.mode);
    And(Xor(c.inputQ, activeLow), levelMask)
  }

  function EdgeActive(c: Core): bv32 {
    var fallingEdge := Not(c.config.level);
    var edgeDetect := Xor(c.inputLast, c.inputQ);
    And(And(edgeDetect, Xor(c.inputQ, fallingEdge)), c.config.mode)
  }

  function NextRaw(c: Core, p: Pulses, wrData: bv32): bv32 {
    var acked := if p.intClr then And(c.raw, Not(wrData)) else c.raw;
    var seen := Or(Or(acked, LevelActive(c)), EdgeActive(c));
    if p.intSet then Or(seen, wrData) else seen
  }

  function NextCore(d: Device, i: Inputs, pins: bv32): Core {
    Core(NextConfig(d, i), pins, d.core.inputMs, d.core.inputQ,
         NextOutput(d.core.output, d.pulses, d.port.wrData),
         NextRaw(d.core, d.pulses, d.port.wrData),
         And(d.core.raw, d.core.config.mask) != 0)
  }

  function Muxed(d: Device, i: Inputs): bv32 { ReadMux(d.core, Low(i.arAddr)) }

  function NextDevice(d: Device, i: Inputs, pins: bv32): Device {
    Device(LiteSlave.Next(d.port, i, Muxed(d, i)), NextPulses(d.port, i), NextCore(d, i, pins))
  }

  // ---- What an observer has seen ----

  /** What one cycle does to the interrupt bits. */
  datatype Cycle = Cycle(events: bv32, acks: bv32)

  /** `acked` and `raised` are the words acknowledged and raised by software, one per pulse. */
  datatype History = History(port: LiteSlave.Trace, cycles: seq<Cycle>, acked: seq<bv32>, raised: seq<bv32>)

  const NO_HISTORY := History(LiteSlave.NOTHING, [], [], [])

  function Events(d: Device): bv32 {
    Or(Or(LevelActive(d.core), EdgeActive(d.core)), if d.pulses.intSet then d.port.wrData else 0)
  }

  function Acks(d: Device): bv32 { if d.pulses.intClr then d.port.wrData else 0 }

  function ObserveDevice(t: History, d: Device, i: Inputs): History {
    History(LiteSlave.Observe(t.port, d.port, i, Muxed(d, i)), t.cycles + [Cycle(Events(d), Acks(d))],
            if d.pulses.intClr then t.acked + [d.port.wrData] else t.acked,
            if d.pulses.intSet then t.raised + [d.port.wrData] else t.raised)
  }

  // ---- The abstract output register ----

  function WriteOutput(output: bv32, w: Write): bv32 {
    if w.addr == OUTPUT_SET then Or(output, w.data)
    else if w.addr == OUTPUT_CLR then And(output, Not(w.data))
    else if w.addr == OUTPUT then w.data
    else output
  }

  /** The value of the output register after a sequence of writes. */
  function OutputAfter(writes: seq<Write>): bv32 {
    if writes == [] then 0 else WriteOutput(OutputAfter(writes[..|writes| - 1]), writes[|writes| - 1])
  }

  function ConfigAfter(writes: seq<Write>): Config {
    if writes == [] then RESET_DEVICE.core.config
    else WriteConfig(ConfigAfter(writes[..|writes| - 1]), writes[|writes| - 1])
  }

  predicate Pulsing(p: Pulses) { p.set_ || p.clr || p.out }

  /** How many of the committed writes the output register already shows. */
  function Shown(d: Device, t: History): int {
    |t.port.writes| - (if Pulsing(d.pulses) then 1 else 0)
  }

  /** A pulse is the write committed at the previous edge; its B has not been taken yet. */
  ghost predicate PulsesTellLastWrite(d: Device, t: History) {
    var n := |t.port.writes|;
    d.pulses != NO_PULSE ==>
      && d.port.bValid && n > 0
      && d.pulses == PulsesOf(t.port.writes[n - 1].addr)
  }

  /** Bit by bit, with the bus offsets: 0x0c sets, 0x10 clears, 0x08 writes, and nothing else touches it. */
  lemma OutputMeaning(writes: seq<Write>, w: Write, b: Index)
    ensures OutputAfter([]) == 0
    ensures Bit(OutputAfter(writes + [w]), b)
            <==> if w.addr == 0x0c then Bit(OutputAfter(writes), b) || Bit(w.data, b)
                 else if w.addr == 0x10 then Bit(OutputAfter(writes), b) && !Bit(w.data, b)
                 else if w.addr == 0x08 then Bit(w.data, b)
                 else Bit(OutputAfter(writes), b)
  {
    assert (writes + [w])[..|writes|] == writes;
    WriteOutputBit(OutputAfter(writes), w, b);
  }

  lemma WriteOutputBit(output: bv32, w: Write, b: Index)
    ensures Bit(WriteOutput(output, w), b)
            <==> if w.addr == 0x0c then Bit(output, b) || Bit(w.data, b)
                 else if w.addr == 0x10 then Bit(output, b) && !Bit(w.data, b)
                 else if w.addr == 0x08 then Bit(w.data, b)
                 else Bit(output, b)
  {
    hide Bit, Or, And, Not;
    if w.addr == 0x0c {
      BitOfOr(output, w.data, b);
    } else if w.addr == 0x10 {
      BitOfNot(w.data, b);
      BitOfAnd(output, Not(w.data), b);
    }
  }

  ghost predicate DeviceInv(d: Device, t: History) {
    && LiteSlave.Inv(d.port, t.port)
    && PulsesTellLastWrite(d, t)
    && d.core.output == OutputAfter(t.port.writes[..Shown(d, t)])
  }

  lemma PulsesKept(d: Device, t: History, i: Inputs, pins: bv32)
    requires LiteSlave.Inv(d.port, t.port)
    ensures PulsesTellLastWrite(NextDevice(d, i, pins), ObserveDevice(t, d, i))
  {
  }

  lemma PulseAppliesWrite(output: bv32, w: Write)
    ensures NextOutput(output, PulsesOf(w.addr), w.data) == WriteOutput(output, w)
  {
    if w.addr == OUTPUT_SET {
    } else if w.addr == OUTPUT_CLR {
    } else {
    }
  }

  /** The pending pulse, applied with the retimed data, shows exactly the write that caused it. */
  lemma PulseShowsWrite(d: Device, t: History)
    requires DeviceInv(d, t)
    ensures NextOutput(d.core.output, d.pulses, d.port.wrData) == OutputAfter(t.port.writes)
  {
    hide NextOutput, WriteOutput;
    var writes, n := t.port.writes, |t.port.writes|;
    if Pulsing(d.pulses) {
      LiteSlave.RetimedDataIsLatest(d.port, t.port);
      PulseAppliesWrite(d.core.output, writes[n - 1]);
    } else {
      assert writes[..n] == writes;
      NoPulseNoChange(d.core.output, d.pulses, d.port.wrData);
    }
  }

  lemma NoPulseNoChange(output: bv32, p: Pulses, wrData: bv32)
    requires !Pulsing(p)
    ensures NextOutput(output, p, wrData) == output
  {
  }

  lemma StepKeepsDevice(d: Device, t: History, i: Inputs, pins: bv32)
    requires DeviceInv(d, t)
    ensures DeviceInv(NextDevice(d, i, pins), ObserveDevice(t, d, i))
  {
    LiteSlave.StepKeepsInv(d.port, t.port, i, Muxed(d, i));
    PulsesKept(d, t, i, pins);
    PulseShowsWrite(d, t);
    UnseenWriteIsPulsed(d, t, i, pins);
  }

  /** After the edge the output register shows all writes but one that is being pulsed, if any. */
  lemma UnseenWriteIsPulsed(d: Device, t: History, i: Inputs, pins: bv32)
    ensures var d', t' := NextDevice(d, i, pins), ObserveDevice(t, d, i);
            && 0 <= Shown(d', t')
            && OutputAfter(t'.port.writes[..Shown(d', t')]) == OutputAfter(t.port.writes)
  {
    var d', t' := NextDevice(d, i, pins), ObserveDevice(t, d, i);
    var writes, writes' := t.port.writes, t'.port.writes;
    if WriteEnable(d.port, i) {
      assert writes'[..|writes|] == writes;
      assert writes'[..|writes'|] == writes';
    } else {
      assert writes'[..|writes|] == writes;
    }
  }

  // ---- Software acknowledges and interrupts: one pulse per write ----

  ghost predicate SoftwarePulsesAreWrites(d: Device, t: History) {
    && DataTo(t.port.writes, INT_CLR) == t.acked + (if d.pulses.intClr then [d.port.wrData] else [])
    && DataTo(t.port.writes, INT_SET) == t.raised + (if d.pulses.intSet then [d.port.wrData] else [])
  }

  lemma StepKeepsSoftwarePulses(d: Device, t: History, i: Inputs, pins: bv32)
    requires DeviceInv(d, t) && SoftwarePulsesAreWrites(d, t)
    ensures SoftwarePulsesAreWrites(NextDevice(d, i, pins), ObserveDevice(t, d, i))
  {
    hide NextCore, Muxed, Events, Acks, DataTo, LiteSlave.Inv, PairedData, WriteAddr;
    if WriteEnable(d.port, i) {
      var w := Write(WriteAddr(d.port, i), PairedData(d.port, i));
      DataToExtends(t.port.writes, w, INT_CLR);
      DataToExtends(t.port.writes, w, INT_SET);
      PulsesAreOver(d, t, i);
      CommitIsRetimed(d.port, t.port, i, Muxed(d, i));
      hide LiteSlave.Next, WriteEnable;
    }
  }

  /** The data of a commit is in wr_data_q after the edge, where the pulse finds it. */
  lemma CommitIsRetimed(s: LiteSlave.Regs, t: LiteSlave.Trace, i: Inputs, muxed: bv32)
    requires LiteSlave.Inv(s, t) && WriteEnable(s, i)
    ensures LiteSlave.Next(s, i, muxed).wrData == PairedData(s, i)
  {
  }

  /** A write is committed only when the pulse of the one before is over. */
  lemma PulsesAreOver(d: Device, t: History, i: Inputs)
    requires DeviceInv(d, t) && WriteEnable(d.port, i)
    ensures d.pulses == NO_PULSE
  {
  }

  // ---- Interrupts, bit by bit ----

  /** Bit `b` is due at the end of `cycles` iff some cycle raised it and no later cycle acknowledged it;
      an event in the very cycle of an acknowledge survives. */
  ghost predicate Due(cycles: seq<Cycle>, b: Index) {
    exists j | 0 <= j < |cycles| :: RaisedSince(cycles, b, j)
  }

  ghost predicate RaisedSince(cycles: seq<Cycle>, b: Index, j: nat)
    requires j < |cycles|
  {
    Bit(cycles[j].events, b) && forall u | j < u < |cycles| :: !Bit(cycles[u].acks, b)
  }

  ghost predicate Sticky(d: Device, t: History) {
    forall b: Index :: Bit(d.core.raw, b) <==> Due(t.cycles, b)
  }

  lemma DueStep(cycles: seq<Cycle>, c: Cycle, b: Index)
    ensures Due(cycles + [c], b) <==> Bit(c.events, b) || (Due(cycles, b) && !Bit(c.acks, b))
  {
    var cycles' := cycles + [c];
    if Bit(c.events, b) {
      assert RaisedSince(cycles', b, |cycles|);
    }
    if Due(cycles, b) && !Bit(c.acks, b) {
      var j :| 0 <= j < |cycles| && RaisedSince(cycles, b, j);
      assert RaisedSince(cycles', b, j);
    }
    if Due(cycles', b) && !Bit(c.events, b) {
      var j :| 0 <= j < |cycles'| && RaisedSince(cycles', b, j);
      assert forall u | j < u < |cycles| :: cycles'[u] == cycles[u];
      assert RaisedSince(cycles, b, j) && !Bit(cycles'[|cycles|].acks, b);
    }
  }

  /** One cycle clears the acknowledged bits and then sets the bits with an event. */
  lemma RawBitStep(d: Device, b: Index)
    ensures Bit(NextRaw(d.core, d.pulses, d.port.wrData), b)
            <==> Bit(Events(d), b) || (Bit(d.core.raw, b) && !Bit(Acks(d), b))
  {
    hide LevelActive, EdgeActive, Bit, Or, And, Not;
    var level, edge, data := LevelActive(d.core), EdgeActive(d.core), d.port.wrData;
    var acked := if d.pulses.intClr then And(d.core.raw, Not(data)) else d.core.raw;
    BitOfNot(data, b);
    BitOfAnd(d.core.raw, Not(data), b);
    BitOfOr(acked, level, b);
    BitOfOr(Or(acked, level), edge, b);
    BitOfOr(Or(Or(acked, level), edge), data, b);
    BitOfOr(level, edge, b);
    BitOfOr(Or(level, edge), if d.pulses.intSet then data else 0, b);
    BitOfZero(b);
  }

  lemma StepKeepsSticky(d: Device, t: History, i: Inputs, pins: bv32)
    requires Sticky(d, t)
    ensures Sticky(NextDevice(d, i, pins), ObserveDevice(t, d, i))
  {
    hide LevelActive, EdgeActive, NextRaw, Due, Bit, Events, Acks;
    forall b: Index
      ensures Bit(NextDevice(d, i, pins).core.raw, b) <==> Due(ObserveDevice(t, d, i).cycles, b)
    {
      DueStep(t.cycles, Cycle(Events(d), Acks(d)), b);
      RawBitStep(d, b);
    }
  }

  /** What an event is: in level mode the pin is at its active level, in edge mode it has just moved to
      it, and software can raise any bit through INT_SET. */
  lemma EventBits(d: Device, b: Index)
    ensures var c := d.core; var active := Bit(c.inputQ, b) == Bit(c.config.level, b);
            Bit(Events(d), b) <==>
            || (active && (Bit(c.config.mode, b) ==> Bit(c.inputLast, b) != Bit(c.inputQ, b)))
            || (d.pulses.intSet && Bit(d.port.wrData, b))
  {
    hide Bit, Or, And, Xor, Not;
    var c := d.core;
    BitOfNot(c.config.level, b);
    BitOfNot(c.config.mode, b);
    BitOfXor(c.inputQ, Not(c.config.level), b);
    BitOfXor(c.inputLast, c.inputQ, b);
    BitOfAnd(Xor(c.inputQ, Not(c.config.level)), Not(c.config.mode), b);
    BitOfAnd(Xor(c.inputLast, c.inputQ), Xor(c.inputQ, Not(c.config.level)), b);
    BitOfAnd(And(Xor(c.inputLast, c.inputQ), Xor(c.inputQ, Not(c.config.level))), c.config.mode, b);
    BitOfOr(LevelActive(c), EdgeActive(c), b);
    BitOfOr(Or(LevelActive(c), EdgeActive(c)), if d.pulses.intSet then d.port.wrData else 0, b);
    BitOfZero(b);
  }

  // ---- Runs ----

  datatype Cycles = Cycles(port: Inputs, pins: bv32)
  datatype State = State(device: Device, history: History)

  function After(run: seq<Cycles>): State {
    if run == [] then State(RESET_DEVICE, NO_HISTORY) else
      var st := After(run[..|run| - 1]);
      var c := run[|run| - 1];
      State(NextDevice(st.device, c.port, c.pins), ObserveDevice(st.history, st.device, c.port))
  }

  lemma {:induction false} RunInvariant(run: seq<Cycles>)
    ensures DeviceInv(After(run).device, After(run).history)
  {
    if run != [] {
      RunInvariant(run[..|run| - 1]);
      var st := After(run[..|run| - 1]);
      StepKeepsDevice(st.device, st.history, run[|run| - 1].port, run[|run| - 1].pins);
    }
  }

  /** Main result: on every run the port is exactly-once. The k-th address meets the k-th datum in one
      commit and one B, and the R transfers return the values fetched, in order. */
  lemma PortIsExactlyOnce(run: seq<Cycles>)
    ensures LiteSlave.WritesPair(After(run).history.port) && LiteSlave.ReadsReturn(After(run).history.port)
  {
    RunInvariant(run);
  }

  /** In every reachable state nothing blocks, and what is taken is what is on the bus. */
  lemma PortNeverBlocks(run: seq<Cycles>, c: Cycles)
    ensures var t, t' := After(run).history.port, After(run + [c]).history.port; var i := c.port;
            && (i.awValid && !i.arValid && t.bs == |t.writes| == |t.aws| ==> t'.aws == t.aws + [i.awAddr % 256])
            && (i.wValid && !i.arValid && t.bs == |t.writes| == |t.ws| ==> t'.ws == t.ws + [i.wData])
            && (|t'.aws| > |t.writes| && |t'.ws| > |t.writes| ==> |t'.writes| == |t.writes| + 1)
            && (t.bs < |t.writes| && i.bReady ==> t'.bs == t.bs + 1)
            && (i.arValid && |t.rs| == |t.fetched| ==> |t'.fetched| == |t.fetched| + 1)
            && (|t.rs| < |t.fetched| && i.rReady ==> |t'.rs| == |t.rs| + 1)
            && (t'.aws == t.aws || (i.awValid && !i.arValid && t'.aws == t.aws + [i.awAddr % 256]))
            && (t'.ws == t.ws || (i.wValid && !i.arValid && t'.ws == t.ws + [i.wData]))
  {
    hide NextDevice, Muxed, LiteSlave.Inv, LiteSlave.Observe;
    assert (run + [c])[..|run|] == run;
    RunInvariant(run);
    var st := After(run);
    LiteSlave.NothingBlocks(st.device.port, st.history.port, c.port, Muxed(st.device, c.port));
    LiteSlave.OnlyFromBus(st.device.port, st.history.port, c.port, Muxed(st.device, c.port));
  }

  /** Main result: the output register, and so the pins and any read of it, is the fold of a prefix of the
      committed writes that includes every write whose B the master has taken. */
  lemma OutputReadsLinearize(run: seq<Cycles>) returns (shown: nat)
    ensures var t := After(run).history.port;
            && t.bs <= shown <= |t.writes|
            && After(run).device.core.output == OutputAfter(t.writes[..shown])
  {
    RunInvariant(run);
    shown := Shown(After(run).device, After(run).history);
  }

  /** A read of OUTPUT accepted while no B is pending sees every write. */
  lemma ReadAfterResponseSeesAllWrites(run: seq<Cycles>, i: Inputs)
    requires ReadEnable(After(run).device.port, i) && Low(i.arAddr) == OUTPUT
    requires !After(run).device.port.bValid
    ensures var st := After(run);
            LiteSlave.Observe(st.history.port, st.device.port, i, Muxed(st.device, i)).fetched
            == st.history.port.fetched + [Read(OUTPUT, OutputAfter(st.history.port.writes))]
  {
    RunInvariant(run);
    PulseShowsWrite(After(run).device, After(run).history);
    NoPulseNoChange(After(run).device.core.output, After(run).device.pulses, After(run).device.port.wrData);
  }

  /** Main result: no interrupt is lost and none lingers. */
  lemma InterruptsAreSticky(run: seq<Cycles>, b: Index)
    ensures Bit(After(run).device.core.raw, b) <==> Due(After(run).history.cycles, b)
  {
    StickyAlways(run);
  }

  /** The pins in cycle `k` of the run; before it they count as 0. */
  function PinsAt(run: seq<Cycles>, k: int): bv32 { if 0 <= k < |run| then run[k].pins else 0 }

  lemma PinsStep(d: Device, i: Inputs, pins: bv32)
    ensures var c := NextDevice(d, i, pins).core;
            c.inputMs == pins && c.inputQ == d.core.inputMs && c.inputLast == d.core.inputQ
  {
  }

  lemma EarlierPins(run: seq<Cycles>, k: int)
    requires run != [] && k < |run| - 1
    ensures PinsAt(run, k) == PinsAt(run[..|run| - 1], k)
  {
  }

  lemma LatestPins(run: seq<Cycles>)
    requires run != []
    ensures PinsAt(run, |run| - 1) == run[|run| - 1].pins
  {
  }

  lemma {:induction false} PinsArrive(run: seq<Cycles>)
    ensures var c, n := After(run).device.core, |run|;
            c.inputMs == PinsAt(run, n - 1) && c.inputQ == PinsAt(run, n - 2) && c.inputLast == PinsAt(run, n - 3)
  {
    if run != [] {
      hide NextDevice, ObserveDevice, PinsAt;
      var earlier, c := run[..|run| - 1], run[|run| - 1];
      PinsArrive(earlier);
      LatestPins(run);
      EarlierPins(run, |run| - 2);
      EarlierPins(run, |run| - 3);
      PinsStep(After(earlier).device, c.port, c.pins);
    }
  }

  lemma {:induction false} CyclesAreSteps(run: seq<Cycles>, j: nat)
    requires j < |run|
    ensures |After(run).history.cycles| == |run|
    ensures var d := After(run[..j]).device; After(run).history.cycles[j] == Cycle(Events(d), Acks(d))
  {
    hide NextDevice, Events, Acks, LiteSlave.Observe;
    var earlier := run[..|run| - 1];
    if j < |earlier| {
      CyclesAreSteps(earlier, j);
      assert earlier[..j] == run[..j];
    } else if j > 0 {
      CyclesAreSteps(earlier, j - 1);
    }
  }

  /** Main result: what the events and acknowledges of cycle `j` of a run are. In level mode the pin was at its
      active level two cycles before; in edge mode it also was at the other level three cycles before; and
      software raises and acknowledges bits with the pulses of INT_SET and INT_CLR. */
  lemma EventMeaning(run: seq<Cycles>, j: nat, b: Index)
    requires j < |run|
    ensures |After(run).history.cycles| == |run|
    ensures var c := After(run).history.cycles[j]; var d := After(run[..j]).device; var config := d.core.config;
            var pin, before := Bit(PinsAt(run, j - 2), b), Bit(PinsAt(run, j - 3), b);
            && (Bit(c.events, b) <==>
                || (pin == Bit(config.level, b) && (Bit(config.mode, b) ==> before != pin))
                || (d.pulses.intSet && Bit(d.port.wrData, b)))
            && (Bit(c.acks, b) <==> d.pulses.intClr && Bit(d.port.wrData, b))
  {
    hide Bit, Events, NextDevice, After;
    CyclesAreSteps(run, j);
    PinsArrive(run[..j]);
    EventBits(After(run[..j]).device, b);
    BitOfZero(b);
  }

  lemma {:induction false} StickyAlways(run: seq<Cycles>)
    ensures Sticky(After(run).device, After(run).history)
  {
    if run == [] {
      forall b: Index
        ensures !Bit(0, b)
      {
        BitOfZero(b);
      }
    } else {
      StickyAlways(run[..|run| - 1]);
      var st := After(run[..|run| - 1]);
      StepKeepsSticky(st.device, st.history, run[|run| - 1].port, run[|run| - 1].pins);
    }
  }

  /** The interrupt line is high one cycle after some unmasked bit is. */
  lemma LineFollowsUnmaskedBits(run: seq<Cycles>, c: Cycles)
    ensures After(run + [c]).device.core.intr
            <==> exists b: Index :: Bit(After(run).device.core.raw, b) && Bit(After(run).device.core.config.mask, b)
  {
    hide Bit, And, NextRaw, NextOutput, NextConfig;
    assert (run + [c])[..|run|] == run;
    assert After(run + [c]).device == NextDevice(After(run).device, c.port, c.pins);
    SomeCommonBit(After(run).device.core.raw, After(run).device.core.config.mask);
  }

  /** Each write to INT_CLR and INT_SET acts on the interrupt bits in exactly one cycle, with its own data;
      the latest may still be due while its B is pending. */
  lemma {:induction false} EverySoftwareWriteActsOnce(run: seq<Cycles>)
    ensures SoftwarePulsesAreWrites(After(run).device, After(run).history)
    ensures !After(run).device.port.bValid ==>
              && After(run).history.acked == DataTo(After(run).history.port.writes, 0x1c)
              && After(run).history.raised == DataTo(After(run).history.port.writes, 0x18)
  {
    RunInvariant(run);
    if run != [] {
      var earlier := run[..|run| - 1];
      EverySoftwareWriteActsOnce(earlier);
      RunInvariant(earlier);
      StepKeepsSoftwarePulses(After(earlier).device, After(earlier).history,
                              run[|run| - 1].port, run[|run| - 1].pins);
    }
  }

  // ---- Configuration registers: right exactly when the data is not early ----

  predicate IsConfig(addr: Offset) {
    addr in {DIRECTION, INT_MASK, INT_LEVEL, INT_MODE, BOOT_SPI_ADR, REBOOT_ADR}
  }

  /** A commit stores its own data, whatever the bus carries in the commit cycle, exactly when that data was
      not accepted before its address. */
  lemma CommitTakesBus(d: Device, i: Inputs)
    requires WriteEnable(d.port, i) && IsConfig(WriteAddr(d.port, i))
    ensures (forall bus: bv32 :: var j := i.(wData := bus);
             NextConfig(d, j) == WriteConfig(d.core.config, Write(WriteAddr(d.port, j), PairedData(d.port, j))))
            <==> !d.port.wValid
  {
    hide And;
    ComplementDiffers(d.port.wrData);
    if d.port.wValid {
      var j := i.(wData := !d.port.wrData);
      assert NextConfig(d, j) != WriteConfig(d.core.config, Write(WriteAddr(d.port, j), PairedData(d.port, j)));
    }
  }

  /** The configuration registers are the fold of the committed writes. */
  ghost predicate ConfigInOrder(st: State) { st.device.core.config == ConfigAfter(st.history.port.writes) }

  /** Main result: while the configuration registers are in order, one more write to them keeps them so,
      whatever the bus carries in the commit cycle, exactly when its data was not accepted before its
      address. */
  lemma ConfigWriteNeedsAddressFirst(run: seq<Cycles>, c: Cycles)
    requires ConfigInOrder(After(run))
    requires var s := After(run).device.port; WriteEnable(s, c.port) && IsConfig(WriteAddr(s, c.port))
    ensures (forall bus: bv32 :: ConfigInOrder(After(run + [c.(port := c.port.(wData := bus))])))
            <==> !After(run).device.port.wValid
  {
    hide NextConfig, WriteConfig, ConfigAfter, NextCore, DeviceInv;
    forall bus: bv32
      ensures ConfigInOrder(After(run + [c.(port := c.port.(wData := bus))])) <==> StoresOwnData(run, c.port.(wData := bus))
    {
      ConfigOneStep(run, c.(port := c.port.(wData := bus)));
    }
    CommitTakesBus(After(run).device, c.port);
  }

  predicate StoresOwnData(run: seq<Cycles>, i: Inputs) {
    var d := After(run).device;
    NextConfig(d, i) == WriteConfig(d.core.config, Write(WriteAddr(d.port, i), PairedData(d.port, i)))
  }

  lemma ConfigOneStep(run: seq<Cycles>, c: Cycles)
    requires ConfigInOrder(After(run)) && WriteEnable(After(run).device.port, c.port)
    ensures ConfigInOrder(After(run + [c])) <==> StoresOwnData(run, c.port)
  {
    hide NextConfig, WriteConfig;
    assert (run + [c])[..|run|] == run;
    var st := After(run);
    var writes := st.history.port.writes;
    var w := Write(WriteAddr(st.device.port, c.port), PairedData(st.device.port, c.port));
    assert After(run + [c]).history.port.writes == writes + [w];
    assert (writes + [w])[..|writes|] == writes;
  }

  /** And early data is lost: 5 is accepted for DIRECTION in the first cycle, its address in the second, with
      0 on the bus, and DIRECTION is 0. */
  lemma EarlyDataIsLost() returns (run: seq<Cycles>)
    ensures After(run).history.port.writes == [Write(0x00, 5)]
    ensures After(run).device.core.config.direction == 0 != ConfigAfter(After(run).history.port.writes).direction
  {
    var data := Cycles(Inputs(false, 0, true, 5, true, false, 0, true), 0);
    var address := Cycles(Inputs(true, 0, false, 0, true, false, 0, true), 0);
    run := [data, address];
    assert run[..1] == [data] && [data][..0] == [];
    assert After([data]).device.port == LiteSlave.Regs(false, true, 0, 5, false, false, 0);
    assert After([data]).history.port.writes == [];
    assert After(run).history.port.writes == [] + [Write(DIRECTION, 5)];
    assert [Write(DIRECTION, 5)][..0] == [];
  }

  lemma ComplementDiffers(x: bv32)
    ensures !x != x && And(!x, 0xFFFFFF) != And(x, 0xFFFFFF) && (And(!x, 1) == 1) != (And(x, 1) == 1)
  {
  }

  /** In runs that never accept data before its address ... */
  ghost predicate AddressFirst(run: seq<Cycles>) {
    run != [] ==> AddressFirst(run[..|run| - 1]) && !After(run).device.port.wValid
  }

  /** ... the configuration registers are the fold of the committed writes too. */
  lemma {:induction false} ConfigIsRegisterFile(run: seq<Cycles>)
    requires AddressFirst(run)
    ensures After(run).device.core.config == ConfigAfter(After(run).history.port.writes)
  {
    if run != [] {
      var earlier := run[..|run| - 1];
      ConfigIsRegisterFile(earlier);
      var writes := After(earlier).history.port.writes;
      assert After(run).history.port.writes != writes ==> After(run).history.port.writes[..|writes|] == writes;
    }
  }

  function LastOf(data: seq<bv32>): bv32 { if data == [] then 0 else data[|data| - 1] }

  /** The abstract register file: each configuration register holds the data last written to it. */
  lemma {:induction false} ConfigHoldsLastWrites(writes: seq<Write>)
    ensures var c := ConfigAfter(writes);
            && c.direction == LastOf(DataTo(writes, 0x00)) && c.mask == LastOf(DataTo(writes, 0x14))
            && c.level == LastOf(DataTo(writes, 0x24)) && c.mode == LastOf(DataTo(writes, 0x28))
            && c.bootSpi == And(LastOf(DataTo(writes, 0x2c)), 0xFFFFFF)
            && (c.reboot <==> And(LastOf(DataTo(writes, 0x30)), 1) == 1)
  {
    if writes != [] {
      hide LastOf, DataTo, And;
      var earlier, w := writes[..|writes| - 1], writes[|writes| - 1];
      ConfigHoldsLastWrites(earlier);
      LastData(writes, DIRECTION);
      LastData(writes, INT_MASK);
      LastData(writes, INT_LEVEL);
      LastData(writes, INT_MODE);
      LastData(writes, BOOT_SPI_ADR);
      LastData(writes, REBOOT_ADR);
    }
  }

  lemma LastData(writes: seq<Write>, addr: Offset)
    requires writes != []
    ensures var w := writes[|writes| - 1];
            LastOf(DataTo(writes, addr))
            == if w.addr == addr then w.data else LastOf(DataTo(writes[..|writes| - 1], addr))
  {
  }

  lemma FetchedStep(run: seq<Cycles>, c: Cycles)
    ensures After(run).history.port.fetched <= After(run + [c]).history.port.fetched
  {
    hide NextDevice, Muxed;
    assert (run + [c])[..|run|] == run;
  }

  lemma {:induction false} FetchedGrows(run: seq<Cycles>, later: seq<Cycles>)
    ensures After(run).history.port.fetched <= After(run + later).history.port.fetched
    decreases |later|
  {
    hide After;
    if later == [] {
      assert run + later == run;
    } else {
      var n := |later| - 1;
      FetchedGrows(run, later[..n]);
      FetchedStep(run + later[..n], later[n]);
      assert run + later == run + later[..n] + [later[n]];
    }
  }

  /** The R transfer that answers a read, whenever the master takes it, returns what the read multiplexer
      showed when the read was accepted. */
  lemma AnswerIsFetched(run: seq<Cycles>, c: Cycles, later: seq<Cycles>)
    requires ReadEnable(After(run).device.port, c.port)
    ensures var k := |After(run).history.port.fetched|; var rs := After(run + [c] + later).history.port.rs;
            k < |rs| ==> rs[k] == Muxed(After(run).device, c.port)
  {
    hide NextDevice, Muxed;
    assert (run + [c])[..|run|] == run;
    FetchedGrows(run + [c], later);
    PortIsExactlyOnce(run + [c] + later);
  }

  /** The value of the R transfer, at any time later, that answers a read accepted in cycle `c` after `run`. */
  ghost predicate Answers(run: seq<Cycles>, c: Cycles, later: seq<Cycles>, value: bv32) {
    var k, rs := |After(run).history.port.fetched|, After(run + [c] + later).history.port.rs;
    k < |rs| ==> rs[k] == value
  }

  /** Main result: in such runs a read of a configuration register returns the data last written to it, with
      no delay at all. */
  lemma ConfigReadsLastWrite(run: seq<Cycles>, c: Cycles, later: seq<Cycles>)
    requires AddressFirst(run) && ReadEnable(After(run).device.port, c.port)
    requires c.port.arAddr % 256 in {0x00, 0x14, 0x24, 0x28, 0x2c}
    ensures var last := LastOf(DataTo(After(run).history.port.writes, c.port.arAddr % 256));
            Answers(run, c, later, if c.port.arAddr % 256 == 0x2c then And(last, 0xFFFFFF) else last)
  {
    hide LastOf, And, After, DataTo, ReadEnable;
    ConfigIsRegisterFile(run);
    ConfigHoldsLastWrites(After(run).history.port.writes);
    AnswerIsFetched(run, c, later);
  }

  /** Main result: and in any run a read of 0x04 returns the pins as they were two cycles before; one of 0x08
      the output register, which has every write whose B has been taken; one of 0x20 the interrupt bits that
      are due; and one of an offset without a readable register 0. */
  lemma ReadsReturnState(run: seq<Cycles>, c: Cycles, later: seq<Cycles>) returns (shown: nat, status: bv32)
    requires ReadEnable(After(run).device.port, c.port)
    ensures var addr, t := c.port.arAddr % 256, After(run).history.port;
            && (addr == 0x04 ==> Answers(run, c, later, PinsAt(run, |run| - 2)))
            && t.bs <= shown <= |t.writes|
            && (addr == 0x08 ==> Answers(run, c, later, OutputAfter(t.writes[..shown])))
            && (forall b: Index :: Bit(status, b) <==> Due(After(run).history.cycles, b))
            && (addr == 0x20 ==> Answers(run, c, later, status))
            && (addr !in {0x00, 0x04, 0x08, 0x14, 0x20, 0x24, 0x28, 0x2c} ==> Answers(run, c, later, 0))
  {
    hide After, ReadEnable, Due, Bit, OutputAfter, PinsAt;
    AnswerIsFetched(run, c, later);
    PinsArrive(run);
    shown := OutputReadsLinearize(run);
    status := After(run).device.core.raw;
    forall b: Index
      ensures Bit(status, b) <==> Due(After(run).history.cycles, b)
    {
      InterruptsAreSticky(run, b);
    }
  }

  // ---- The peripheral as the clocked module it is ----

  class Peripheral {
    const port: LiteSlave.Port
    var config: Config
    var pulses: Pulses
    var inputMs: bv32
    var inputQ: bv32
    var inputLast: bv32
    var output: bv32
    var raw: bv32
    var intr: bool

    // What has crossed the port since reset.
    ghost var history: History

    function State(): Device
      reads this, port
    {
      Device(port.State(), pulses, Core(config, inputMs, inputQ, inputLast, output, raw, intr))
    }

    ghost predicate Valid()
      reads this, port
    {
      DeviceInv(State(), history) && Sticky(State(), history) && SoftwarePulsesAreWrites(State(), history)
    }

    constructor ()
      ensures Valid() && fresh(port)
      ensures State() == RESET_DEVICE && history == NO_HISTORY
    {
      port := new LiteSlave.Port();
      config := Config(0, 0, 0, 0, 0, false);
      pulses := NO_PULSE;
      inputMs, inputQ, inputLast, output, raw, intr := 0, 0, 0, 0, 0, false;
      history := NO_HISTORY;
      new;
      StickyAlways([]);
    }

    /** One rising clock edge with reset inactive, for any master. The blocks run in an order that lets each
        of them read the values from before the edge. */
    method Clock(i: Inputs, pins: bv32)
      requires Valid()
      modifies this, port
      ensures Valid()
      ensures State() == NextDevice(old(State()), i, pins)
      ensures history == ObserveDevice(old(history), old(State()), i)
    {
      hide DeviceInv, Sticky, SoftwarePulsesAreWrites, NextCore, Events, Acks, ReadMux, LiteSlave.Next, LiteSlave.Observe;
      ghost var d := State();
      var muxed := ReadMux(State().core, Low(i.arAddr));
      var writeEnable := WriteEnable(port.State(), i);
      var addr := WriteAddr(port.State(), i);
      ClockCore(i, pins, writeEnable, addr);
      pulses := if writeEnable then PulsesOf(addr) else NO_PULSE;
      port.Clock(i, muxed);

      StepKeepsDevice(d, history, i, pins);
      StepKeepsSticky(d, history, i, pins);
      StepKeepsSoftwarePulses(d, history, i, pins);
      history := ObserveDevice(history, d, i);
    }

    method ClockCore(i: Inputs, pins: bv32, writeEnable: bool, addr: Offset)
      requires writeEnable == WriteEnable(port.State(), i) && addr == WriteAddr(port.State(), i)
      modifies `raw, `intr, `inputLast, `inputQ, `inputMs, `output, `config
      ensures State().core == NextCore(old(State()), i, pins)
    {
      hide WriteConfig, NextRaw, NextOutput, And, WriteEnable, WriteAddr;
      ClockInterrupts();
      ClockOutput();
      inputLast := inputQ;
      inputQ := inputMs;
      inputMs := pins;
      if writeEnable {
        config := WriteConfig(config, Write(addr, i.wData));
      }
    }

    method ClockInterrupts()
      modifies `raw, `intr
      ensures raw == NextRaw(old(State()).core, pulses, port.wrData)
      ensures intr == (And(old(raw), config.mask) != 0)
    {
      hide LevelActive, EdgeActive, Or, And, Not;
      var core := Core(config, inputMs, inputQ, inputLast, output, raw, intr);
      intr := And(raw, config.mask) != 0;
      if pulses.intClr {
        raw := And(raw, Not(port.wrData));
      }
      raw := Or(Or(raw, LevelActive(core)), EdgeActive(core));
      if pulses.intSet {
        raw := Or(raw, port.wrData);
      }
    }

    method ClockOutput()
      modifies `output
      ensures output == NextOutput(old(output), pulses, port.wrData)
    {
      if pulses.set_ {
        output := Or(output, port.wrData);
      } else if pulses.clr {
        output := And(output, Not(port.wrData));
      } else if pulses.out {
        output := port.wrData;
      }
    }
  }
}
