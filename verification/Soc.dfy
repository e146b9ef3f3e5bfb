/** The converter wired to the GPIO peripheral: the AXI4 master's side is all that is left open. */
module Soc {
  import AxiBurst
  import AxiWrite
  import AxiRead
  import LiteSlave
  import Gpio
  import opened Words

  /** What the AXI4 master and the pins drive during one cycle. */
  datatype Inputs = Inputs(awValid: bool, aw: AxiBurst.Command, wValid: bool, w: AxiWrite.Beat, wLast: bool, bReady: bool,
                           arValid: bool, ar: AxiBurst.Command, rReady: bool, pins: bv32)

  datatype State = State(write: AxiWrite.Regs, read: AxiRead.Regs, device: Gpio.Device,
                         writeTrace: AxiWrite.Trace, readTrace: AxiRead.Trace, history: Gpio.History)

  const RESET := State(AxiWrite.RESET, AxiRead.RESET, Gpio.RESET_DEVICE,
                       AxiWrite.NOTHING, AxiRead.NOTHING, Gpio.NO_HISTORY)

  // ---- The wires between the two modules ----

  function WriteSide(i: Inputs, awReady: bool, wReady: bool, bValid: bool): AxiWrite.Inputs {
    AxiWrite.Inputs(i.awValid, i.aw, i.wValid, i.w, i.wLast, i.bReady, awReady, wReady, bValid, 0)
  }

  function ReadSide(i: Inputs, arReady: bool, rValid: bool, r: AxiRead.Data): AxiRead.Inputs {
    AxiRead.Inputs(i.arValid, i.ar, i.rReady, arReady, rValid, r)
  }

  /** The converter's request outputs do not depend on the slave's answers in the same cycle. */
  function ToSlave(s: State, i: Inputs): LiteSlave.Inputs {
    var w := WriteSide(i, false, false, false);
    var r := ReadSide(i, false, false, AxiRead.Data(0, 0));
    LiteSlave.Inputs(AxiWrite.OutAwValid(s.write, w), AxiWrite.OutAwAddr(s.write, w), i.wValid, i.w.data,
                     AxiWrite.OutBReady(s.write, w),
                     AxiRead.OutArValid(s.read, r), AxiRead.OutArAddr(s.read, r), i.rReady)
  }

  function ToWrite(s: State, i: Inputs): AxiWrite.Inputs {
    var lite := ToSlave(s, i);
    WriteSide(i, LiteSlave.AwReady(s.device.port, lite), LiteSlave.WReady(s.device.port, lite), s.device.port.bValid)
  }

  /** Both response codes of the slave are constantly OKAY (0). */
  function ToRead(s: State, i: Inputs): AxiRead.Inputs {
    ReadSide(i, !s.device.port.rValid, s.device.port.rValid, AxiRead.Data(s.device.port.rdData, 0))
  }

  function Next(s: State, i: Inputs): State {
    var lite := ToSlave(s, i);
    State(AxiWrite.Next(s.write, ToWrite(s, i)),
          AxiRead.Next(s.read, ToRead(s, i)),
          Gpio.NextDevice(s.device, lite, i.pins),
          AxiWrite.Observe(s.writeTrace, s.write, ToWrite(s, i)),
          AxiRead.Observe(s.readTrace, s.read, ToRead(s, i)),
          Gpio.ObserveDevice(s.history, s.device, lite))
  }

  /** The only assumption on the master: W never runs ahead of AW, and WLAST is on the last beat. */
  predicate MasterKeeps(s: State, i: Inputs) {
    AxiWrite.MasterKeeps(s.writeTrace, ToWrite(s, i))
  }

  // ---- The invariant ----

  /** The register writes that a sequence of AXI4-Lite transfers stands for. */
  function RegisterWrites(addrs: seq<Word>, beats: seq<AxiWrite.Beat>): seq<LiteSlave.Write>
    requires |addrs| == |beats|
  {
    seq(|addrs|, k requires 0 <= k < |addrs| => LiteSlave.Write(addrs[k] % 256, beats[k].data))
  }

  /** The slave never holds half a write, and what it owes is what the converter waits for. */
  ghost predicate Synchronized(s: State) {
    && !s.device.port.awValid && !s.device.port.wValid
    && s.writeTrace.busy == s.device.port.bValid
    && s.readTrace.busy == s.device.port.rValid
  }

  ghost predicate WritesArrive(s: State) {
    && |s.writeTrace.liteAw| == |s.writeTrace.liteW|
    && s.history.port.writes == RegisterWrites(s.writeTrace.liteAw, s.writeTrace.liteW)
    && s.device.core.config == Gpio.ConfigAfter(s.history.port.writes)
    && s.history.port.bs == |s.writeTrace.liteB|
  }

  /** The reads that reached the peripheral are the converter's, and their values are what it was given. */
  ghost predicate ReadsArrive(s: State) {
    && |s.history.port.fetched| == |s.readTrace.liteAr|
    && (forall k | 0 <= k < |s.readTrace.liteAr| ::
          s.history.port.fetched[k].addr == LiteSlave.Low(s.readTrace.liteAr[k]))
    && |s.history.port.rs| == |s.readTrace.liteR|
    && (forall k | 0 <= k < |s.readTrace.liteR| :: s.readTrace.liteR[k] == AxiRead.Data(s.history.port.rs[k], 0))
  }

  ghost predicate Inv(s: State) {
    && AxiWrite.Inv(s.write, s.writeTrace)
    && AxiRead.Inv(s.read, s.readTrace)
    && Gpio.DeviceInv(s.device, s.history)
    && Synchronized(s) && WritesArrive(s) && ReadsArrive(s)
  }

  // ---- The slave meets the converter's assumptions, and the composition keeps the invariant ----

  lemma SlaveKeeps(s: State, i: Inputs)
    requires Synchronized(s) && MasterKeeps(s, i)
    ensures AxiWrite.Keeps(s.writeTrace, ToWrite(s, i)) && AxiRead.Keeps(s.readTrace, ToRead(s, i))
  {
  }

  /** Address and data are accepted by the slave in the same cycle, and only together. */
  lemma AcceptedTogether(s: State, i: Inputs)
    requires AxiWrite.Progress(s.write, s.writeTrace) && Synchronized(s) && MasterKeeps(s, i)
    ensures var lite := ToSlave(s, i); var w := ToWrite(s, i);
            && LiteSlave.AwAccepted(s.device.port, lite) == LiteSlave.WAccepted(s.device.port, lite)
               == AxiWrite.LiteAwAccepted(s.write, w) == AxiWrite.WAccepted(w)
               == LiteSlave.WriteEnable(s.device.port, lite)
            && lite.awAddr == AxiWrite.OutAwAddr(s.write, w)
  {
    SlaveKeeps(s, i);
    AxiWrite.Transfers(s.write, s.writeTrace, ToWrite(s, i));
  }

  lemma StepKeepsSynchronized(s: State, i: Inputs)
    requires AxiWrite.Progress(s.write, s.writeTrace) && Synchronized(s) && MasterKeeps(s, i)
    ensures Synchronized(Next(s, i))
  {
    AcceptedTogether(s, i);
  }

  lemma StepKeepsWrites(s: State, i: Inputs)
    requires AxiWrite.Progress(s.write, s.writeTrace) && Synchronized(s) && MasterKeeps(s, i)
    requires WritesArrive(s)
    ensures WritesArrive(Next(s, i))
  {
    hide AxiWrite.Next, AxiRead.Next, AxiRead.Observe, LiteSlave.Next, Gpio.NextPulses, Gpio.NextRaw, Gpio.NextOutput;
    hide Gpio.WriteConfig, Gpio.Muxed, AxiWrite.Progress;
    AcceptedTogether(s, i);
    var s', lite := Next(s, i), ToSlave(s, i);
    var writes := s.history.port.writes;
    if LiteSlave.WriteEnable(s.device.port, lite) {
      var w := LiteSlave.Write(LiteSlave.Low(lite.awAddr), i.w.data);
      assert s'.history.port.writes == writes + [w];
      assert (writes + [w])[..|writes|] == writes;
    }
  }

  lemma StepKeepsReads(s: State, i: Inputs)
    requires Synchronized(s) && ReadsArrive(s)
    ensures ReadsArrive(Next(s, i))
  {
  }

  lemma StepKeepsInv(s: State, i: Inputs)
    requires Inv(s) && MasterKeeps(s, i)
    ensures Inv(Next(s, i))
  {
    SlaveKeeps(s, i);
    AxiWrite.StepKeepsInv(s.write, s.writeTrace, ToWrite(s, i));
    AxiRead.StepKeepsInv(s.read, s.readTrace, ToRead(s, i));
    Gpio.StepKeepsDevice(s.device, s.history, ToSlave(s, i), i.pins);
    StepKeepsSynchronized(s, i);
    StepKeepsWrites(s, i);
    StepKeepsReads(s, i);
  }

  // ---- Runs ----

  function After(run: seq<Inputs>): State {
    if run == [] then RESET else Next(After(run[..|run| - 1]), run[|run| - 1])
  }

  ghost predicate Allowed(run: seq<Inputs>) {
    run != [] ==> Allowed(run[..|run| - 1]) && MasterKeeps(After(run[..|run| - 1]), run[|run| - 1])
  }

  lemma {:induction false} RunInvariant(run: seq<Inputs>)
    requires Allowed(run)
    ensures Inv(After(run))
  {
    if run != [] {
      RunInvariant(run[..|run| - 1]);
      StepKeepsInv(After(run[..|run| - 1]), run[|run| - 1]);
    }
  }

  /** Main result: on every run of a well-behaved master, each beat of each burst becomes exactly one
      register write, at its burst address and with its own data, in order; the configuration registers are
      the fold of these writes, and the output register the fold of the first `shown` of them, which include
      every beat of every burst whose B the master has taken. */
  lemma BurstsBecomeRegisterWrites(run: seq<Inputs>) returns (shown: nat)
    requires Allowed(run)
    ensures var s := After(run); var bursts, acks := s.writeTrace.bursts, s.writeTrace.acks;
            var writes := s.history.port.writes;
            && |AxiWrite.Addresses(bursts)| == |AxiWrite.Beats(bursts)|
            && writes == RegisterWrites(AxiWrite.Addresses(bursts), AxiWrite.Beats(bursts))
            && s.device.core.config == Gpio.ConfigAfter(writes)
            && |acks| <= |bursts| && AxiWrite.Before(bursts, |acks|) <= shown <= |writes|
            && s.device.core.output == Gpio.OutputAfter(writes[..shown])
            && AxiWrite.AnswersRefine(s.writeTrace)
            && forall n | 0 <= n < |acks| :: acks[n].resp == 0
  {
    RunInvariant(run);
    shown := Gpio.Shown(After(run).device, After(run).history);
    var t := After(run).writeTrace;
    AxiWrite.AnsweredBeats(t);
    OkayOnly(run);
    forall n | 0 <= n < |t.acks|
      ensures t.acks[n].resp == 0
    {
      assert AxiWrite.AnsweredByLast(t, n);
    }
  }

  /** The slave's write response is always OKAY. */
  lemma {:induction false} OkayOnly(run: seq<Inputs>)
    ensures forall k | 0 <= k < |After(run).writeTrace.liteB| :: After(run).writeTrace.liteB[k] == 0
  {
    if run != [] {
      OkayOnly(run[..|run| - 1]);
    }
  }

  /** Main result: each burst read fetches one register at its burst address, in order, and the master gets
      the values fetched, with the burst's id and RLAST on the last. */
  lemma BurstsBecomeRegisterReads(run: seq<Inputs>)
    requires Allowed(run)
    ensures var s := After(run); var bursts := s.readTrace.bursts; var fetched := s.history.port.fetched;
            && |fetched| == |AxiRead.Addresses(bursts)|
            && (forall k | 0 <= k < |fetched| :: fetched[k].addr == AxiRead.Addresses(bursts)[k] % 256)
            && |AxiRead.Returned(bursts)| <= |fetched|
            && (forall k | 0 <= k < |AxiRead.Returned(bursts)| ::
                  AxiRead.Returned(bursts)[k] == AxiRead.Data(fetched[k].data, 0))
            && AxiRead.RepliesRefine(s.readTrace)
  {
    RunInvariant(run);
  }

  /** The flow-control error the converter would report cannot occur, and the slave never latches half a
      write, so its configuration registers always take the right data. */
  lemma FlowControlNeverDiffers(run: seq<Inputs>, i: Inputs)
    requires Allowed(run) && MasterKeeps(After(run), i)
    ensures var s := After(run); var w := ToWrite(s, i);
            && w.outAwReady == w.outWReady
            && !s.device.port.awValid && !s.device.port.wValid
            && LiteSlave.AwAccepted(s.device.port, ToSlave(s, i)) == LiteSlave.WAccepted(s.device.port, ToSlave(s, i))
  {
    RunInvariant(run);
    AcceptedTogether(After(run), i);
  }

  // ---- The parts of the system are the modules proved elsewhere ----

  /** What the peripheral sees of a run. */
  function PeripheralRun(run: seq<Inputs>): (r: seq<Gpio.Cycles>)
    ensures |r| == |run|
  {
    if run == [] then []
    else
      var earlier, i := run[..|run| - 1], run[|run| - 1];
      PeripheralRun(earlier) + [Gpio.Cycles(ToSlave(After(earlier), i), i.pins)]
  }

  /** Main result: every run of the system is a run of the peripheral, so all that is proved of its runs holds
      here: its output and interrupt registers, and what its reads return. */
  lemma {:induction false} PeripheralRuns(run: seq<Inputs>)
    ensures Gpio.After(PeripheralRun(run)) == Gpio.State(After(run).device, After(run).history)
  {
    if run != [] {
      hide ToSlave, ToWrite, ToRead, AxiWrite.Next, AxiRead.Next, Gpio.NextDevice, Gpio.ObserveDevice;
      var earlier := run[..|run| - 1];
      PeripheralRuns(earlier);
      assert PeripheralRun(run)[..|run| - 1] == PeripheralRun(earlier);
    }
  }

  /** The pins reach the peripheral in every cycle. */
  lemma {:induction false} PinsReachPeripheral(run: seq<Inputs>, k: nat)
    requires k < |run|
    ensures PeripheralRun(run)[k].pins == run[k].pins
  {
    if k < |run| - 1 {
      PinsReachPeripheral(run[..|run| - 1], k);
    }
  }

  // ---- Progress ----

  /** No read is being presented to the peripheral, which would come before a write. */
  predicate Quiet(s: State, i: Inputs) { !ToSlave(s, i).arValid }

  /** In every reachable state nothing blocks, on the read side: while no R is pending, a burst with reads left
      fetches the next register, and a new command its first; a pending R is delivered when the master takes
      it. */
  lemma ReadsNeverBlock(run: seq<Inputs>, i: Inputs)
    requires Allowed(run) && MasterKeeps(After(run), i)
    ensures ReadsMove(After(run), Next(After(run), i), i)
    ensures |Next(After(run), i).history.port.fetched| == |Next(After(run), i).readTrace.liteAr|
  {
    RunInvariant(run);
    SlaveKeeps(After(run), i);
    StepKeepsReads(After(run), i);
    hide AxiRead.Observe, MasterKeeps, After, Allowed, WritesArrive, AxiWrite.Inv, Gpio.DeviceInv, AxiRead.Current;
    var s := After(run);
    AxiRead.StepProgresses(s.read, s.readTrace, ToRead(s, i));
    ReadSideMoves(s, i);
  }

  lemma ReadSideMoves(s: State, i: Inputs)
    requires Synchronized(s) && AxiRead.Inv(s.read, s.readTrace)
    requires AxiRead.Progresses(s.readTrace, AxiRead.Observe(s.readTrace, s.read, ToRead(s, i)), ToRead(s, i))
    ensures ReadsMove(s, Next(s, i), i)
  {
    hide AxiRead.Observe, AxiBurst.Iterate, AxiBurst.CalculateAddrNext, AxiRead.ReadsRefine;
  }

  ghost predicate ReadsMove(s: State, s': State, i: Inputs) {
    var t, t' := s.readTrace, s'.readTrace;
    var last := |t.bursts| - 1;
    && ((t.bursts == [] || t.bursts[last].Complete()) && i.arValid ==>
          t'.bursts == t.bursts + [AxiRead.Burst(i.ar, 1, [])])
    && (t.bursts != [] && !t.bursts[last].Complete() && i.rReady ==>
          && |t'.bursts| == |t.bursts| && t'.bursts[last].cmd == t.bursts[last].cmd
          && if t.busy then t'.bursts[last].issued == t.bursts[last].issued
                            && |t'.bursts[last].replies| == |t.bursts[last].replies| + 1
             else t'.bursts[last].issued == t.bursts[last].issued + 1
                  && t'.bursts[last].replies == t.bursts[last].replies)
  }

  ghost predicate WritesMove(s: State, s': State, i: Inputs) {
    var t, t' := s.writeTrace, s'.writeTrace;
    && (|t.acks| == |t.bursts| && i.awValid && Quiet(s, i) ==>
          t'.bursts == t.bursts + [AxiWrite.Burst(i.aw, if i.wValid then [i.w] else [])])
    && (AxiWrite.Open(t) ==>
          && t'.acks == t.acks
          && (t.busy ==> t'.bursts == t.bursts && !t'.busy)
          && (!t.busy && i.wValid && Quiet(s, i) ==> t'.bursts == AxiWrite.AddBeat(t.bursts, i.w) && t'.busy))
    && (!AxiWrite.Open(t) && |t.acks| < |t.bursts| && i.bReady ==>
          |t'.acks| == |t.acks| + 1 && t'.bursts == t.bursts)
  }

  /** And on the write side: while no B is pending and no read is presented, a command is taken between bursts
      and a beat of an open burst becomes a register write; a pending B is drained within a burst at once, and
      at its end handed over when the master takes it. */
  lemma WritesNeverBlock(run: seq<Inputs>, i: Inputs)
    requires Allowed(run) && MasterKeeps(After(run), i)
    ensures WritesMove(After(run), Next(After(run), i), i)
    ensures |Next(After(run), i).history.port.writes| == |Next(After(run), i).writeTrace.liteW|
  {
    hide AxiBurst.Iterate, AxiBurst.CalculateAddrNext, ReadsArrive, AxiRead.Inv, Gpio.DeviceInv, AxiWrite.Observe;
    RunInvariant(run);
    SlaveKeeps(After(run), i);
    StepKeepsWrites(After(run), i);
    AxiWrite.StepProgresses(After(run).write, After(run).writeTrace, ToWrite(After(run), i));
  }

  /** How many steps a read burst is from its end: a fetch and a delivery for each beat. */
  function ReadsLeft(b: AxiRead.Burst): int { 2 * (b.cmd.len + 1) - b.issued - |b.replies| }

  /** The read burst has been answered, or each cycle so far has brought it a step nearer. */
  ghost predicate ReadAdvanced(s: State, n: nat, cmd: AxiBurst.Command, cycles: nat) {
    && n < |s.readTrace.bursts| && s.readTrace.bursts[n].cmd == cmd
    && (s.readTrace.bursts[n].Complete() || ReadsLeft(s.readTrace.bursts[n]) + cycles <= 2 * (cmd.len + 1))
  }

  lemma ReadAdvances(run: seq<Inputs>, i: Inputs, n: nat, cmd: AxiBurst.Command, cycles: nat)
    requires Allowed(run) && MasterKeeps(After(run), i) && i.rReady
    requires ReadAdvanced(After(run), n, cmd, cycles)
    ensures ReadAdvanced(Next(After(run), i), n, cmd, cycles + 1)
  {
    hide AxiRead.Current, AxiBurst.Iterate, AxiBurst.CalculateAddrNext, WritesArrive, AxiWrite.Inv, Gpio.DeviceInv;
    hide AxiRead.Observe, AxiRead.Next, ToRead, AxiRead.Keeps;
    RunInvariant(run);
    SlaveKeeps(After(run), i);
    var s := After(run);
    if s.readTrace.bursts[n].Complete() {
      AxiRead.CompleteStays(s.read, s.readTrace, ToRead(s, i), n);
    } else {
      assert n == |s.readTrace.bursts| - 1;
      ReadsNeverBlock(run, i);
    }
  }

  lemma LastCycle(run: seq<Inputs>, more: seq<Inputs>)
    requires Allowed(run + more) && more != []
    ensures var k := |more| - 1; var earlier := run + more[..k];
            && Allowed(earlier) && MasterKeeps(After(earlier), more[k])
            && After(run + more) == Next(After(earlier), more[k])
  {
    hide Next, MasterKeeps;
    var k := |more| - 1;
    assert (run + more)[..|run + more| - 1] == run + more[..k] && (run + more)[|run + more| - 1] == more[k];
  }

  lemma {:induction false} ReadAdvancesOver(run: seq<Inputs>, more: seq<Inputs>, n: nat, cmd: AxiBurst.Command)
    requires Allowed(run + more) && forall i | i in more :: i.rReady
    requires ReadAdvanced(After(run), n, cmd, 0)
    ensures ReadAdvanced(After(run + more), n, cmd, |more|)
    decreases |more|
  {
    if more == [] {
      assert run + more == run;
    } else {
      hide ReadAdvanced, Next, MasterKeeps, After, Allowed;
      var k := |more| - 1;
      LastCycle(run, more);
      ReadAdvancesOver(run, more[..k], n, cmd);
      ReadAdvances(run + more[..k], more[k], n, cmd, k);
    }
  }

  /** Main result: a read burst ends. Whatever else the master does, while it takes its replies every accepted
      burst of `len + 1` beats has had all of them, RLAST included, after 2 (len + 1) more cycles. */
  lemma ReadBurstEnds(run: seq<Inputs>, more: seq<Inputs>, n: nat)
    requires Allowed(run + more) && Allowed(run) && n < |After(run).readTrace.bursts|
    requires (forall i | i in more :: i.rReady) && |more| > 2 * After(run).readTrace.bursts[n].cmd.len + 1
    ensures var bursts := After(run + more).readTrace.bursts;
            n < |bursts| && bursts[n].cmd == After(run).readTrace.bursts[n].cmd && bursts[n].Complete()
  {
    hide After, Allowed, AxiBurst.Iterate, AxiBurst.CalculateAddrNext, WritesArrive, AxiWrite.Inv, Gpio.DeviceInv;
    RunInvariant(run);
    RunInvariant(run + more);
    var cmd := After(run).readTrace.bursts[n].cmd;
    ReadAdvancesOver(run, more, n, cmd);
    BurstBounds(After(run + more), n);
  }

  /** Fetches and deliveries never exceed the beats of the burst. */
  lemma BurstBounds(s: State, n: nat)
    requires AxiRead.Inv(s.read, s.readTrace) && n < |s.readTrace.bursts|
    ensures ReadsLeft(s.readTrace.bursts[n]) >= 0
    ensures ReadsLeft(s.readTrace.bursts[n]) == 0 ==> s.readTrace.bursts[n].Complete()
  {
    hide AxiBurst.Iterate, AxiBurst.CalculateAddrNext, AxiRead.ReadsRefine;
  }

  /** How many steps a write burst is from its end: a register write and its B for each beat. */
  function WritesLeft(t: AxiWrite.Trace, b: AxiWrite.Burst): int {
    2 * (b.cmd.len + 1 - |b.beats|) + if t.busy then 1 else 0
  }

  ghost predicate WriteAdvanced(s: State, n: nat, cmd: AxiBurst.Command, cycles: nat) {
    && n < |s.writeTrace.bursts| && s.writeTrace.bursts[n].cmd == cmd
    && (n < |s.writeTrace.acks| || WritesLeft(s.writeTrace, s.writeTrace.bursts[n]) + cycles <= 2 * (cmd.len + 1) + 1)
  }

  /** The master presents data and takes the B, and no read is presented. */
  predicate Serves(s: State, i: Inputs) { i.wValid && i.bReady && Quiet(s, i) }

  lemma WriteStep(s: State, s': State, i: Inputs, n: nat, cmd: AxiBurst.Command, cycles: nat)
    requires n == |s.writeTrace.bursts| - 1 == |s.writeTrace.acks| && WriteAdvanced(s, n, cmd, cycles)
    requires WritesMove(s, s', i) && Serves(s, i)
    ensures WriteAdvanced(s', n, cmd, cycles + 1)
  {
    hide Quiet;
  }

  lemma WriteAdvances(run: seq<Inputs>, i: Inputs, n: nat, cmd: AxiBurst.Command, cycles: nat)
    requires Allowed(run) && MasterKeeps(After(run), i)
    requires n >= |After(run).writeTrace.acks| ==> Serves(After(run), i)
    requires WriteAdvanced(After(run), n, cmd, cycles)
    ensures WriteAdvanced(Next(After(run), i), n, cmd, cycles + 1)
  {
    RunInvariant(run);
    SlaveKeeps(After(run), i);
    var s := After(run);
    if n < |s.writeTrace.acks| {
      AxiWrite.AnsweredStays(s.write, s.writeTrace, ToWrite(s, i), n);
    } else {
      OneOpenBurst(s.writeTrace, n);
      hide WriteAdvanced, Serves, AxiWrite.Progress, AxiWrite.AnswersRefine, Next, WritesMove;
      WritesNeverBlock(run, i);
      WriteStep(s, Next(s, i), i, n, cmd, cycles);
    }
  }

  lemma OneOpenBurst(t: AxiWrite.Trace, n: nat)
    requires AxiWrite.AnswersRefine(t) && |t.acks| <= n < |t.bursts|
    ensures n == |t.bursts| - 1 == |t.acks|
  {
  }

  /** In every cycle until burst `n` is answered the master serves it. */
  ghost predicate Served(run: seq<Inputs>, more: seq<Inputs>, n: nat) {
    forall k | 0 <= k < |more| :: ServedAt(run, more, n, k)
  }

  ghost predicate ServedAt(run: seq<Inputs>, more: seq<Inputs>, n: nat, k: nat)
    requires k < |more|
  {
    var s := After(run + more[..k]);
    |s.writeTrace.acks| <= n ==> Serves(s, more[k])
  }

  lemma ServedBefore(run: seq<Inputs>, more: seq<Inputs>, n: nat)
    requires Served(run, more, n) && more != []
    ensures Served(run, more[..|more| - 1], n) && ServedAt(run, more, n, |more| - 1)
  {
    hide After, Serves;
    var k := |more| - 1;
    forall j | 0 <= j < k
      ensures ServedAt(run, more[..k], n, j)
    {
      assert ServedAt(run, more, n, j) && more[..k][..j] == more[..j];
    }
  }

  lemma {:induction false} WriteAdvancesOver(run: seq<Inputs>, more: seq<Inputs>, n: nat, cmd: AxiBurst.Command)
    requires Allowed(run + more) && Served(run, more, n)
    requires WriteAdvanced(After(run), n, cmd, 0)
    ensures WriteAdvanced(After(run + more), n, cmd, |more|)
    decreases |more|
  {
    if more == [] {
      assert run + more == run;
    } else {
      hide WriteAdvanced, Next, MasterKeeps, Serves, After, Allowed, Served;
      var k := |more| - 1;
      LastCycle(run, more);
      ServedBefore(run, more, n);
      WriteAdvancesOver(run, more[..k], n, cmd);
      WriteAdvances(run + more[..k], more[k], n, cmd, k);
    }
  }

  /** Main result: a write burst ends. If the master presents its data and takes the B, and no read is presented
      to the peripheral, a burst of `len + 1` beats has its B after 2 (len + 1) + 1 more cycles. */
  lemma WriteBurstEnds(run: seq<Inputs>, more: seq<Inputs>, n: nat)
    requires Allowed(run + more) && Allowed(run) && n < |After(run).writeTrace.bursts|
    requires Served(run, more, n) && |more| >= 2 * (After(run).writeTrace.bursts[n].cmd.len + 1) + 1
    ensures n < |After(run + more).writeTrace.acks|
  {
    hide After, Allowed, AxiBurst.Iterate, AxiBurst.CalculateAddrNext, ReadsArrive, AxiRead.Inv, Gpio.DeviceInv, Served;
    RunInvariant(run);
    RunInvariant(run + more);
    var cmd := After(run).writeTrace.bursts[n].cmd;
    WriteAdvancesOver(run, more, n, cmd);
    if |After(run + more).writeTrace.acks| <= n {
      NothingLeft(After(run + more), n);
    }
  }

  lemma NothingLeft(s: State, n: nat)
    requires AxiWrite.Inv(s.write, s.writeTrace) && |s.writeTrace.acks| <= n < |s.writeTrace.bursts|
    ensures WritesLeft(s.writeTrace, s.writeTrace.bursts[n]) > 0
  {
    hide AxiBurst.Iterate, AxiBurst.CalculateAddrNext, AxiWrite.WritesRefine, AxiWrite.ResponsesRefine;
    OneOpenBurst(s.writeTrace, n);
  }

  /** No read is presented if the master presents none and all read bursts are complete. */
  lemma QuietBetweenReads(run: seq<Inputs>, i: Inputs)
    requires Allowed(run) && !i.arValid
    requires forall b | b in After(run).readTrace.bursts :: b.Complete()
    ensures Quiet(After(run), i)
  {
    RunInvariant(run);
    var bursts := After(run).readTrace.bursts;
    if bursts != [] {
      assert bursts[|bursts| - 1] in bursts;
    }
  }
}
