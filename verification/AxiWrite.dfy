/** The write half of the converter (fpga/axi4_axi4lite_conv.v): one clock edge is one step. */
module AxiWrite {
  import opened AxiBurst
  import opened Words

  type Strobe = x: int | 0 <= x < 16

  datatype Beat = Beat(data: bv32, strb: Strobe)

  /** awvalid_mask_q, wvalid_mask_q, awvalid_q, awaddr_q, awcnt_q, awid_q, awlen_q, awburst_q, blast_q. */
  datatype Regs = Regs(awMask: bool, wMask: bool, awValid: bool, awAddr: Word, awCnt: Len,
                       awId: int, awLen: Len, awBurst: BurstType, bLast: bool)

  /** What the master (inport) and the AXI4-Lite slave (outport) drive during one cycle. */
  datatype Inputs = Inputs(awValid: bool, aw: Command, wValid: bool, w: Beat, wLast: bool, bReady: bool,
                           outAwReady: bool, outWReady: bool, outBValid: bool, outBResp: int)

  const RESET := Regs(false, false, false, 0, 0, 0, 0, Fixed, false)

  // ---- Output assignments ----

  predicate OutAwValid(s: Regs, i: Inputs) {
    (i.awValid && i.wValid && !s.awMask) || (s.awValid && i.wValid)
  }

  function OutAwAddr(s: Regs, i: Inputs): Word {
    if s.awValid then s.awAddr else i.aw.addr
  }

  predicate InAwReady(s: Regs, i: Inputs) { i.outAwReady && !s.awMask }

  predicate InWReady(i: Inputs) { i.outWReady }

  predicate InBValid(s: Regs, i: Inputs) { i.outBValid && s.bLast }

  predicate OutBReady(s: Regs, i: Inputs) { !s.bLast || i.bReady }

  predicate AwAccepted(s: Regs, i: Inputs) { i.awValid && InAwReady(s, i) }

  predicate WAccepted(i: Inputs) { i.wValid && InWReady(i) }

  predicate BAccepted(s: Regs, i: Inputs) { InBValid(s, i) && i.bReady }

  /** A response taken from the slave; only the last one of a burst is a B transfer to the master. */
  predicate LiteBAccepted(s: Regs, i: Inputs) { i.outBValid && OutBReady(s, i) }

  predicate LiteAwAccepted(s: Regs, i: Inputs) { OutAwValid(s, i) && i.outAwReady }

  // ---- The registers after the edge ----

  function Next(s: Regs, i: Inputs): Regs {
    var m := s.(awMask := AwAccepted(s, i) || (s.awMask && !BAccepted(s, i)),
    wMask := WAccepted(i) || (s.wMask && !BAccepted(s, i)));
    if s.awValid && LiteAwAccepted(s, i) then
      m.(awAddr := CalculateAddrNext(s.awAddr, s.awBurst, s.awLen),
      awValid := s.awCnt != 1 && s.awValid,
      bLast := s.awCnt == 1 || s.bLast,
      awCnt := (s.awCnt - 1) % 256)
    else if AwAccepted(s, i) then
      if WAccepted(i) then
        m.(awId := i.aw.id, awValid := !i.wLast, awCnt := i.aw.len,
        awAddr := CalculateAddrNext(i.aw.addr, i.aw.burst, i.aw.len),
        awLen := i.aw.len, awBurst := i.aw.burst, bLast := i.wLast)
      else
        m.(awId := i.aw.id, awValid := true, awCnt := (i.aw.len + 1) % 256,
        awAddr := i.aw.addr, awLen := i.aw.len, awBurst := i.aw.burst, bLast := false)
    else if BAccepted(s, i) then
      m.(bLast := false)
    else
      m
  }

  // ---- What an observer of both ports has seen ----

  /** An accepted write command with the data beats accepted for it so far. */
  datatype Burst = Burst(cmd: Command, beats: seq<Beat>) {
    predicate Complete() { |beats| == cmd.len + 1 }
  }

  /** A B transfer to the master. */
  datatype Ack = Ack(id: int, resp: int)

  /** `liteAw`, `liteW` and `liteB` are the AXI4-Lite address and data transfers and responses, `acks` the B
      transfers given to the master, `busy` whether the slave owes a B for a transfer it accepted. */
  datatype Trace = Trace(bursts: seq<Burst>, liteAw: seq<Word>, liteW: seq<Beat>, liteB: seq<int>, acks: seq<Ack>,
                         busy: bool)

  const NOTHING := Trace([], [], [], [], [], false)

  function AddBeat(bursts: seq<Burst>, w: Beat): seq<Burst> {
    if bursts == [] then bursts
    else
      var last := bursts[|bursts| - 1];
      bursts[|bursts| - 1 := last.(beats := last.beats + [w])]
  }

  function Observe(t: Trace, s: Regs, i: Inputs): Trace {
    var started := if AwAccepted(s, i) then t.bursts + [Burst(i.aw, [])] else t.bursts;
    Trace(
      if WAccepted(i) then AddBeat(started, i.w) else started,
      if LiteAwAccepted(s, i) then t.liteAw + [OutAwAddr(s, i)] else t.liteAw,
      if WAccepted(i) then t.liteW + [i.w] else t.liteW,
      if LiteBAccepted(s, i) then t.liteB + [i.outBResp] else t.liteB,
      if BAccepted(s, i) then t.acks + [Ack(s.awId, i.outBResp)] else t.acks,
      LiteAwAccepted(s, i) || WAccepted(i) || (t.busy && !LiteBAccepted(s, i)))
  }

  // ---- Contracts of the two neighbours ----

  /** The burst whose data the master still owes, if any. */
  predicate Open(t: Trace) {
    t.bursts != [] && !t.bursts[|t.bursts| - 1].Complete()
  }

  /** W never runs ahead of AW, and WLAST marks exactly the last beat. */
  predicate MasterKeeps(t: Trace, i: Inputs) {
    i.wValid ==>
      if Open(t) then
        var b := t.bursts[|t.bursts| - 1];
        i.wLast <==> |b.beats| == b.cmd.len
      else i.awValid && (i.wLast <==> i.aw.len == 0)
  }

  /** AWREADY and WREADY follow each other, and one write is served at a time up to its B handshake. */
  predicate SlaveKeeps(t: Trace, i: Inputs) {
    && i.outAwReady == i.outWReady
    && (t.busy ==> !i.outAwReady)
    && (i.outBValid ==> t.busy)
  }

  predicate Keeps(t: Trace, i: Inputs) { MasterKeeps(t, i) && SlaveKeeps(t, i) }

  // ---- The specification ----

  function BurstAddresses(b: Burst): (addrs: seq<Word>) {
    seq(|b.beats|, k requires 0 <= k => Iterate(b.cmd.addr, b.cmd.burst, b.cmd.len, k))
  }

  function Addresses(bursts: seq<Burst>): seq<Word> {
    if bursts == [] then [] else
      Addresses(bursts[..|bursts| - 1]) + BurstAddresses(bursts[|bursts| - 1])
  }

  function Beats(bursts: seq<Burst>): seq<Beat> {
    if bursts == [] then [] else Beats(bursts[..|bursts| - 1]) + bursts[|bursts| - 1].beats
  }

  /** Every accepted burst becomes the AXI4-Lite writes of its beats, at the burst addresses, in order. */
  ghost predicate WritesRefine(t: Trace) {
    && t.liteAw == Addresses(t.bursts)
    && t.liteW == Beats(t.bursts)
  }

  /** A burst gets all its beats and then one answer with its id before the next one is accepted. */
  ghost predicate AnswersRefine(t: Trace) {
    && (forall n | 0 <= n < |t.bursts| - 1 :: t.bursts[n].Complete())
    && (Open(t) ==> |t.bursts[|t.bursts| - 1].beats| <= t.bursts[|t.bursts| - 1].cmd.len)
    && |t.bursts| - 1 <= |t.acks| <= |t.bursts| - (if Open(t) then 1 else 0)
    && (forall n | 0 <= n < |t.acks| :: t.acks[n].id == t.bursts[n].cmd.id)
  }

  /** How many writes come before those of burst `n`. */
  function Before(bursts: seq<Burst>, n: nat): nat
    requires n <= |bursts|
  {
    |Beats(bursts[..n])|
  }

  /** Every write is answered once, and the response of a burst is the response to its last beat. */
  ghost predicate ResponsesRefine(t: Trace) {
    && |t.liteB| + (if t.busy then 1 else 0) == |t.liteW|
    && |t.acks| <= |t.bursts|
    && forall n | 0 <= n < |t.acks| :: AnsweredByLast(t, n)
  }

  predicate AnsweredByLast(t: Trace, n: nat)
    requires n < |t.acks| <= |t.bursts|
  {
    var end := Before(t.bursts, n + 1);
    0 < end <= |t.liteB| && t.acks[n].resp == t.liteB[end - 1]
  }

  // ---- The invariant ----

  /** awvalid_q, awaddr_q and awcnt_q hold exactly the part of the current burst still to be issued. */
  ghost predicate Current(s: Regs, b: Burst) {
    var k := |b.beats|;
    && s.awId == b.cmd.id
    && k <= b.cmd.len + 1
    && s.awValid == (k <= b.cmd.len)
    && s.bLast == !s.awValid
    && (s.awValid ==>
          && s.awAddr == Iterate(b.cmd.addr, b.cmd.burst, b.cmd.len, k)
          && s.awCnt == (b.cmd.len + 1 - k) % 256
          && s.awLen == b.cmd.len && s.awBurst == b.cmd.burst)
  }

  ghost predicate Progress(s: Regs, t: Trace) {
    && s.awMask == (|t.acks| < |t.bursts|)
    && (s.awMask ==> Current(s, t.bursts[|t.bursts| - 1]))
    && (!s.awMask ==> !s.awValid && !s.bLast && !t.busy && !Open(t))
    && (s.bLast ==> t.busy)
  }

  ghost predicate Inv(s: Regs, t: Trace) {
    WritesRefine(t) && AnswersRefine(t) && ResponsesRefine(t) && Progress(s, t)
  }

  lemma AddressesExtend(bursts: seq<Burst>, b: Burst)
    ensures Addresses(bursts + [b]) == Addresses(bursts) + BurstAddresses(b)
    ensures Beats(bursts + [b]) == Beats(bursts) + b.beats
  {
    hide Iterate, BurstAddresses;
    assert (bursts + [b])[..|bursts|] == bursts;
  }

  /** One more beat on the last burst is one more write at its next address. */
  lemma BeatExtends(bursts: seq<Burst>, w: Beat)
    requires bursts != []
    ensures var b := bursts[|bursts| - 1];
            && Addresses(AddBeat(bursts, w))
               == Addresses(bursts) + [Iterate(b.cmd.addr, b.cmd.burst, b.cmd.len, |b.beats|)]
            && Beats(AddBeat(bursts, w)) == Beats(bursts) + [w]
  {
    var b := bursts[|bursts| - 1];
    var b' := b.(beats := b.beats + [w]);
    assert AddBeat(bursts, w)[..|bursts| - 1] == bursts[..|bursts| - 1];
    assert BurstAddresses(b') == BurstAddresses(b) + [Iterate(b.cmd.addr, b.cmd.burst, b.cmd.len, |b.beats|)];
  }

  /** The command the next data beat belongs to. */
  function BeatOwner(t: Trace, i: Inputs): Burst {
    if Open(t) then t.bursts[|t.bursts| - 1] else Burst(i.aw, [])
  }

  /** Which transfers can happen together: an address is downstream exactly with its data, an AW is only
      taken between bursts, and a B only ends a burst that has all its beats. */
  lemma Transfers(s: Regs, t: Trace, i: Inputs)
    requires Progress(s, t) && Keeps(t, i)
    ensures LiteAwAccepted(s, i) == WAccepted(i)
    ensures WAccepted(i) ==> OutAwAddr(s, i) == var b := BeatOwner(t, i); Iterate(b.cmd.addr, b.cmd.burst, b.cmd.len, |b.beats|)
    ensures AwAccepted(s, i) ==> |t.acks| >= |t.bursts| && !Open(t) && !t.busy
    ensures WAccepted(i) && !AwAccepted(s, i) ==> Open(t) && s.awValid
    ensures BAccepted(s, i) ==> !Open(t) && |t.acks| < |t.bursts| && s.awId == t.bursts[|t.bursts| - 1].cmd.id
                                && !AwAccepted(s, i) && !WAccepted(i)
  {
  }

  lemma StepKeepsWrites(s: Regs, t: Trace, i: Inputs)
    requires WritesRefine(t) && Progress(s, t) && Keeps(t, i)
    ensures WritesRefine(Observe(t, s, i))
  {
    hide Iterate, Addresses, Beats;
    Transfers(s, t, i);
    var b := Burst(i.aw, []);
    AddressesExtend(t.bursts, b);
    if WAccepted(i) {
      BeatExtends(if AwAccepted(s, i) then t.bursts + [b] else t.bursts, i.w);
    }
  }

  lemma StepKeepsAnswers(s: Regs, t: Trace, i: Inputs)
    requires AnswersRefine(t) && Progress(s, t) && Keeps(t, i)
    ensures AnswersRefine(Observe(t, s, i))
  {
    hide Iterate, CalculateAddrNext;
    Transfers(s, t, i);
    var t' := Observe(t, s, i);
    assert |t'.bursts| == |t.bursts| + (if AwAccepted(s, i) then 1 else 0);
    assert forall n | 0 <= n < |t.bursts| - 1 :: t'.bursts[n] == t.bursts[n];
    assert AwAccepted(s, i) && t.bursts != [] ==> t'.bursts[|t.bursts| - 1] == t.bursts[|t.bursts| - 1];
    assert forall n | 0 <= n < |t.bursts| :: t'.bursts[n].cmd == t.bursts[n].cmd;
  }

  lemma EarlierBeats(t: Trace, t': Trace, n: nat)
    requires n <= |t.bursts| && n <= |t'.bursts| && t.bursts[..n] == t'.bursts[..n]
    ensures Before(t.bursts, n) == Before(t'.bursts, n)
  {
  }

  lemma StepKeepsResponses(s: Regs, t: Trace, i: Inputs)
    requires WritesRefine(t) && AnswersRefine(t) && ResponsesRefine(t) && Progress(s, t) && Keeps(t, i)
    ensures ResponsesRefine(Observe(t, s, i))
  {
    Transfers(s, t, i);
    var t' := Observe(t, s, i);
    hide Iterate, CalculateAddrNext, Addresses, Beats, Current;
    forall n | 0 <= n < |t'.acks|
      ensures AnsweredByLast(t', n)
    {
      assert t'.bursts[..n + 1] == t.bursts[..n + 1];
      EarlierBeats(t, t', n + 1);
      if n < |t.acks| {
        assert AnsweredByLast(t, n);
      } else {
        assert t.bursts[..n + 1] == t.bursts;
        SomeBeat(t.bursts);
      }
    }
  }

  /** The beats of the bursts whose B was taken have all been answered. */
  lemma AnsweredBeats(t: Trace)
    requires ResponsesRefine(t)
    ensures |t.acks| <= |t.bursts| && Before(t.bursts, |t.acks|) <= |t.liteB|
  {
    if t.acks != [] {
      assert AnsweredByLast(t, |t.acks| - 1);
    }
  }

  lemma SomeBeat(bursts: seq<Burst>)
    requires bursts != [] && bursts[|bursts| - 1].Complete()
    ensures |Beats(bursts)| > 0
  {
  }

  /** A beat issued from the held command advances it by one address. */
  lemma ContinueKeepsCurrent(s: Regs, b: Burst, i: Inputs)
    requires Current(s, b) && s.awMask && s.awValid && LiteAwAccepted(s, i)
    ensures Current(Next(s, i), b.(beats := b.beats + [i.w]))
  {
    hide CalculateAddrNext;
    var k := |b.beats|;
    assert (s.awCnt == 1) == (k == b.cmd.len);
  }

  lemma AcceptKeepsCurrent(s: Regs, i: Inputs)
    requires !s.awMask && !s.awValid && AwAccepted(s, i)
    requires WAccepted(i) ==> (i.wLast <==> i.aw.len == 0)
    ensures Current(Next(s, i), Burst(i.aw, if WAccepted(i) then [i.w] else []))
  {
    hide Iterate, CalculateAddrNext;
    IterateOnce(i.aw.addr, i.aw.burst, i.aw.len);
  }

  lemma StepKeepsProgress(s: Regs, t: Trace, i: Inputs)
    requires AnswersRefine(t) && Progress(s, t) && Keeps(t, i)
    ensures Progress(Next(s, i), Observe(t, s, i))
  {
    hide Iterate, CalculateAddrNext;
    Transfers(s, t, i);
    var t' := Observe(t, s, i);
    if AwAccepted(s, i) {
      AcceptKeepsCurrent(s, i);
      assert t'.bursts[|t.bursts|] == Burst(i.aw, if WAccepted(i) then [i.w] else []);
    } else if WAccepted(i) {
      ContinueKeepsCurrent(s, t.bursts[|t.bursts| - 1], i);
    }
  }

  lemma StepKeepsInv(s: Regs, t: Trace, i: Inputs)
    requires Inv(s, t) && Keeps(t, i)
    ensures Inv(Next(s, i), Observe(t, s, i))
  {
    hide WritesRefine, AnswersRefine, ResponsesRefine, Progress, Next, Observe;
    StepKeepsResponses(s, t, i);
    StepKeepsWrites(s, t, i);
    StepKeepsAnswers(s, t, i);
    StepKeepsProgress(s, t, i);
  }

  // ---- Runs ----

  datatype State = State(regs: Regs, trace: Trace)

  function After(run: seq<Inputs>): State {
    if run == [] then State(RESET, NOTHING) else
      var st := After(run[..|run| - 1]);
      var i := run[|run| - 1];
      State(Next(st.regs, i), Observe(st.trace, st.regs, i))
  }

  /** Both neighbours keep their contracts at every cycle of the run. */
  ghost predicate Allowed(run: seq<Inputs>) {
    run != [] ==> Allowed(run[..|run| - 1]) && Keeps(After(run[..|run| - 1]).trace, run[|run| - 1])
  }

  lemma {:induction false} RunInvariant(run: seq<Inputs>)
    requires Allowed(run)
    ensures Inv(After(run).regs, After(run).trace)
  {
    if run != [] {
      RunInvariant(run[..|run| - 1]);
      var st := After(run[..|run| - 1]);
      StepKeepsInv(st.regs, st.trace, run[|run| - 1]);
    }
  }

  /** Main result: on every run the converter refines AXI4 write bursts into AXI4-Lite writes. */
  lemma WriteBurstsRefine(run: seq<Inputs>)
    requires Allowed(run)
    ensures WritesRefine(After(run).trace) && AnswersRefine(After(run).trace) && ResponsesRefine(After(run).trace)
  {
    RunInvariant(run);
  }

  /** An answered burst stays as it is. */
  lemma AnsweredStays(s: Regs, t: Trace, i: Inputs, n: nat)
    requires Progress(s, t) && AnswersRefine(t) && Keeps(t, i) && n < |t.acks|
    ensures var t' := Observe(t, s, i);
            n < |t.bursts| <= |t'.bursts| && t'.bursts[n] == t.bursts[n] && |t.acks| <= |t'.acks|
  {
    hide Iterate, CalculateAddrNext;
    Transfers(s, t, i);
  }

  /** In every reachable state nothing blocks: an idle converter takes a command the slave is ready for,
      an open burst takes its next beat when the slave is ready, the B of any beat but the last is drained
      without the master, and the B of the last is handed on as soon as the slave gives it. */
  lemma NothingBlocks(run: seq<Inputs>, i: Inputs)
    requires Allowed(run) && Keeps(After(run).trace, i)
    ensures Progresses(After(run).trace, Observe(After(run).trace, After(run).regs, i), i)
  {
    RunInvariant(run);
    StepProgresses(After(run).regs, After(run).trace, i);
  }

  ghost predicate Progresses(t: Trace, t': Trace, i: Inputs) {
    && (|t.acks| == |t.bursts| && i.awValid && i.outAwReady ==>
          t'.bursts == t.bursts + [Burst(i.aw, if i.wValid then [i.w] else [])] && t'.acks == t.acks)
    && (Open(t) ==>
          && t'.acks == t.acks
          && if i.wValid && i.outWReady then
               t'.bursts == AddBeat(t.bursts, i.w) && |t'.liteAw| == |t.liteAw| + 1 && t'.busy
             else
               t'.bursts == t.bursts && t'.busy == (t.busy && !i.outBValid))
    && (!Open(t) && |t.acks| < |t.bursts| ==>
          && t.busy && t'.bursts == t.bursts
          && (i.outBValid && i.bReady ==>
                !t'.busy && t'.acks == t.acks + [Ack(t.bursts[|t.bursts| - 1].cmd.id, i.outBResp)])
          && (!(i.outBValid && i.bReady) ==> t'.busy && t'.acks == t.acks))
  }

  lemma StepProgresses(s: Regs, t: Trace, i: Inputs)
    requires Progress(s, t) && AnswersRefine(t) && Keeps(t, i)
    ensures Progresses(t, Observe(t, s, i), i)
  {
    hide Iterate, CalculateAddrNext;
    Transfers(s, t, i);
    assert [] + [i.w] == [i.w];
    assert AddBeat(t.bursts + [Burst(i.aw, [])], i.w) == t.bursts + [Burst(i.aw, [i.w])];
  }

  // ---- VALID and its payload wait for READY (section A3.2.1) ----

  /** The master and the slave hold what has not been taken. */
  predicate Holds(s: Regs, i: Inputs, next: Inputs) {
    && (i.awValid && !AwAccepted(s, i) ==> next.awValid && next.aw == i.aw)
    && (i.wValid && !WAccepted(i) ==> next.wValid && next.w == i.w && next.wLast == i.wLast)
    && (i.outBValid && !LiteBAccepted(s, i) ==> next.outBValid && next.outBResp == i.outBResp)
  }

  /** If its neighbours hold theirs, the converter holds its address until the slave takes it, and its B until
      the master does. */
  lemma OutputsHold(run: seq<Inputs>, i: Inputs, next: Inputs)
    requires Allowed(run) && Keeps(After(run).trace, i) && Holds(After(run).regs, i, next)
    ensures var s := After(run).regs; var s' := Next(s, i);
            && (OutAwValid(s, i) && !i.outAwReady ==> OutAwValid(s', next) && OutAwAddr(s', next) == OutAwAddr(s, i))
            && (InBValid(s, i) && !i.bReady ==> InBValid(s', next) && s'.awId == s.awId && next.outBResp == i.outBResp)
  {
    hide Iterate, CalculateAddrNext;
    RunInvariant(run);
    Transfers(After(run).regs, After(run).trace, i);
  }

  // ---- The same result beat by beat, against the standard's address equations ----

  lemma {:induction false} BeatPosition(bursts: seq<Burst>, n: nat, k: nat)
    requires n < |bursts| && k < |bursts[n].beats|
    ensures |Addresses(bursts)| == |Beats(bursts)| > Before(bursts, n) + k
    ensures var b := bursts[n]; var p := Before(bursts, n) + k;
            Addresses(bursts)[p] == Iterate(b.cmd.addr, b.cmd.burst, b.cmd.len, k) && Beats(bursts)[p] == b.beats[k]
  {
    var last := |bursts| - 1;
    SameCount(bursts);
    SameCount(bursts[..last]);
    if n < last {
      BeatPosition(bursts[..last], n, k);
      assert bursts[..last][..n] == bursts[..n];
    }
  }

  lemma {:induction false} SameCount(bursts: seq<Burst>)
    ensures |Addresses(bursts)| == |Beats(bursts)|
  {
    if bursts != [] {
      SameCount(bursts[..|bursts| - 1]);
    }
  }

  /** Beat `k` of burst `n` is written at the address section A3.4.1 gives it, with its own data and strobes. */
  lemma EveryBeatIsWrittenAtItsAxiAddress(run: seq<Inputs>, n: nat, k: nat)
    requires Allowed(run)
    requires n < |After(run).trace.bursts| && k < |After(run).trace.bursts[n].beats|
    requires var cmd := After(run).trace.bursts[n].cmd;
             LegalBurst(cmd.addr, cmd.burst, cmd.len) && (cmd.burst in {Fixed, Wrap} || cmd.addr % 4 == 0)
    ensures var t := After(run).trace; var b := t.bursts[n]; var p := Before(t.bursts, n) + k;
            && p < |t.liteAw| && p < |t.liteW|
            && t.liteAw[p] == AxiAddress(b.cmd.addr, b.cmd.burst, b.cmd.len, k)
            && t.liteW[p] == b.beats[k]
  {
    hide Iterate, AxiAddress, Addresses, Beats, After, Allowed;
    RunInvariant(run);
    var t := After(run).trace;
    var b := t.bursts[n];
    BeatPosition(t.bursts, n, k);
    assert k <= b.cmd.len;
    AxiConformance(b.cmd.addr, b.cmd.burst, b.cmd.len);
  }
}
