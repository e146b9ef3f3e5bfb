/** The read half of the converter (fpga/axi4_axi4lite_conv.v): one clock edge is one step. */
module AxiRead {
  import opened AxiBurst
  import opened Words

  datatype Data = Data(data: bv32, resp: int)

  /** arvalid_mask_q, arvalid_q, araddr_q, arcnt_q, arid_q, arlen_q, arburst_q. */
  datatype Regs = Regs(arMask: bool, arValid: bool, arAddr: Word, arCnt: Len, arId: int, arLen: Len,
                       arBurst: BurstType)

  datatype Inputs = Inputs(arValid: bool, ar: Command, rReady: bool, outArReady: bool, outRValid: bool, outR: Data)

  const RESET := Regs(false, false, 0, 0, 0, 0, Fixed)

  // ---- Output assignments ----

  predicate OutArValid(s: Regs, i: Inputs) { (i.arValid && !s.arMask) || s.arValid }

  function OutArAddr(s: Regs, i: Inputs): Word { if s.arValid then s.arAddr else i.ar.addr }

  predicate InArReady(s: Regs, i: Inputs) { i.outArReady && !s.arMask }

  predicate InRLast(s: Regs) { s.arCnt == 0 }

  predicate ArAccepted(s: Regs, i: Inputs) { i.arValid && InArReady(s, i) }

  predicate LiteArAccepted(s: Regs, i: Inputs) { OutArValid(s, i) && i.outArReady }

  /** RVALID and RREADY are passed straight through, so this is a transfer on both ports. */
  predicate RAccepted(i: Inputs) { i.outRValid && i.rReady }

  // ---- The registers after the edge ----

  function Next(s: Regs, i: Inputs): Regs {
    var cleared := s.arMask && !(RAccepted(i) && InRLast(s));
    var m := s.(arMask := cleared || ArAccepted(s, i));
    if s.arValid && LiteArAccepted(s, i) then
      m.(arAddr := CalculateAddrNext(s.arAddr, s.arBurst, s.arLen),
      arValid := s.arCnt != 1 && s.arValid,
      arCnt := (s.arCnt - 1) % 256)
    else if ArAccepted(s, i) then
      m.(arValid := i.ar.len != 0, arCnt := i.ar.len, arLen := i.ar.len, arBurst := i.ar.burst,
      arAddr := CalculateAddrNext(i.ar.addr, i.ar.burst, i.ar.len), arId := i.ar.id)
    else
      m
  }

  // ---- What an observer of both ports has seen ----

  datatype Reply = Reply(id: int, r: Data, last: bool)

  /** An accepted read command, how many reads were issued for it and the replies the master got. */
  datatype Burst = Burst(cmd: Command, issued: nat, replies: seq<Reply>) {
    predicate Complete() { issued == |replies| == cmd.len + 1 }
  }

  /** `liteAr` and `liteR` are the AXI4-Lite address and data transfers, `busy` whether a reply is due. */
  datatype Trace = Trace(bursts: seq<Burst>, liteAr: seq<Word>, liteR: seq<Data>, busy: bool)

  const NOTHING := Trace([], [], [], false)

  function Deliver(bursts: seq<Burst>, reply: Reply): seq<Burst> {
    if bursts == [] then bursts
    else
      var last := bursts[|bursts| - 1];
      bursts[|bursts| - 1 := last.(replies := last.replies + [reply])]
  }

  function Issue(bursts: seq<Burst>): seq<Burst> {
    if bursts == [] then bursts
    else
      var last := bursts[|bursts| - 1];
      bursts[|bursts| - 1 := last.(issued := last.issued + 1)]
  }

  function Observe(t: Trace, s: Regs, i: Inputs): Trace {
    var delivered := if RAccepted(i) then Deliver(t.bursts, Reply(s.arId, i.outR, InRLast(s))) else t.bursts;
    var started := if ArAccepted(s, i) then delivered + [Burst(i.ar, 0, [])] else delivered;
    Trace(
      if LiteArAccepted(s, i) then Issue(started) else started,
      if LiteArAccepted(s, i) then t.liteAr + [OutArAddr(s, i)] else t.liteAr,
      if RAccepted(i) then t.liteR + [i.outR] else t.liteR,
      LiteArAccepted(s, i) || (t.busy && !RAccepted(i)))
  }

  /** The slave answers after the cycle of acceptance and has at most one read outstanding; it may
      take the next read in the very cycle its reply is collected. The master is unrestricted. */
  predicate Keeps(t: Trace, i: Inputs) {
    && (i.outRValid ==> t.busy)
    && (i.outArReady ==> !t.busy || RAccepted(i))
  }

  // ---- The specification ----

  function BurstAddresses(b: Burst): seq<Word> {
    seq(b.issued, k requires 0 <= k => Iterate(b.cmd.addr, b.cmd.burst, b.cmd.len, k))
  }

  function Addresses(bursts: seq<Burst>): seq<Word> {
    if bursts == [] then [] else
      Addresses(bursts[..|bursts| - 1]) + BurstAddresses(bursts[|bursts| - 1])
  }

  function ReplyData(replies: seq<Reply>): seq<Data> {
    seq(|replies|, k requires 0 <= k < |replies| => replies[k].r)
  }

  function Returned(bursts: seq<Burst>): seq<Data> {
    if bursts == [] then [] else
      Returned(bursts[..|bursts| - 1]) + ReplyData(bursts[|bursts| - 1].replies)
  }

  /** Every accepted burst becomes reads at the burst addresses, and their data comes back in order. */
  ghost predicate ReadsRefine(t: Trace) {
    && t.liteAr == Addresses(t.bursts)
    && t.liteR == Returned(t.bursts)
  }

  /** Replies carry the burst's id, RLAST on exactly the last of its len + 1 beats. */
  ghost predicate WellTagged(b: Burst) {
    forall k | 0 <= k < |b.replies| :: b.replies[k].id == b.cmd.id && (b.replies[k].last <==> k == b.cmd.len)
  }

  ghost predicate RepliesRefine(t: Trace) {
    && (forall n | 0 <= n < |t.bursts| :: WellTagged(t.bursts[n]))
    && (forall n | 0 <= n < |t.bursts| - 1 :: t.bursts[n].Complete())
  }

  // ---- The invariant ----

  /** arvalid_q iff arcnt_q is nonzero, and both hold exactly the reads still to be issued. */
  ghost predicate Current(s: Regs, b: Burst, busy: bool) {
    && s.arId == b.cmd.id
    && 1 <= b.issued <= b.cmd.len + 1
    && s.arValid == (b.issued <= b.cmd.len)
    && s.arCnt == b.cmd.len + 1 - b.issued
    && |b.replies| + (if busy then 1 else 0) == b.issued
    && s.arMask == (|b.replies| <= b.cmd.len)
    && (s.arValid ==>
          && s.arAddr == Iterate(b.cmd.addr, b.cmd.burst, b.cmd.len, b.issued)
          && s.arLen == b.cmd.len && s.arBurst == b.cmd.burst)
  }

  ghost predicate Progress(s: Regs, t: Trace) {
    && (s.arValid <==> s.arCnt != 0)
    && (s.arValid ==> s.arMask)
    && if t.bursts == [] then !s.arMask && !t.busy else Current(s, t.bursts[|t.bursts| - 1], t.busy)
  }

  ghost predicate Inv(s: Regs, t: Trace) {
    ReadsRefine(t) && RepliesRefine(t) && Progress(s, t)
  }

  /** The next read belongs to the burst in hand, or to the one accepted in this cycle. */
  lemma Transfers(s: Regs, t: Trace, i: Inputs)
    requires Progress(s, t) && Keeps(t, i)
    ensures LiteArAccepted(s, i) && ArAccepted(s, i) ==>
              OutArAddr(s, i) == Iterate(i.ar.addr, i.ar.burst, i.ar.len, 0)
    ensures LiteArAccepted(s, i) && !ArAccepted(s, i) ==>
              t.bursts != [] && OutArAddr(s, i) == var b := t.bursts[|t.bursts| - 1];
                                                   Iterate(b.cmd.addr, b.cmd.burst, b.cmd.len, b.issued)
    ensures LiteArAccepted(s, i) && !ArAccepted(s, i) ==> t.bursts != [] && s.arValid
    ensures ArAccepted(s, i) ==> LiteArAccepted(s, i) && !RAccepted(i) && !s.arValid
    ensures ArAccepted(s, i) && t.bursts != [] ==> t.bursts[|t.bursts| - 1].Complete()
    ensures RAccepted(i) ==> t.bursts != [] && t.busy
  {
  }

  lemma StartExtends(bursts: seq<Burst>, b: Burst)
    requires b.issued == 0 && b.replies == []
    ensures Addresses(bursts + [b]) == Addresses(bursts)
    ensures Returned(bursts + [b]) == Returned(bursts)
  {
    assert (bursts + [b])[..|bursts|] == bursts;
  }

  lemma DeliverExtends(bursts: seq<Burst>, reply: Reply)
    requires bursts != []
    ensures Addresses(Deliver(bursts, reply)) == Addresses(bursts)
    ensures Returned(Deliver(bursts, reply)) == Returned(bursts) + [reply.r]
  {
    var b := bursts[|bursts| - 1];
    var b' := b.(replies := b.replies + [reply]);
    assert Deliver(bursts, reply)[..|bursts| - 1] == bursts[..|bursts| - 1];
    assert ReplyData(b'.replies) == ReplyData(b.replies) + [reply.r];
  }

  lemma IssueAddress(b: Burst)
    ensures BurstAddresses(b.(issued := b.issued + 1))
            == BurstAddresses(b) + [Iterate(b.cmd.addr, b.cmd.burst, b.cmd.len, b.issued)]
  {
    hide Iterate;
  }

  lemma Regroup(a: seq<Word>, b: seq<Word>, x: Word)
    ensures a + (b + [x]) == a + b + [x]
  {
  }

  lemma IssueExtends(bursts: seq<Burst>)
    requires bursts != []
    ensures var b := bursts[|bursts| - 1];
            Addresses(Issue(bursts))
            == Addresses(bursts) + [Iterate(b.cmd.addr, b.cmd.burst, b.cmd.len, b.issued)]
    ensures Returned(Issue(bursts)) == Returned(bursts)
  {
    hide Iterate;
    var earlier, b := bursts[..|bursts| - 1], bursts[|bursts| - 1];
    IssueAddress(b);
    assert Issue(bursts)[..|bursts| - 1] == earlier;
    assert Issue(bursts)[|bursts| - 1] == b.(issued := b.issued + 1);
    Regroup(Addresses(earlier), BurstAddresses(b), Iterate(b.cmd.addr, b.cmd.burst, b.cmd.len, b.issued));
  }

  lemma StepKeepsReads(s: Regs, t: Trace, i: Inputs)
    requires ReadsRefine(t) && Progress(s, t) && Keeps(t, i)
    ensures ReadsRefine(Observe(t, s, i))
  {
    hide Iterate, Addresses, Returned, CalculateAddrNext;
    Transfers(s, t, i);
    var reply := Reply(s.arId, i.outR, InRLast(s));
    if RAccepted(i) {
      DeliverExtends(t.bursts, reply);
    }
    var delivered := if RAccepted(i) then Deliver(t.bursts, reply) else t.bursts;
    StartExtends(delivered, Burst(i.ar, 0, []));
    var started := if ArAccepted(s, i) then delivered + [Burst(i.ar, 0, [])] else delivered;
    if LiteArAccepted(s, i) {
      IssueExtends(started);
    }
  }

  lemma StepKeepsReplies(s: Regs, t: Trace, i: Inputs)
    requires RepliesRefine(t) && Progress(s, t) && Keeps(t, i)
    ensures RepliesRefine(Observe(t, s, i))
  {
    hide Iterate;
    Transfers(s, t, i);
    var t' := Observe(t, s, i);
    forall n | 0 <= n < |t'.bursts|
      ensures WellTagged(t'.bursts[n]) && (n < |t'.bursts| - 1 ==> t'.bursts[n].Complete())
    {
      if n < |t.bursts| {
        assert WellTagged(t.bursts[n]);
      }
    }
  }

  lemma StepKeepsProgress(s: Regs, t: Trace, i: Inputs)
    requires Progress(s, t) && Keeps(t, i)
    ensures Progress(Next(s, i), Observe(t, s, i))
  {
    hide CalculateAddrNext;
    Transfers(s, t, i);
    var t' := Observe(t, s, i);
    if ArAccepted(s, i) {
      IterateOnce(i.ar.addr, i.ar.burst, i.ar.len);
      assert t'.bursts[|t.bursts|] == Burst(i.ar, 1, []);
    }
  }

  lemma StepKeepsInv(s: Regs, t: Trace, i: Inputs)
    requires Inv(s, t) && Keeps(t, i)
    ensures Inv(Next(s, i), Observe(t, s, i))
  {
    hide ReadsRefine, RepliesRefine, Progress, Next, Observe;
    StepKeepsProgress(s, t, i);
    StepKeepsReads(s, t, i);
    StepKeepsReplies(s, t, i);
  }

  // ---- Runs ----

  datatype State = State(regs: Regs, trace: Trace)

  function After(run: seq<Inputs>): State {
    if run == [] then State(RESET, NOTHING) else
      var st := After(run[..|run| - 1]);
      var i := run[|run| - 1];
      State(Next(st.regs, i), Observe(st.trace, st.regs, i))
  }

  ghost predicate Allowed(run: seq<Inputs>) {
    run != [] ==> Allowed(run[..|run| - 1]) && Keeps(After(run[..|run| - 1]).trace, run[|run| - 1])
  }

  lemma {:induction false} RunInvariant(run: seq<Inputs>)
    requires Allowed(run)
    ensures Inv(After(run).regs, After(run).trace)
  {
    if run != [] {
      RunInvariant(run[..|run| - 1]);
      var st := After(run[..|run| - 1]);
      StepKeepsInv(st.regs, st.trace, run[|run| - 1]);
    }
  }

  /** Main result: on every run the converter refines AXI4 read bursts into AXI4-Lite reads. */
  lemma ReadBurstsRefine(run: seq<Inputs>)
    requires Allowed(run)
    ensures ReadsRefine(After(run).trace) && RepliesRefine(After(run).trace)
    ensures var s := After(run).regs; (s.arValid <==> s.arCnt != 0) && (s.arValid ==> s.arMask)
  {
    RunInvariant(run);
  }

  /** A command is taken exactly between bursts: the previous one has had all its replies, RLAST included. */
  lemma CommandTakenBetweenBursts(run: seq<Inputs>, i: Inputs)
    requires Allowed(run) && Keeps(After(run).trace, i) && i.arValid && i.outArReady
    ensures var t := After(run).trace;
            ArAccepted(After(run).regs, i) <==> forall n | 0 <= n < |t.bursts| :: t.bursts[n].Complete()
  {
    RunInvariant(run);
    var t := After(run).trace;
    if t.bursts != [] {
      assert After(run).regs.arMask == !t.bursts[|t.bursts| - 1].Complete();
    }
  }

  /** The reply that comes next in a burst. */
  function NextReply(b: Burst, r: Data): Reply { Reply(b.cmd.id, r, |b.replies| == b.cmd.len) }

  /** What one cycle adds to the last burst. */
  ghost predicate Progresses(t: Trace, t': Trace, i: Inputs) {
    var last := |t.bursts| - 1;
    && ((t.bursts == [] || t.bursts[last].Complete()) && i.arValid && i.outArReady ==>
          t'.bursts == t.bursts + [Burst(i.ar, 1, [])] && t'.liteAr == t.liteAr + [i.ar.addr])
    && (t.bursts != [] && !t.bursts[last].Complete() ==>
          var b := t.bursts[last];
          && |t'.bursts| == |t.bursts| && t'.bursts[last].cmd == b.cmd
          && t'.bursts[last].issued == b.issued + (if i.outArReady && b.issued <= b.cmd.len then 1 else 0)
          && |t'.liteAr| == |t.liteAr| + (if i.outArReady && b.issued <= b.cmd.len then 1 else 0)
          && t'.bursts[last].replies == b.replies + (if i.outRValid && i.rReady then [NextReply(b, i.outR)] else []))
    && (i.outRValid && i.rReady ==>
          t'.liteR == t.liteR + [i.outR] && t.bursts != [] && !t.bursts[last].Complete())
  }

  lemma StepProgresses(s: Regs, t: Trace, i: Inputs)
    requires Progress(s, t) && Keeps(t, i)
    ensures Progresses(t, Observe(t, s, i), i)
  {
    hide Iterate, CalculateAddrNext;
    Transfers(s, t, i);
  }

  /** A complete burst stays as it is. */
  lemma CompleteStays(s: Regs, t: Trace, i: Inputs, n: nat)
    requires Progress(s, t) && Keeps(t, i) && n < |t.bursts| && t.bursts[n].Complete()
    ensures n < |Observe(t, s, i).bursts| && Observe(t, s, i).bursts[n] == t.bursts[n]
  {
    hide Iterate, CalculateAddrNext;
    Transfers(s, t, i);
  }

  /** In every reachable state nothing blocks: an idle converter takes a command the slave is ready for and
      issues its first read with it, a burst with reads left issues the next one when the slave is ready, and a
      reply is delivered when the slave gives it and the master takes it. */
  lemma NothingBlocks(run: seq<Inputs>, i: Inputs)
    requires Allowed(run) && Keeps(After(run).trace, i)
    ensures Progresses(After(run).trace, Observe(After(run).trace, After(run).regs, i), i)
  {
    RunInvariant(run);
    StepProgresses(After(run).regs, After(run).trace, i);
  }

  // ---- VALID and its payload wait for READY (section A3.2.1) ----

  /** The master and the slave hold what has not been taken. */
  predicate Holds(s: Regs, i: Inputs, next: Inputs) {
    && (i.arValid && !ArAccepted(s, i) ==> next.arValid && next.ar == i.ar)
    && (i.outRValid && !RAccepted(i) ==> next.outRValid && next.outR == i.outR)
  }

  /** If its neighbours hold theirs, the converter holds its address until the slave takes it, and the reply,
      its id and RLAST until the master does. */
  lemma OutputsHold(run: seq<Inputs>, i: Inputs, next: Inputs)
    requires Allowed(run) && Keeps(After(run).trace, i) && Holds(After(run).regs, i, next)
    ensures var s := After(run).regs; var s' := Next(s, i);
            && (OutArValid(s, i) && !i.outArReady ==> OutArValid(s', next) && OutArAddr(s', next) == OutArAddr(s, i))
            && (i.outRValid && !i.rReady ==>
                  next.outRValid && next.outR == i.outR && InRLast(s') == InRLast(s) && s'.arId == s.arId)
  {
    hide Iterate, CalculateAddrNext;
    RunInvariant(run);
  }

  // ---- The same result beat by beat, against the standard's address equations ----

  /** How many reads come before those of burst `n`. */
  function Before(bursts: seq<Burst>, n: nat): nat
    requires n <= |bursts|
  {
    |Addresses(bursts[..n])|
  }

  lemma {:induction false} ReadPosition(bursts: seq<Burst>, n: nat, k: nat)
    requires n < |bursts| && k < bursts[n].issued
    ensures Before(bursts, n) + k < |Addresses(bursts)|
    ensures var cmd := bursts[n].cmd;
            Addresses(bursts)[Before(bursts, n) + k] == Iterate(cmd.addr, cmd.burst, cmd.len, k)
  {
    hide Iterate;
    var last := |bursts| - 1;
    if n < last {
      ReadPosition(bursts[..last], n, k);
      assert bursts[..last][..n] == bursts[..n];
    }
  }

  /** Complete bursts have had as many replies as reads. */
  lemma {:induction false} SameCount(bursts: seq<Burst>)
    requires forall b | b in bursts :: b.Complete()
    ensures |Addresses(bursts)| == |Returned(bursts)|
  {
    if bursts != [] {
      assert bursts[|bursts| - 1] in bursts;
      SameCount(bursts[..|bursts| - 1]);
    }
  }

  lemma {:induction false} ReplyPosition(bursts: seq<Burst>, n: nat, k: nat)
    requires n < |bursts| && k < |bursts[n].replies|
    requires forall b | b in bursts[..n] :: b.Complete()
    ensures Before(bursts, n) + k < |Returned(bursts)|
    ensures Returned(bursts)[Before(bursts, n) + k] == bursts[n].replies[k].r
  {
    var last := |bursts| - 1;
    if n < last {
      assert bursts[..last][..n] == bursts[..n];
      ReplyPosition(bursts[..last], n, k);
    } else {
      SameCount(bursts[..last]);
    }
  }

  /** Read `k` of burst `n` is issued at the address section A3.4.1 gives it, and its answer is reply `k` of
      that burst, with the burst's id and RLAST iff it is the last. */
  lemma EveryReadIsIssuedAtItsAxiAddress(run: seq<Inputs>, n: nat, k: nat)
    requires Allowed(run)
    requires n < |After(run).trace.bursts| && k < After(run).trace.bursts[n].issued
    requires var cmd := After(run).trace.bursts[n].cmd;
             LegalBurst(cmd.addr, cmd.burst, cmd.len) && (cmd.burst in {Fixed, Wrap} || cmd.addr % 4 == 0)
    ensures var t := After(run).trace; var b := t.bursts[n]; var p := Before(t.bursts, n) + k;
            && p < |t.liteAr|
            && t.liteAr[p] == AxiAddress(b.cmd.addr, b.cmd.burst, b.cmd.len, k)
            && (k < |b.replies| ==> p < |t.liteR| && b.replies[k] == Reply(b.cmd.id, t.liteR[p], k == b.cmd.len))
  {
    hide Iterate, AxiAddress, Addresses, Returned, After, Allowed;
    RunInvariant(run);
    var t := After(run).trace;
    var b := t.bursts[n];
    ReadPosition(t.bursts, n, k);
    assert k <= b.cmd.len;
    AxiConformance(b.cmd.addr, b.cmd.burst, b.cmd.len);
    if k < |b.replies| {
      ReplyPosition(t.bursts, n, k);
    }
  }
}
