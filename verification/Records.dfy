/**
 What holds of every flow record in every run, and what one record can report
 between its creation and its eviction.
 */
module Records {
  import opened Types
  import opened Flow
  import opened Traces
  import opened Table
  import opened Runs

  // ---- The handshake invariant ---------------------------------------------------

  ghost predicate HandshakeOk(f: FlowState) {
    && (f.halfOpenCounted ==> f.synTime.Some? && !f.timeoutFlagged && InHandshake(f.state))
    && (f.state == SynSent ==> f.synTime.Some? && f.halfOpenCounted == !f.timeoutFlagged)
    && (f.timeoutFlagged ==> f.synTime.Some?)
    && (f.state == SynAckSeen ==> f.synackTime.Some?)
    && (f.state == Established ==> f.established)
    && (f.established ==> f.synackTime.Some?)
    && (f.rtt.Some? ==> f.synTime.Some? && f.synackTime.Some? &&
                        f.rtt.value == SatSub(f.synackTime.value, f.synTime.value))
    && f.retransmits <= f.dataSegments
  }

  lemma StepKeepsHandshake(f: FlowState, p: PacketMeta)
    requires HandshakeOk(f)
    ensures HandshakeOk(StepFlow(f, p))
  {
    match KindOf(p)
    case Datagram | SynKind | RstKind =>
    case SynAckKind => assert HandshakeOk(OnSynAck(f.(lastSeen := p.ts), p));
    case OrdinaryKind => assert HandshakeOk(OnOrdinary(f.(lastSeen := p.ts), p));
  }

  lemma {:induction false} RecordKeepsHandshake(cfg: DetectConfig, k: FlowKey, steps: seq<Step>)
    ensures RecordOf(cfg, k, steps).Some? ==> HandshakeOk(RecordOf(cfg, k, steps).value)
  {
    if steps != [] {
      var init, last := steps[..|steps| - 1], steps[|steps| - 1];
      RecordKeepsHandshake(cfg, k, init);
      var r := RecordOf(cfg, k, init);
      if last.Packet? {
        StepKeepsHandshake(if r.Some? then r.value else NewFlow(last.p), last.p);
      }
    }
  }

  /** Every record of every reachable table is handshake-consistent. */
  lemma RunKeepsHandshake(cfg: DetectConfig, steps: seq<Step>)
    ensures forall k | k in Run(cfg, steps).flows :: HandshakeOk(Run(cfg, steps).flows[k])
  {
    forall k | k in Run(cfg, steps).flows ensures HandshakeOk(Run(cfg, steps).flows[k]) {
      TableIsProduct(cfg, k, steps);
      RecordKeepsHandshake(cfg, k, steps);
    }
  }

  // ---- The life of one record ----------------------------------------------------

  function ApplyOp(cfg: DetectConfig, f: FlowState, op: Op): FlowState {
    match op
    case Pkt(p) => StepFlow(f, p)
    case Tick(now) => if TimedOut(cfg, f, now) then Flagged(f) else f
  }

  function RunOps(cfg: DetectConfig, f: FlowState, ops: seq<Op>): FlowState {
    if ops == [] then f else ApplyOp(cfg, RunOps(cfg, f, ops[..|ops| - 1]), ops[|ops| - 1])
  }

  /** What a sweep leaves of a trace: it ends once its last packet is older than the time to live. */
  function SweepTrace(cfg: DetectConfig, ops: seq<Op>, now: u64): seq<Op> {
    if ops == [] || SatSub(now, LastSeen(ops)) > cfg.flowTtlSecs * 1_000_000_000 then [] else ops + [Tick(now)]
  }

  /** The current trace of `k`, the creating packet first; [] if there is none. */
  function Life(cfg: DetectConfig, k: FlowKey, steps: seq<Step>): seq<Op> {
    if steps == [] then []
    else
      var init, last := Life(cfg, k, steps[..|steps| - 1]), steps[|steps| - 1];
      match last
      case Packet(p) => if p.key == k then init + [Pkt(p)] else init
      case SweepAt(now) => SweepTrace(cfg, init, now)
  }

  /** The record that a trace of `k` computes. */
  ghost predicate IsLife(cfg: DetectConfig, k: FlowKey, r: Option<FlowState>, ops: seq<Op>) {
    if r.None? then ops == []
    else ops != [] && ops[0].Pkt? && ops[0].p.key == k && r.value == RunOps(cfg, NewFlow(ops[0].p), ops)
  }

  lemma RunOpsSnoc(cfg: DetectConfig, f: FlowState, ops: seq<Op>, op: Op)
    ensures RunOps(cfg, f, ops + [op]) == ApplyOp(cfg, RunOps(cfg, f, ops), op)
    ensures RunOps(cfg, f, []) == f
  {
    assert (ops + [op])[..|ops|] == ops;
  }

  lemma {:induction false} LastSeenFollowsTrace(cfg: DetectConfig, f: FlowState, ops: seq<Op>)
    requires ops != [] && ops[0].Pkt?
    ensures RunOps(cfg, f, ops).lastSeen == LastSeen(ops)
  {
    hide NewFlow;
    var n := |ops| - 1;
    if n > 0 {
      LastSeenFollowsTrace(cfg, f, ops[..n]);
    }
  }

  lemma PacketExtendsLife(cfg: DetectConfig, k: FlowKey, r: Option<FlowState>, ops: seq<Op>, p: PacketMeta)
    requires IsLife(cfg, k, r, ops) && p.key == k
    ensures IsLife(cfg, k, RecordStep(cfg, k, r, Packet(p)), ops + [Pkt(p)])
  {
    hide RunOps, NewFlow, StepFlow;
    if ops == [] {
      assert [] + [Pkt(p)] == [Pkt(p)];
      RunOpsSnoc(cfg, NewFlow(p), [], Pkt(p));
    } else {
      RunOpsSnoc(cfg, NewFlow(ops[0].p), ops, Pkt(p));
    }
  }

  lemma SweepExtendsLife(cfg: DetectConfig, k: FlowKey, r: Option<FlowState>, ops: seq<Op>, now: u64)
    requires IsLife(cfg, k, r, ops)
    ensures IsLife(cfg, k, RecordStep(cfg, k, r, SweepAt(now)), SweepTrace(cfg, ops, now))
  {
    hide RunOps, NewFlow, TimedOut;
    if ops != [] {
      LastSeenFollowsTrace(cfg, NewFlow(ops[0].p), ops);
      RunOpsSnoc(cfg, NewFlow(ops[0].p), ops, Tick(now));
    }
  }

  /** A record is its creating packet's fresh record run through its trace, so what is
      proved below of every trace holds of every record of every run. */
  lemma {:induction false} RecordIsItsLife(cfg: DetectConfig, k: FlowKey, steps: seq<Step>)
    ensures IsLife(cfg, k, RecordOf(cfg, k, steps), Life(cfg, k, steps))
  {
    if steps != [] {
      hide IsLife, RecordStep, SweepTrace;
      var init, last := steps[..|steps| - 1], steps[|steps| - 1];
      var r, ops := RecordOf(cfg, k, init), Life(cfg, k, init);
      RecordIsItsLife(cfg, k, init);
      match last
      case Packet(p) =>
        if p.key == k {
          PacketExtendsLife(cfg, k, r, ops, p);
        } else {
          OthersLeaveRecord(cfg, k, r, p);
        }
      case SweepAt(now) => SweepExtendsLife(cfg, k, r, ops, now);
    }
  }

  lemma OthersLeaveRecord(cfg: DetectConfig, k: FlowKey, r: Option<FlowState>, p: PacketMeta)
    requires p.key != k
    ensures RecordStep(cfg, k, r, Packet(p)) == r
  {
  }

  lemma {:induction false} ServiceIsKept(cfg: DetectConfig, f: FlowState, ops: seq<Op>)
    ensures
      var g := RunOps(cfg, f, ops);
      g.service == f.service && g.firstSeen == f.firstSeen && g.proto == f.proto
  {
    if ops != [] {
      ServiceIsKept(cfg, f, ops[..|ops| - 1]);
    }
  }

  /** The service of a record is settled by the packet that created it: the destination of a
      bare SYN, else the endpoint with the lower port, the destination in a tie. */
  lemma ServiceIsSettled(cfg: DetectConfig, k: FlowKey, steps: seq<Step>)
    requires k in Run(cfg, steps).flows
    ensures Life(cfg, k, steps) != [] && Life(cfg, k, steps)[0].Pkt?
    ensures
      var p, service := Life(cfg, k, steps)[0].p, Run(cfg, steps).flows[k].service;
      var (src, dst) := Endpoints(k, p.dir);
      && (InClass(p, SynKind) ==> service == dst)
      && (!InClass(p, SynKind) ==> service == if src.port < dst.port then src else dst)
      && Run(cfg, steps).flows[k].firstSeen == p.ts && Run(cfg, steps).flows[k].proto == p.proto
  {
    TableIsProduct(cfg, k, steps);
    RecordIsItsLife(cfg, k, steps);
    var ops := Life(cfg, k, steps);
    ServiceIsKept(cfg, NewFlow(ops[0].p), ops);
  }

  /** The delta that the packet at position `i` of a life produces. */
  function DeltaAt(cfg: DetectConfig, f: FlowState, ops: seq<Op>, i: nat): PacketDelta
    requires i < |ops| && ops[i].Pkt?
  {
    StepDelta(RunOps(cfg, f, ops[..i]), ops[i].p)
  }

  // ---- The handshake, read off the trace ---------------------------------------------------

  ghost predicate TraceAgrees(f: FlowState, ops: seq<Op>) {
    && f.synTime == FirstSyn(ops) && f.synackTime == LastSynAck(ops)
    && (f.state == SynSent <==> AwaitsSynAck(ops))
    && (f.state == SynAckSeen <==> AwaitsAck(ops))
    && (f.state == Established <==> IsEstablished(ops))
    && (f.state == Closing <==> IsClosing(ops))
    && (f.state == Reset <==> WasReset(ops))
    && f.rtt == LastRtt(ops)
    && (f.established <==> WasEstablished(ops))
  }

  lemma OpOnHandshake(cfg: DetectConfig, f: FlowState, op: Op)
    ensures
      var g := ApplyOp(cfg, f, op);
      && g.synTime == (if f.synTime.None? && Is(op, SynKind) then Some(op.p.ts) else f.synTime)
      && g.synackTime == (if Is(op, SynAckKind) then Some(op.p.ts) else f.synackTime)
      && g.state == (if Is(op, SynKind) then (if f.synTime.None? then SynSent else f.state)
                     else if Is(op, SynAckKind) then SynAckSeen
                     else if Is(op, RstKind) then Reset
                     else if Fins(op) then Closing
                     else if AcksIt(op) && f.state == SynAckSeen then Established
                     else f.state)
      && (g.established <==> f.established || (AcksIt(op) && f.state == SynAckSeen))
      && g.rtt == (if Is(op, SynAckKind) && f.synTime.Some? then Some(SatSub(op.p.ts, f.synTime.value)) else f.rtt)
  {
    hide OnOrdinary, WrapAdd;
    if Is(op, OrdinaryKind) {
      OrdinaryHandshake(f.(lastSeen := op.p.ts), op.p);
    }
  }

  lemma OrdinaryHandshake(f: FlowState, p: PacketMeta)
    ensures
      var g := OnOrdinary(f, p);
      && g.synTime == f.synTime && g.synackTime == f.synackTime && g.rtt == f.rtt && g.state == StateAfter(f, p)
      && (g.established <==> f.established || Establishes(f, p))
  {
    hide OnTracked;
  }

  /** What one more operation does to the times and phases of a trace. */
  lemma TraceSnoc(ops: seq<Op>, op: Op)
    ensures
      var all := ops + [op];
      && FirstSyn(all) == (if FirstSyn(ops).None? && Is(op, SynKind) then Some(op.p.ts) else FirstSyn(ops))
      && LastSynAck(all) == (if Is(op, SynAckKind) then Some(op.p.ts) else LastSynAck(ops))
      && LastRtt(all) == (if Is(op, SynAckKind) && FirstSyn(ops).Some?
                          then Some(SatSub(op.p.ts, FirstSyn(ops).value)) else LastRtt(ops))
  {
    assert (ops + [op])[..|ops|] == ops;
  }

  lemma TraceStep(cfg: DetectConfig, f: FlowState, ops: seq<Op>, op: Op)
    requires TraceAgrees(f, ops)
    ensures TraceAgrees(ApplyOp(cfg, f, op), ops + [op])
  {
    hide ApplyOp, AwaitsSynAck, AwaitsAck, IsClosing, WasEstablished, WasReset, IsEstablished;
    hide FirstSyn, LastSynAck, LastRtt, FirstSynAt, InClass;
    TraceSnoc(ops, op);
    OpOnHandshake(cfg, f, op);
    SynAckSnoc(ops, op);
    AckSnoc(ops, op);
    ClosingSnoc(ops, op);
    ResetSnoc(ops, op);
    IsEstablishedSnoc(ops, op);
    EstablishedSnoc(ops, op);
    FirstSynOf(ops, op);
    ClassesApart(op);
  }

  lemma ClassesApart(op: Op)
    ensures forall a, b :: Is(op, a) && Is(op, b) ==> a == b
  {
  }

  lemma TraceAtFirst(p0: PacketMeta)
    ensures TraceAgrees(NewFlow(p0), [])
  {
  }

  /** What a record knows of its handshake is what its trace says of it. */
  lemma {:induction false} HandshakeFollowsTrace(cfg: DetectConfig, p0: PacketMeta, ops: seq<Op>)
    ensures TraceAgrees(RunOps(cfg, NewFlow(p0), ops), ops)
  {
    hide TraceAgrees, RunOps, NewFlow, ApplyOp;
    if ops == [] {
      RunOpsSnoc(cfg, NewFlow(p0), [], Tick(0));
      TraceAtFirst(p0);
    } else {
      var init, last := ops[..|ops| - 1], ops[|ops| - 1];
      assert ops == init + [last];
      HandshakeFollowsTrace(cfg, p0, init);
      RunOpsSnoc(cfg, NewFlow(p0), init, last);
      TraceStep(cfg, RunOps(cfg, NewFlow(p0), init), init, last);
    }
  }

  lemma OpOnFlag(cfg: DetectConfig, f: FlowState, op: Op)
    ensures ApplyOp(cfg, f, op).timeoutFlagged <==> f.timeoutFlagged || (op.Tick? && TimedOut(cfg, f, op.now))
  {
  }

  /** A record is flagged exactly if some sweep of its trace found its SYN overdue. */
  lemma {:induction false} FlaggedExactly(cfg: DetectConfig, p0: PacketMeta, ops: seq<Op>)
    ensures RunOps(cfg, NewFlow(p0), ops).timeoutFlagged <==> WasOverdue(ops, cfg.handshakeTimeoutSecs * 1_000_000_000)
  {
    if ops != [] {
      hide ApplyOp, WasOverdue, AwaitsSynAck, AwaitsAck, IsClosing, WasEstablished;
      var init, last := ops[..|ops| - 1], ops[|ops| - 1];
      assert ops == init + [last];
      FlaggedExactly(cfg, p0, init);
      HandshakeFollowsTrace(cfg, p0, init);
      OpOnFlag(cfg, RunOps(cfg, NewFlow(p0), init), last);
      OverdueSnoc(init, last, cfg.handshakeTimeoutSecs * 1_000_000_000);
    }
  }

  /** A sweep at this time finds the trace's SYN overdue, as none has before. */
  ghost predicate TimesOut(cfg: DetectConfig, ops: seq<Op>, now: u64) {
    Overdue(ops, cfg.handshakeTimeoutSecs * 1_000_000_000, now) &&
    !WasOverdue(ops, cfg.handshakeTimeoutSecs * 1_000_000_000)
  }

  lemma TimedOutByTrace(cfg: DetectConfig, p0: PacketMeta, ops: seq<Op>, now: u64)
    ensures TimedOut(cfg, RunOps(cfg, NewFlow(p0), ops), now) <==> TimesOut(cfg, ops, now)
  {
    hide RunOps, NewFlow, WasOverdue, AwaitsSynAck, AwaitsAck, IsClosing, WasEstablished;
    HandshakeFollowsTrace(cfg, p0, ops);
    FlaggedExactly(cfg, p0, ops);
  }

  lemma OpOnCount(cfg: DetectConfig, f: FlowState, op: Op)
    requires HandshakeOk(f)
    ensures
      var g := ApplyOp(cfg, f, op);
      g.halfOpenCounted <==>
      if Is(op, SynKind) && f.synTime.None? then true
      else
        f.halfOpenCounted && !Is(op, RstKind) && !Fins(op) && !(AcksIt(op) && f.state == SynAckSeen) &&
        !(op.Tick? && TimedOut(cfg, f, op.now))
  {
    hide OnTracked, WrapAdd;
  }

  /** A record is counted as half open exactly if its trace is: its first SYN is neither settled by
      RST, FIN or the awaited ACK, nor found overdue by a sweep. */
  lemma {:induction false} CountedExactly(cfg: DetectConfig, p0: PacketMeta, ops: seq<Op>)
    ensures RunOps(cfg, NewFlow(p0), ops).halfOpenCounted <==> HalfOpen(ops, cfg.handshakeTimeoutSecs * 1_000_000_000)
  {
    hide RunOps, HalfOpen, AwaitsSynAck, AwaitsAck, IsClosing, WasEstablished, WasReset, IsEstablished, WasOverdue;
    if ops == [] {
      RunOpsSnoc(cfg, NewFlow(p0), [], Tick(0));
      NoneHalfOpen(cfg.handshakeTimeoutSecs * 1_000_000_000);
    } else {
      hide ApplyOp, NewFlow, HandshakeOk, TimedOut, Overdue;
      var init, last := ops[..|ops| - 1], ops[|ops| - 1];
      var f, timeout := RunOps(cfg, NewFlow(p0), init), cfg.handshakeTimeoutSecs * 1_000_000_000;
      assert ops == init + [last] && ops[..|init|] == init;
      CountedExactly(cfg, p0, init);
      RunOpsSnoc(cfg, NewFlow(p0), init, last);
      LifeStaysPaid(cfg, p0, init);
      OpOnCount(cfg, f, last);
      HandshakeFollowsTrace(cfg, p0, init);
      HalfOpenSnoc(init, last, timeout);
      if last.Tick? {
        TimedOutByTrace(cfg, p0, init, last.now);
        FlaggedExactly(cfg, p0, init);
        FlaggedIsUncounted(f);
      }
    }
  }

  lemma NoneHalfOpen(timeout: nat)
    ensures !HalfOpen([], timeout)
  {
  }

  lemma FlaggedIsUncounted(f: FlowState)
    requires HandshakeOk(f)
    ensures f.timeoutFlagged ==> !f.halfOpenCounted
  {
  }

  /** A sweep at this time would evict or flag: the last packet is older than the time to live,
      or the SYN is newly overdue. */
  ghost predicate IsDue(cfg: DetectConfig, ops: seq<Op>, now: u64) {
    ops != [] && (SatSub(now, LastSeen(ops)) > cfg.flowTtlSecs * 1_000_000_000 || TimesOut(cfg, ops, now))
  }

  /** A sweep changes a record exactly if its trace says that one is due. */
  lemma DueExactly(cfg: DetectConfig, k: FlowKey, r: Option<FlowState>, ops: seq<Op>, now: u64)
    requires IsLife(cfg, k, r, ops)
    ensures RecordStep(cfg, k, r, SweepAt(now)) == r <==> !IsDue(cfg, ops, now)
  {
    hide RunOps, NewFlow, TimesOut, TimedOut;
    if ops != [] {
      LastSeenFollowsTrace(cfg, NewFlow(ops[0].p), ops);
      TimedOutByTrace(cfg, ops[0].p, ops, now);
      FlagShows(cfg, r.value, now);
    }
  }

  lemma FlagShows(cfg: DetectConfig, f: FlowState, now: u64)
    ensures TimedOut(cfg, f, now) ==> Flagged(f) != f
  {
    assert Flagged(f).timeoutFlagged;
  }

  /** A refusal is reported exactly when a reset meets an unfinished handshake, and an RTT
      exactly when a SYN-ACK meets a recorded SYN. */
  lemma HandshakeReports(cfg: DetectConfig, p0: PacketMeta, ops: seq<Op>, i: nat)
    requires i < |ops| && ops[i].Pkt?
    ensures
      var d := DeltaAt(cfg, NewFlow(p0), ops, i);
      && (d.handshakeRefused <==> Is(ops[i], RstKind) && (AwaitsSynAck(ops[..i]) || AwaitsAck(ops[..i])))
      && (d.establishedNow <==> AcksIt(ops[i]) && AwaitsAck(ops[..i]))
      && d.rttSample == if Is(ops[i], SynAckKind) && FirstSyn(ops[..i]).Some?
                        then Some(SatSub(ops[i].p.ts, FirstSyn(ops[..i]).value)) else None
  {
    HandshakeFollowsTrace(cfg, p0, ops[..i]);
  }

  /** The tracked conversations of a service that are half open by their traces. */
  ghost function HalfOpenConversations(cfg: DetectConfig, steps: seq<Step>, s: Endpoint): set<FlowKey> {
    set k | k in Run(cfg, steps).flows && IsHalfOpenFor(cfg, Life(cfg, k, steps), s)
  }

  ghost predicate IsHalfOpenFor(cfg: DetectConfig, ops: seq<Op>, s: Endpoint) {
    ops != [] && ops[0].Pkt? && GuessService(ops[0].p) == s && HalfOpen(ops, cfg.handshakeTimeoutSecs * 1_000_000_000)
  }

  lemma CountedByTrace(cfg: DetectConfig, steps: seq<Step>, k: FlowKey, s: Endpoint)
    requires k in Run(cfg, steps).flows
    ensures
      var f := Run(cfg, steps).flows[k];
      f.halfOpenCounted && f.service == s <==> IsHalfOpenFor(cfg, Life(cfg, k, steps), s)
  {
    hide HalfOpen, RunOps, Run, RecordOf, GuessService;
    TableIsProduct(cfg, k, steps);
    RecordIsItsLife(cfg, k, steps);
    var ops := Life(cfg, k, steps);
    CountedExactly(cfg, ops[0].p, ops);
    ServiceIsKept(cfg, NewFlow(ops[0].p), ops);
  }

  /** In every reachable table the counter of a service is the number of its conversations that
      are half open by their traces. */
  lemma BacklogByTrace(cfg: DetectConfig, steps: seq<Step>, s: Endpoint)
    ensures HalfOpenFor(Run(cfg, steps).halfOpen, s) == |HalfOpenConversations(cfg, steps, s)|
  {
    hide Run, IsHalfOpenFor;
    RunKeepsCounters(cfg, steps);
    var flows := Run(cfg, steps).flows;
    forall k | k in flows
      ensures k in CountedKeys(flows, s) <==> k in HalfOpenConversations(cfg, steps, s)
    {
      CountedByTrace(cfg, steps, k, s);
    }
    assert CountedKeys(flows, s) == HalfOpenConversations(cfg, steps, s);
  }

  // ---- Which services have a counter ---------------------------------------------------

  /** Step `n` starts counting: a bare SYN, the first of its conversation's current trace. */
  predicate StartsCounting(cfg: DetectConfig, steps: seq<Step>, n: nat)
    requires n < |steps|
  {
    steps[n].Packet? && InClass(steps[n].p, SynKind) && FirstSyn(Life(cfg, steps[n].p.key, steps[..n])).None?
  }

  /** The service of the conversation of step `n`: that of the packet its trace starts with. */
  function ServiceAt(cfg: DetectConfig, steps: seq<Step>, n: nat): Endpoint
    requires n < |steps| && steps[n].Packet?
  {
    var ops := Life(cfg, steps[n].p.key, steps[..n]);
    GuessService(if ops != [] && ops[0].Pkt? then ops[0].p else steps[n].p)
  }

  /** The services ever counted. */
  function CountedServices(cfg: DetectConfig, steps: seq<Step>): set<Endpoint> {
    set n | 0 <= n < |steps| && StartsCounting(cfg, steps, n) :: ServiceAt(cfg, steps, n)
  }

  lemma CountedSnoc(cfg: DetectConfig, steps: seq<Step>, step: Step)
    ensures
      var all, n := steps + [step], |steps|;
      CountedServices(cfg, all) ==
      CountedServices(cfg, steps) + if StartsCounting(cfg, all, n) then {ServiceAt(cfg, all, n)} else {}
  {
    hide Life, FirstSyn, GuessService;
    var all, n := steps + [step], |steps|;
    forall j | 0 <= j < n
      ensures StartsCounting(cfg, all, j) == StartsCounting(cfg, steps, j)
      ensures StartsCounting(cfg, all, j) ==> ServiceAt(cfg, all, j) == ServiceAt(cfg, steps, j)
    {
      assert all[..j] == steps[..j] && all[j] == steps[j];
    }
    assert all[..n] == steps && all[n] == step;
  }

  lemma CountsFromSyn(f: FlowState, p: PacketMeta)
    requires HandshakeOk(f)
    ensures !f.halfOpenCounted && StepFlow(f, p).halfOpenCounted <==> InClass(p, SynKind) && f.synTime.None?
  {
    hide OnTracked, WrapAdd;
  }

  /** A packet adds a counter at most for its conversation's service, and no counter ever goes. */
  lemma UpdateKeys(t: Table, p: PacketMeta)
    requires HandshakeOk(RecordBefore(t.flows, p))
    ensures
      var f := RecordBefore(t.flows, p);
      UpdateTable(t, p).halfOpen.Keys ==
      t.halfOpen.Keys + if InClass(p, SynKind) && f.synTime.None? then {f.service} else {}
  {
    hide StepFlow, NewFlow, HandshakeOk;
    CountsFromSyn(RecordBefore(t.flows, p), p);
  }

  lemma SweepKeys(cfg: DetectConfig, t: Table, now: u64)
    ensures SweepTable(cfg, t, now).halfOpen.Keys == t.halfOpen.Keys
  {
  }

  /** The record a packet meets, by the trace of its conversation. */
  lemma RecordMet(cfg: DetectConfig, steps: seq<Step>, p: PacketMeta)
    ensures
      var f, ops := RecordBefore(Run(cfg, steps).flows, p), Life(cfg, p.key, steps);
      && HandshakeOk(f) && f.synTime == FirstSyn(ops)
      && f.service == GuessService(if ops != [] && ops[0].Pkt? then ops[0].p else p)
  {
    hide AwaitsSynAck, AwaitsAck, IsClosing, WasEstablished, Run, RecordOf, RunOps, GuessService;
    var ops := Life(cfg, p.key, steps);
    TableIsProduct(cfg, p.key, steps);
    RecordIsItsLife(cfg, p.key, steps);
    RecordKeepsHandshake(cfg, p.key, steps);
    if ops != [] {
      HandshakeFollowsTrace(cfg, ops[0].p, ops);
      ServiceIsKept(cfg, NewFlow(ops[0].p), ops);
    }
  }

  /** A table has counters exactly for the services ever counted. */
  lemma {:induction false} CountersAreServices(cfg: DetectConfig, steps: seq<Step>)
    ensures Run(cfg, steps).halfOpen.Keys == CountedServices(cfg, steps)
  {
    if steps == [] {
      assert CountedServices(cfg, []) == {};
    } else {
      hide Life, UpdateTable, SweepTable, CountedServices, RecordBefore, HandshakeOk;
      var init, last := steps[..|steps| - 1], steps[|steps| - 1];
      assert steps == init + [last];
      CountersAreServices(cfg, init);
      CountedSnoc(cfg, init, last);
      match last
      case SweepAt(now) => SweepKeys(cfg, Run(cfg, init), now);
      case Packet(p) =>
        RecordMet(cfg, init, p);
        UpdateKeys(Run(cfg, init), p);
    }
  }

  // ---- Event budgets ---------------------------------------------------------------

  datatype Tally = Tally(increments: nat, timeouts: nat, failures: nat, synAcks: nat)

  predicate CountsHalfOpen(f: FlowState, op: Op) {
    op.Pkt? && !f.halfOpenCounted && StepFlow(f, op.p).halfOpenCounted
  }

  function One(b: bool): nat { if b then 1 else 0 }

  function TallyStep(cfg: DetectConfig, f: FlowState, op: Op, t: Tally): Tally {
    Tally(t.increments + One(CountsHalfOpen(f, op)),
          t.timeouts + One(op.Tick? && TimedOut(cfg, f, op.now)),
          t.failures + One(op.Pkt? && StepDelta(f, op.p).handshakeRefused),
          t.synAcks + One(op.Pkt? && op.p.proto == Tcp && op.p.flags.SynAck()))
  }

  function TallyOf(cfg: DetectConfig, f: FlowState, ops: seq<Op>): Tally {
    if ops == [] then Tally(0, 0, 0, 0)
    else
      var init := ops[..|ops| - 1];
      TallyStep(cfg, RunOps(cfg, f, init), ops[|ops| - 1], TallyOf(cfg, f, init))
  }

  /** Increments and timeouts are paid for by the one recorded SYN, refusals by that
      SYN or by a SYN-ACK. */
  ghost predicate Paid(f: FlowState, t: Tally) {
    && t.increments <= One(f.synTime.Some?)
    && t.timeouts == One(f.timeoutFlagged)
    && t.failures + One(InHandshake(f.state)) <= One(f.synTime.Some?) + t.synAcks
  }

  lemma NoRefusal(f: FlowState, p: PacketMeta)
    requires KindOf(p) == OrdinaryKind
    ensures !StepDelta(f, p).handshakeRefused
  {
  }

  lemma PacketStaysPaid(cfg: DetectConfig, f: FlowState, p: PacketMeta, t: Tally)
    requires HandshakeOk(f) && Paid(f, t)
    ensures Paid(StepFlow(f, p), TallyStep(cfg, f, Pkt(p), t))
  {
    hide OnTracked, TrackDelta, WrapAdd;
    match KindOf(p)
    case Datagram | SynKind | SynAckKind | RstKind =>
    case OrdinaryKind => NoRefusal(f, p);
  }

  lemma StepStaysPaid(cfg: DetectConfig, f: FlowState, op: Op, t: Tally)
    requires HandshakeOk(f) && Paid(f, t)
    ensures HandshakeOk(ApplyOp(cfg, f, op)) && Paid(ApplyOp(cfg, f, op), TallyStep(cfg, f, op, t))
  {
    if op.Pkt? {
      StepKeepsHandshake(f, op.p);
      PacketStaysPaid(cfg, f, op.p, t);
    }
  }

  lemma {:induction false} LifeStaysPaid(cfg: DetectConfig, p: PacketMeta, ops: seq<Op>)
    ensures HandshakeOk(RunOps(cfg, NewFlow(p), ops))
    ensures Paid(RunOps(cfg, NewFlow(p), ops), TallyOf(cfg, NewFlow(p), ops))
  {
    if ops != [] {
      var init := ops[..|ops| - 1];
      LifeStaysPaid(cfg, p, init);
      StepStaysPaid(cfg, RunOps(cfg, NewFlow(p), init), ops[|ops| - 1], TallyOf(cfg, NewFlow(p), init));
    }
  }

  /** Over its whole life a record is counted half open at most once, times out at
      most once, and is refused at most once more than it saw SYN-ACKs. */
  lemma EventBudgets(cfg: DetectConfig, p: PacketMeta, ops: seq<Op>)
    ensures
      var t := TallyOf(cfg, NewFlow(p), ops);
      t.increments <= 1 && t.timeouts <= 1 && t.failures <= 1 + t.synAcks
  {
    LifeStaysPaid(cfg, p, ops);
  }

  // ---- Zero-window edges --------------------------------------------------------------

  lemma OpOnWindow(cfg: DetectConfig, f: FlowState, op: Op, d: Direction)
    ensures
      var g := ApplyOp(cfg, f, op);
      g.zeroWindow.At(d) ==
      if Is(op, OrdinaryKind) && op.p.dir == d && (g.established || g.state == Closing) then op.p.window == 0
      else f.zeroWindow.At(d)
  {
    hide ExpectedAfter, Displacement, DupAcksAfter, RttSample, WrapAdd;
  }

  /** A record remembers a direction as stalled exactly if the last window it showed was zero. */
  lemma {:induction false} StalledExactly(cfg: DetectConfig, p0: PacketMeta, ops: seq<Op>, d: Direction)
    ensures RunOps(cfg, NewFlow(p0), ops).zeroWindow.At(d) <==> Stalled(ops, d)
  {
    hide ApplyOp, RunOps, AwaitsSynAck, AwaitsAck, IsClosing, WasEstablished, StalledAt;
    if ops == [] {
      RunOpsSnoc(cfg, NewFlow(p0), [], Tick(0));
    } else {
      hide Stalled, NewFlow;
      var init, last := ops[..|ops| - 1], ops[|ops| - 1];
      assert ops == init + [last] && ops[..|ops|] == ops;
      StalledExactly(cfg, p0, init, d);
      RunOpsSnoc(cfg, NewFlow(p0), init, last);
      OpOnWindow(cfg, RunOps(cfg, NewFlow(p0), init), last, d);
      HandshakeFollowsTrace(cfg, p0, ops);
      StalledSnoc(init, last, d);
    }
  }

  /** A zero-window report comes exactly when a window falls to zero: the segment shows zero
      and the last window its direction showed was not. */
  lemma EdgesExactly(cfg: DetectConfig, p0: PacketMeta, ops: seq<Op>, i: nat)
    requires i < |ops| && ops[i].Pkt?
    ensures
      var d := ops[i].p.dir;
      DeltaAt(cfg, NewFlow(p0), ops, i).zeroWindowEdge <==>
      ShowsWindow(ops, i, d) && ops[i].p.window == 0 && !Stalled(ops[..i], d)
  {
    hide Stalled, AwaitsSynAck, AwaitsAck, IsClosing, WasEstablished, StepFlow, StepDelta;
    var f := RunOps(cfg, NewFlow(p0), ops[..i]);
    assert ops[..i + 1][..i] == ops[..i];
    assert RunOps(cfg, NewFlow(p0), ops[..i + 1]) == StepFlow(f, ops[i].p);
    StalledExactly(cfg, p0, ops[..i], ops[i].p.dir);
    HandshakeFollowsTrace(cfg, p0, ops[..i + 1]);
    EdgeOf(f, ops[i].p);
  }

  lemma EdgeOf(f: FlowState, p: PacketMeta)
    ensures
      var g := StepFlow(f, p);
      StepDelta(f, p).zeroWindowEdge <==>
      InClass(p, OrdinaryKind) && (g.established || g.state == Closing) && p.window == 0 && !f.zeroWindow.At(p.dir)
  {
    hide ExpectedAfter, Displacement, DupAcksAfter, RttSample, WrapAdd;
  }

  predicate ShowsOpen(op: Op, d: Direction) {
    op.Pkt? && op.p.dir == d && op.p.window != 0
  }

  /** A stall lasts until the direction shows an open window. */
  lemma {:induction false} StallLasts(ops: seq<Op>, i: nat, j: nat, d: Direction)
    requires i < j <= |ops| && ShowsWindow(ops, i, d) && ops[i].p.window == 0
    requires forall m | i < m < j :: !ShowsOpen(ops[m], d)
    ensures Stalled(ops[..j], d)
    decreases j
  {
    hide Stalled, WasEstablished, IsClosing;
    assert ops[..j] == ops[..j - 1] + [ops[j - 1]];
    StalledSnoc(ops[..j - 1], ops[j - 1], d);
    ShowsWindowEarlier(ops, j, j - 1, d);
    if i < j - 1 {
      StallLasts(ops, i, j - 1, d);
      assert !ShowsOpen(ops[j - 1], d);
    }
  }

  /** Two zero-window reports in one direction are separated by a packet of that direction
      with an open window. */
  lemma EdgesAlternate(cfg: DetectConfig, p0: PacketMeta, ops: seq<Op>, i: nat, j: nat)
    requires i < j < |ops| && ops[i].Pkt? && ops[j].Pkt? && ops[i].p.dir == ops[j].p.dir
    requires DeltaAt(cfg, NewFlow(p0), ops, i).zeroWindowEdge && DeltaAt(cfg, NewFlow(p0), ops, j).zeroWindowEdge
    ensures exists m | i < m < j :: ShowsOpen(ops[m], ops[i].p.dir)
  {
    EdgesExactly(cfg, p0, ops, i);
    EdgesExactly(cfg, p0, ops, j);
    if forall m | i < m < j :: !ShowsOpen(ops[m], ops[i].p.dir) {
      StallLasts(ops, i, j, ops[i].p.dir);
      assert false;
    }
  }
}
