/**
 From packets to reports: what the engine emits for a packet, read off the trace of
 the packet's own conversation.
 */
module Reports {
  import opened Types
  import opened Flow
  import opened Table
  import opened Runs
  import opened Traces
  import opened Records
  import opened Sequence
  import opened DupAcks
  import opened Detectors
  import opened EngineRuns
  import opened HostAlerts

  /** The trace of the packet's conversation since its record was created, the packet last. */
  function TraceOf(cfg: DetectConfig, steps: seq<Step>, p: PacketMeta): seq<Op> {
    Life(cfg, p.key, Expand(cfg, steps) + [Packet(p)])
  }

  /** The detectors' output for a packet after a run of the engine. */
  function OutputOf(cfg: DetectConfig, steps: seq<Step>, p: PacketMeta): seq<Event> {
    Inspect(ContextOf(cfg, RunEngine(cfg, steps), p))
  }

  ghost predicate Reported(events: seq<Event>, kind: EventKind) {
    Times(events, kind) != []
  }

  lemma LifeSnoc(cfg: DetectConfig, steps: seq<Step>, p: PacketMeta)
    ensures Life(cfg, p.key, steps + [Packet(p)]) == Life(cfg, p.key, steps) + [Pkt(p)]
  {
    assert (steps + [Packet(p)])[..|steps|] == steps;
  }

  /** The packet finds and leaves the records that its conversation's trace computes. */
  lemma TraceIsLife(cfg: DetectConfig, steps: seq<Step>, p: PacketMeta)
    ensures
      var ops, t := TraceOf(cfg, steps, p), RunEngine(cfg, steps).table;
      && ops != [] && ops[0].Pkt? && ops[|ops| - 1] == Pkt(p)
      && RecordBefore(t.flows, p) == RunOps(cfg, NewFlow(ops[0].p), ops[..|ops| - 1])
      && UpdateTable(t, p).flows[p.key] == RunOps(cfg, NewFlow(ops[0].p), ops)
  {
    var run := Expand(cfg, steps);
    EngineTableIsRun(cfg, steps);
    TableIsProduct(cfg, p.key, run);
    RecordIsItsLife(cfg, p.key, run);
    LifeSnoc(cfg, run, p);
    var before, ops := Life(cfg, p.key, run), TraceOf(cfg, steps, p);
    assert ops[..|ops| - 1] == before;
  }

  lemma DeltaFollowsTrace(cfg: DetectConfig, steps: seq<Step>, p: PacketMeta)
    ensures TraceOf(cfg, steps, p) != [] && TraceOf(cfg, steps, p)[0].Pkt?
    ensures
      var ops, c := TraceOf(cfg, steps, p), ContextOf(cfg, RunEngine(cfg, steps), p);
      && ops[|ops| - 1] == Pkt(p)
      && c.d == DeltaAt(cfg, NewFlow(ops[0].p), ops, |ops| - 1).(newFlow := c.d.newFlow)
      && c.m.table.flows[c.key] == RunOps(cfg, NewFlow(ops[0].p), ops)
  {
    hide UpdateTable, RunOps, RunEngine, TraceOf;
    TraceIsLife(cfg, steps, p);
  }

  /** Connection reports: a refusal, a slow handshake, a stall and a duplicate-ACK burst are
      reported exactly when the conversation's own trace shows them at this packet. */
  lemma ConnectionReports(cfg: DetectConfig, steps: seq<Step>, p: PacketMeta)
    ensures TraceOf(cfg, steps, p) != [] && TraceOf(cfg, steps, p)[0].Pkt?
    ensures
      var ops, out := TraceOf(cfg, steps, p), OutputOf(cfg, steps, p);
      var before := ops[..|ops| - 1];
      && (Reported(out, HandshakeFailure) <==> InClass(p, RstKind) && (AwaitsSynAck(before) || AwaitsAck(before)))
      && (Reported(out, HighRtt) <==>
            InClass(p, SynAckKind) && FirstSyn(before).Some? &&
            SatSub(p.ts, FirstSyn(before).value) as real >= cfg.rttWarnMs * 1_000_000.0)
      && (Reported(out, ZeroWindow) <==>
            ShowsWindow(ops, |ops| - 1, p.dir) && p.window == 0 && !Stalled(before, p.dir))
      && (Reported(out, DuplicateAck) <==>
            AcksIn(Pkt(p), p.dir) && Reaches(cfg.dupAckThreshold, LastBurst(Acks(ops, p.dir))))
      && (AcksIn(Pkt(p), p.dir) && LastBurst(Acks(ops, p.dir)).len <= WRAP ==>
            (Reported(out, DuplicateAck) <==>
               cfg.dupAckThreshold > 0 && LastBurst(Acks(ops, p.dir)).len == cfg.dupAckThreshold + 1))
  {
    hide Inspect, RunEngine, TraceOf, StepDelta, StepFlow, RunOps, Ingest;
    hide AwaitsSynAck, AwaitsAck, ShowsWindow, Stalled, LastBurst, Reaches;
    var ops, c := TraceOf(cfg, steps, p), ContextOf(cfg, RunEngine(cfg, steps), p);
    DeltaFollowsTrace(cfg, steps, p);
    var i := |ops| - 1;
    TimesOfRules(c, HandshakeFailure);
    TimesOfRules(c, HighRtt);
    TimesOfRules(c, ZeroWindow);
    TimesOfRules(c, DuplicateAck);
    HandshakeReports(cfg, ops[0].p, ops, i);
    EdgesExactly(cfg, ops[0].p, ops, i);
    FiresByBurst(cfg, ops[0].p, ops);
    if AcksIn(Pkt(p), p.dir) && LastBurst(Acks(ops, p.dir)).len <= WRAP {
      ReachesOnce(cfg.dupAckThreshold, LastBurst(Acks(ops, p.dir)));
    }
  }

  /** What the reports about a conversation say: the packet's time and key, each kind's severity, and
      the number reported. A slow handshake's milliseconds are the time since the first SYN, and it
      is a warning exactly from four times the threshold on. */
  lemma FlowEvents(cfg: DetectConfig, steps: seq<Step>, p: PacketMeta, e: Event)
    requires e in OutputOf(cfg, steps, p)
    ensures e.ts == p.ts && e.key == p.key && e.kind != HandshakeTimeout
    ensures
      && (e.kind == HandshakeFailure ==> e.severity == Warning && e.value == 1.0)
      && (e.kind == OutOfOrder ==> e.severity == Info && e.value == 1.0)
      && (e.kind == ZeroWindow ==> e.severity == Warning && e.value == 0.0)
      && (e.kind == DuplicateAck ==> e.severity == Warning && e.value == cfg.dupAckThreshold as real)
      && (e.kind == Retransmission ==> e.severity == Warning)
    ensures
      var before := TraceOf(cfg, steps, p)[..|TraceOf(cfg, steps, p)| - 1];
      e.kind == HighRtt ==>
        FirstSyn(before).Some? &&
        var ns := SatSub(p.ts, FirstSyn(before).value) as real;
        e.value * 1_000_000.0 == ns && e.severity == if ns >= 4.0 * cfg.rttWarnMs * 1_000_000.0 then Warning else Info
  {
    hide Inspect, RunEngine, TraceOf, StepDelta, StepFlow, RunOps, Ingest, AwaitsSynAck, AwaitsAck;
    var ops, c := TraceOf(cfg, steps, p), ContextOf(cfg, RunEngine(cfg, steps), p);
    DeltaFollowsTrace(cfg, steps, p);
    InspectByRule(c, e);
    HandshakeReports(cfg, ops[0].p, ops, |ops| - 1);
  }

  /** Sequence reports: with the packets' unbounded sequence numbers given, out-of-order data
      is reported exactly when it truly starts above the high-water mark, and a retransmission
      exactly when it truly starts below it and the true ratio has reached the threshold. */
  lemma SequenceReports(cfg: DetectConfig, steps: seq<Step>, p: PacketMeta, truth: seq<int>)
    requires Faithful(TraceOf(cfg, steps, p), truth) && AllNear(TraceOf(cfg, steps, p), truth)
    ensures TraceOf(cfg, steps, p) != []
    ensures
      var ops, out := TraceOf(cfg, steps, p), OutputOf(cfg, steps, p);
      var i := |ops| - 1;
      && (Reported(out, OutOfOrder) <==> AboveMark(ops, truth, i))
      && (Reported(out, Retransmission) <==>
            BelowMark(ops, truth, i) && Segments(ops) > 0 &&
            TrueRetransmits(ops, truth) as real / Segments(ops) as real >= cfg.retransmitRatioWarn)
      && (forall e | e in out && e.kind == Retransmission ::
            Segments(ops) > 0 && e.value == TrueRetransmits(ops, truth) as real / Segments(ops) as real)
  {
    hide Inspect, RunEngine, TraceOf, StepDelta, StepFlow, RunOps, Ingest, BelowMark, AboveMark;
    var ops, c := TraceOf(cfg, steps, p), ContextOf(cfg, RunEngine(cfg, steps), p);
    DeltaFollowsTrace(cfg, steps, p);
    var i := |ops| - 1;
    TimesOfRules(c, OutOfOrder);
    TimesOfRules(c, Retransmission);
    SegmentVerdicts(cfg, ops[0].p, ops, truth, i);
    SequenceRefinement(cfg, ops[0].p, ops, truth);
    BelowMarkCounts(ops, truth);
    forall e | e in OutputOf(cfg, steps, p) && e.kind == Retransmission
      ensures Segments(ops) > 0 && e.value == TrueRetransmits(ops, truth) as real / Segments(ops) as real
    {
      InspectByRule(c, e);
    }
  }

  lemma BelowMarkCounts(ops: seq<Op>, truth: seq<int>)
    requires |truth| == |ops| && ops != []
    ensures BelowMark(ops, truth, |ops| - 1) ==> Segments(ops) > 0
  {
  }

  // ---- Timeouts ------------------------------------------------------------------------------

  /** The run of the table up to the sweep that a step brings: a packet comes before its own sweep. */
  function RunBefore(cfg: DetectConfig, steps: seq<Step>, step: Step): seq<Step> {
    Expand(cfg, steps) + if step.Packet? then [step] else []
  }

  /** The step brings a sweep. */
  predicate BringsSweep(cfg: DetectConfig, steps: seq<Step>, step: Step) {
    step.SweepAt? || SweepDue(RunEngine(cfg, steps), step.p.ts)
  }

  /** The report that the first SYN of a trace has waited too long. */
  function TimeoutReport(k: FlowKey, ops: seq<Op>, now: u64): Event
    requires FirstSyn(ops).Some?
  {
    Event(now, HandshakeTimeout, Warning, k, SatSub(now, FirstSyn(ops).value) as real / 1_000_000_000.0)
  }

  lemma TimeoutsOfRun(cfg: DetectConfig, run: seq<Step>, now: u64, k: FlowKey)
    ensures
      var ops, flows := Life(cfg, k, run), Run(cfg, run).flows;
      && (k in TimedOutKeys(cfg, flows, now) <==> TimesOut(cfg, ops, now))
      && (TimesOut(cfg, ops, now) ==> k in flows && TimeoutEvent(k, flows[k], now) == TimeoutReport(k, ops, now))
  {
    hide RunOps, NewFlow, Run, RecordOf, TimedOut, AwaitsSynAck, AwaitsAck, IsClosing, WasEstablished, WasOverdue;
    var ops := Life(cfg, k, run);
    TableIsProduct(cfg, k, run);
    RecordIsItsLife(cfg, k, run);
    if ops != [] {
      TimedOutByTrace(cfg, ops[0].p, ops, now);
      HandshakeFollowsTrace(cfg, ops[0].p, ops);
    } else {
      NothingAwaited();
    }
  }

  lemma NothingAwaited()
    ensures !AwaitsSynAck([])
  {
  }

  lemma TableBefore(cfg: DetectConfig, steps: seq<Step>, step: Step)
    ensures
      var t := RunEngine(cfg, steps).table;
      Run(cfg, RunBefore(cfg, steps, step)) == if step.Packet? then UpdateTable(t, step.p) else t
  {
    hide RunEngine, Run, UpdateTable;
    EngineTableIsRun(cfg, steps);
    RunSnoc(cfg, Expand(cfg, steps), step);
    assert Expand(cfg, steps) + [] == Expand(cfg, steps);
  }

  lemma SweptByKey(cfg: DetectConfig, steps: seq<Step>, step: Step, e: Event)
    ensures
      var flows, now := Run(cfg, RunBefore(cfg, steps, step)).flows, TimeOf(step);
      e in SweptEvents(cfg, RunEngine(cfg, steps), step) <==>
      BringsSweep(cfg, steps, step) && e.key in TimedOutKeys(cfg, flows, now) &&
      e == TimeoutEvent(e.key, flows[e.key], now)
  {
    hide RunEngine, Run, UpdateTable, RunBefore, SweepDue, TimedOut;
    TableBefore(cfg, steps, step);
  }

  function TimeOf(step: Step): u64 {
    if step.Packet? then step.p.ts else step.now
  }

  /** Timeout reports, of timer sweeps and of the sweeps that packets bring, the packet's own flow
      included: a step reports a flow exactly when it brings a sweep, the flow's trace up to that
      sweep has a SYN that was never answered, reset or closed and is overdue, and no earlier sweep
      of the trace found it so; the reported wait is the time since that SYN. */
  lemma TimeoutReports(cfg: DetectConfig, steps: seq<Step>, step: Step, e: Event)
    ensures
      var ops, now := Life(cfg, e.key, RunBefore(cfg, steps, step)), TimeOf(step);
      e in SweptEvents(cfg, RunEngine(cfg, steps), step) <==>
      BringsSweep(cfg, steps, step) && TimesOut(cfg, ops, now) && e == TimeoutReport(e.key, ops, now)
  {
    hide RunEngine, Run, Life, RunBefore, SweptEvents, TimedOutKeys, TimeoutEvent, BringsSweep;
    SweptByKey(cfg, steps, step, e);
    TimeoutsOfRun(cfg, RunBefore(cfg, steps, step), TimeOf(step), e.key);
  }
}
