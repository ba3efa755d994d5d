/**
 The three host-wide alerts over whole runs of the engine: how far apart they
 come, and that the values they report are true.
 */
module HostAlerts {
  import opened Types
  import opened Flow
  import opened Table
  import opened Window
  import opened Alerting
  import opened Runs
  import opened Records
  import opened Detectors
  import opened EngineRuns
  import opened Rates

  type HostKind = k: EventKind | k == RstStorm || k == SynBacklog || k == ConnectionChurn witness RstStorm

  function GateFor(m: EngineModel, kind: HostKind): Gate {
    match kind
    case RstStorm => m.rstGate
    case SynBacklog => m.synGate
    case ConnectionChurn => m.churnGate
  }

  /** The packet is over the threshold of the alert, so its debounce is asked. */
  predicate Asks(c: Context, kind: HostKind)
    requires c.Valid()
  {
    match kind
    case RstStorm => Storming(c)
    case SynBacklog => Backlogged(c)
    case ConnectionChurn => Churning(c)
  }

  function Gap(cfg: DetectConfig): nat {
    cfg.alertDebounceSecs * 1_000_000_000
  }

  /** The times of a run's packets over the threshold of the alert. */
  function Calls(cfg: DetectConfig, steps: seq<Step>, kind: HostKind): seq<u64> {
    if steps == [] then []
    else
      var init, last := steps[..|steps| - 1], steps[|steps| - 1];
      var before := Calls(cfg, init, kind);
      if last.Packet? && Asks(ContextOf(cfg, RunEngine(cfg, init), last.p), kind) then before + [last.p.ts] else before
  }

  /** Everything the detectors emitted over a run. */
  function Emitted(cfg: DetectConfig, steps: seq<Step>): seq<Event> {
    if steps == [] then []
    else
      var init, last := steps[..|steps| - 1], steps[|steps| - 1];
      Emitted(cfg, init) + if last.Packet? then Inspect(ContextOf(cfg, RunEngine(cfg, init), last.p)) else []
  }

  function Times(events: seq<Event>, kind: EventKind): seq<u64> {
    if events == [] then []
    else
      var init, e := Times(events[..|events| - 1], kind), events[|events| - 1];
      if e.kind == kind then init + [e.ts] else init
  }

  lemma {:induction false} TimesConcat(a: seq<Event>, b: seq<Event>, kind: EventKind)
    ensures Times(a + b, kind) == Times(a, kind) + Times(b, kind)
  {
    if b == [] {
      assert a + b == a;
    } else {
      TimesConcat(a, b[..|b| - 1], kind);
      assert (a + b)[..|a + b| - 1] == a + b[..|b| - 1];
    }
  }

  lemma TimesOne(e: Option<Event>, kind: EventKind)
    ensures Times(Emit(e), kind) == if e.Some? && e.value.kind == kind then [e.value.ts] else []
  {
    if e.Some? {
      assert [e.value][..0] == [];
    }
  }

  /** The rule of each kind that the detectors emit; timeouts come from sweeps. */
  function RuleFor(c: Context, kind: EventKind): Option<Event>
    requires c.Valid()
  {
    match kind
    case Retransmission => OnRetransmission(c.cfg, c.d, c.key, c.now, c.m.table.flows[c.key])
    case OutOfOrder => OnOutOfOrder(c.d, c.key, c.now)
    case DuplicateAck => OnDuplicateAck(c.cfg, c.d, c.key, c.now)
    case ZeroWindow => OnZeroWindow(c.d, c.key, c.now)
    case HighRtt => OnHighRtt(c.cfg, c.d, c.key, c.now)
    case HandshakeFailure => OnHandshakeFailure(c.d, c.key, c.now)
    case RstStorm => OnRstStorm(c)
    case SynBacklog => OnSynBacklog(c)
    case ConnectionChurn => OnChurn(c)
    case HandshakeTimeout => None
  }

  lemma AddEvent(events: seq<Event>, e: Option<Event>, kind: EventKind, times: seq<u64>)
    requires Times(events, kind) == times
    ensures Times(events + Emit(e), kind) == if e.Some? && e.value.kind == kind then times + [e.value.ts] else times
  {
    TimesOne(e, kind);
    TimesConcat(events, Emit(e), kind);
  }

  lemma TimesOfFlowRules(c: Context, kind: EventKind)
    requires c.Valid()
    ensures
      var local := kind != RstStorm && kind != SynBacklog && kind != ConnectionChurn;
      Times(FlowRules(c.cfg, c.d, c.key, c.now, c.m.table.flows[c.key]), kind) ==
      if local && RuleFor(c, kind).Some? then [c.now] else []
  {
    hide Times, Emit;
    var flow := c.m.table.flows[c.key];
    var a, b := OnRetransmission(c.cfg, c.d, c.key, c.now, flow), OnOutOfOrder(c.d, c.key, c.now);
    var e, f := OnDuplicateAck(c.cfg, c.d, c.key, c.now), OnZeroWindow(c.d, c.key, c.now);
    var g, h := OnHighRtt(c.cfg, c.d, c.key, c.now), OnHandshakeFailure(c.d, c.key, c.now);
    TimesOne(a, kind);
    var s1 := Emit(a) + Emit(b);
    AddEvent(Emit(a), b, kind, Times(Emit(a), kind));
    AddEvent(s1, e, kind, Times(s1, kind));
    AddEvent(s1 + Emit(e), f, kind, Times(s1 + Emit(e), kind));
    AddEvent(s1 + Emit(e) + Emit(f), g, kind, Times(s1 + Emit(e) + Emit(f), kind));
    AddEvent(s1 + Emit(e) + Emit(f) + Emit(g), h, kind, Times(s1 + Emit(e) + Emit(f) + Emit(g), kind));
  }

  /** Of each kind the detectors emit at most one event, just if the kind's rule fires. */
  lemma TimesOfRules(c: Context, kind: EventKind)
    requires c.Valid()
    ensures Times(Inspect(c), kind) == if RuleFor(c, kind).Some? then [c.now] else []
  {
    hide FlowRules, Times, Emit;
    var rules := FlowRules(c.cfg, c.d, c.key, c.now, c.m.table.flows[c.key]);
    var storm, backlog, churn := OnRstStorm(c), OnSynBacklog(c), OnChurn(c);
    TimesOfFlowRules(c, kind);
    AddEvent(rules, storm, kind, Times(rules, kind));
    AddEvent(rules + Emit(storm), backlog, kind, Times(rules + Emit(storm), kind));
    AddEvent(rules + Emit(storm) + Emit(backlog), churn, kind, Times(rules + Emit(storm) + Emit(backlog), kind));
  }

  /** What a rule emits has the rule's kind. */
  lemma RuleKind(c: Context, kind: EventKind)
    requires c.Valid()
    ensures RuleFor(c, kind).Some? ==> RuleFor(c, kind).value.kind == kind
  {
  }

  lemma InFlowRules(c: Context, e: Event)
    requires c.Valid()
    ensures
      var local := e.kind != RstStorm && e.kind != SynBacklog && e.kind != ConnectionChurn;
      e in FlowRules(c.cfg, c.d, c.key, c.now, c.m.table.flows[c.key]) <==> local && RuleFor(c, e.kind) == Some(e)
  {
    hide OnRetransmission, OnOutOfOrder, OnDuplicateAck, OnZeroWindow, OnHighRtt, OnHandshakeFailure;
    hide OnRstStorm, OnSynBacklog, OnChurn, Emit;
    RuleKind(c, Retransmission);
    RuleKind(c, OutOfOrder);
    RuleKind(c, DuplicateAck);
    RuleKind(c, ZeroWindow);
    RuleKind(c, HighRtt);
    RuleKind(c, HandshakeFailure);
    forall o: Option<Event> ensures e in Emit(o) <==> o == Some(e) {
      InEmit(o, e);
    }
  }

  lemma InEmit(o: Option<Event>, e: Event)
    ensures e in Emit(o) <==> o == Some(e)
  {
  }

  /** The place of a detector in the default chain. */
  function Place(kind: EventKind): nat {
    match kind
    case Retransmission => 0
    case OutOfOrder => 1
    case DuplicateAck => 2
    case ZeroWindow => 3
    case HighRtt => 4
    case HandshakeFailure => 5
    case RstStorm => 6
    case SynBacklog => 7
    case ConnectionChurn => 8
    case HandshakeTimeout => 9
  }

  /** Events in the order of the chain, none from place `n` on. */
  ghost predicate InChainOrder(events: seq<Event>, n: nat) {
    && (forall i | 0 <= i < |events| :: Place(events[i].kind) < n)
    && (forall i, j | 0 <= i < j < |events| :: Place(events[i].kind) < Place(events[j].kind))
  }

  lemma NextInChain(events: seq<Event>, e: Option<Event>, n: nat)
    requires InChainOrder(events, n) && (e.Some? ==> Place(e.value.kind) == n)
    ensures InChainOrder(events + Emit(e), n + 1)
  {
  }

  /** The detectors emit in the order of the chain. */
  lemma EmittedInOrder(c: Context)
    requires c.Valid()
    ensures InChainOrder(Inspect(c), 9)
  {
    hide Emit, InChainOrder;
    var flow := c.m.table.flows[c.key];
    var a, b := OnRetransmission(c.cfg, c.d, c.key, c.now, flow), OnOutOfOrder(c.d, c.key, c.now);
    var e, f := OnDuplicateAck(c.cfg, c.d, c.key, c.now), OnZeroWindow(c.d, c.key, c.now);
    var g, h := OnHighRtt(c.cfg, c.d, c.key, c.now), OnHandshakeFailure(c.d, c.key, c.now);
    var storm, backlog, churn := OnRstStorm(c), OnSynBacklog(c), OnChurn(c);
    NothingInChain();
    NextInChain([], a, 0);
    assert [] + Emit(a) == Emit(a);
    var s1 := Emit(a) + Emit(b);
    NextInChain(Emit(a), b, 1);
    NextInChain(s1, e, 2);
    NextInChain(s1 + Emit(e), f, 3);
    NextInChain(s1 + Emit(e) + Emit(f), g, 4);
    NextInChain(s1 + Emit(e) + Emit(f) + Emit(g), h, 5);
    var rules := FlowRules(c.cfg, c.d, c.key, c.now, flow);
    NextInChain(rules, storm, 6);
    NextInChain(rules + Emit(storm), backlog, 7);
    NextInChain(rules + Emit(storm) + Emit(backlog), churn, 8);
  }

  lemma NothingInChain()
    ensures InChainOrder([], 0)
  {
  }

  /** The detectors emit an event just if the rule of its kind does. */
  lemma InspectByRule(c: Context, e: Event)
    requires c.Valid()
    ensures e in Inspect(c) <==> RuleFor(c, e.kind) == Some(e)
  {
    hide FlowRules, OnRetransmission, OnOutOfOrder, OnDuplicateAck, OnZeroWindow, OnHighRtt, OnHandshakeFailure;
    InFlowRules(c, e);
  }

  lemma TimesOfInspect(c: Context, kind: HostKind)
    requires c.Valid()
    ensures Times(Inspect(c), kind) == if Asks(c, kind) && IsReady(GateFor(c.m, kind), c.now) then [c.now] else []
  {
    hide Inspect;
    TimesOfRules(c, kind);
  }

  lemma GateSnoc(gap: nat, calls: seq<u64>, t: u64)
    ensures GateOf(gap, calls + [t]) == Consult(GateOf(gap, calls), t)
    ensures AlertTimes(gap, calls + [t]) == AlertTimes(gap, calls) + if IsReady(GateOf(gap, calls), t) then [t] else []
  {
    assert (calls + [t])[..|calls|] == calls;
  }

  lemma ProcessGate(cfg: DetectConfig, m: EngineModel, p: PacketMeta, kind: HostKind)
    requires m.Valid()
    ensures
      var gate := GateFor(m, kind);
      GateFor(ContextOf(cfg, m, p).m, kind) == gate &&
      GateFor(ProcessModel(cfg, m, p), kind) == if Asks(ContextOf(cfg, m, p), kind) then Consult(gate, p.ts) else gate
  {
  }

  /** Over every run, the alerts emitted are those that the alert's own gate lets through. */
  lemma {:induction false} AlertsAreGated(cfg: DetectConfig, steps: seq<Step>, kind: HostKind)
    ensures GateFor(RunEngine(cfg, steps), kind) == GateOf(Gap(cfg), Calls(cfg, steps, kind))
    ensures Times(Emitted(cfg, steps), kind) == AlertTimes(Gap(cfg), Calls(cfg, steps, kind))
  {
    if steps != [] {
      var init, last := steps[..|steps| - 1], steps[|steps| - 1];
      AlertsAreGated(cfg, init, kind);
      match last
      case SweepAt(now) => assert Emitted(cfg, steps) == Emitted(cfg, init);
      case Packet(p) =>
        var m := RunEngine(cfg, init);
        ProcessGate(cfg, m, p, kind);
        TimesOfInspect(ContextOf(cfg, m, p), kind);
        TimesConcat(Emitted(cfg, init), Inspect(ContextOf(cfg, m, p)), kind);
        GateSnoc(Gap(cfg), Calls(cfg, init, kind), p.ts);
    }
  }

  ghost predicate NoZeroTime(steps: seq<Step>) {
    forall i | 0 <= i < |steps| && steps[i].Packet? :: steps[i].p.ts != 0
  }

  lemma {:induction false} CallsAreNonzero(cfg: DetectConfig, steps: seq<Step>, kind: HostKind)
    requires NoZeroTime(steps)
    ensures forall i | 0 <= i < |Calls(cfg, steps, kind)| :: Calls(cfg, steps, kind)[i] != 0
  {
    if steps != [] {
      var n := |steps| - 1;
      assert forall i | 0 <= i < n :: steps[..n][i] == steps[i];
      CallsAreNonzero(cfg, steps[..n], kind);
    }
  }

  /** With nonzero timestamps, in whatever order, alerts of one kind are at least the
      debounce gap apart over the whole run, so that `j - i` alerts take that many gaps. */
  lemma AlertsAreSpaced(cfg: DetectConfig, steps: seq<Step>, kind: HostKind, i: nat, j: nat)
    requires NoZeroTime(steps) && cfg.alertDebounceSecs > 0
    requires i <= j < |Times(Emitted(cfg, steps), kind)|
    ensures Spaced(Times(Emitted(cfg, steps), kind), Gap(cfg))
    ensures
      var times := Times(Emitted(cfg, steps), kind);
      times[j] - times[i] >= (j - i) * Gap(cfg)
  {
    AlertsAreGated(cfg, steps, kind);
    CallsAreNonzero(cfg, steps, kind);
    SpacedExactly(Gap(cfg), Calls(cfg, steps, kind));
    SpacedSpan(Times(Emitted(cfg, steps), kind), Gap(cfg), i, j);
  }

  /** An over-threshold packet that raises no alert comes less than one gap after the last alert. */
  lemma SuppressionIsShort(cfg: DetectConfig, steps: seq<Step>, p: PacketMeta, kind: HostKind)
    requires Asks(ContextOf(cfg, RunEngine(cfg, steps), p), kind)
    requires Times(Inspect(ContextOf(cfg, RunEngine(cfg, steps), p)), kind) == []
    ensures
      var times := Times(Emitted(cfg, steps), kind);
      times != [] && p.ts < times[|times| - 1] + Gap(cfg)
  {
    AlertsAreGated(cfg, steps, kind);
    ProcessGate(cfg, RunEngine(cfg, steps), p, kind);
    TimesOfInspect(ContextOf(cfg, RunEngine(cfg, steps), p), kind);
    GateRemembersLast(Gap(cfg), Calls(cfg, steps, kind));
  }

  // ---- The reported rates -----------------------------------------------------------------

  /** The signals of the packet's second, over a run and that packet. */
  function TrueCount(cfg: DetectConfig, steps: seq<Step>, p: PacketMeta, signal: Signal): nat {
    Count(History(cfg, Expand(cfg, steps) + [Packet(p)], signal), p.ts / 1_000_000_000, p.ts / 1_000_000_000)
  }

  lemma OneSecondRing(r: Ring, now: u64)
    requires r.Valid() && |r.buckets| == 1
    ensures RateIn(r, now) == CountIn(r, now) as real
  {
    assert |r.buckets| as real == 1.0;
  }

  lemma OneSecondRate(h: seq<u64>, now: u64)
    ensures RateIn(RingOf(1, h), now) <= Count(h, now / 1_000_000_000, now / 1_000_000_000) as real
    ensures Ordered(h) && (h == [] || h[|h| - 1] <= now) ==>
            RateIn(RingOf(1, h), now) == Count(h, now / 1_000_000_000, now / 1_000_000_000) as real
  {
    OneSecondRing(RingOf(1, h), now);
    RingRefinesHistory(1, h, now);
    if Ordered(h) && (h == [] || h[|h| - 1] <= now) {
      OrderedTimeIsExact(1, h, now);
    }
  }

  /** A reset-storm or churn rate never exceeds the true number of signals in the packet's
      second, and is exactly that number when packets come in order. */
  lemma RatesAreTrue(cfg: DetectConfig, steps: seq<Step>, p: PacketMeta, signal: Signal)
    ensures
      var rate := RateIn(RingFor(Ingest(RunEngine(cfg, steps), p), signal), p.ts);
      rate <= TrueCount(cfg, steps, p, signal) as real &&
      (OrderedPackets(steps + [Packet(p)]) ==> rate == TrueCount(cfg, steps, p, signal) as real)
  {
    hide OrderedPackets, NoneAfter;
    var run := Expand(cfg, steps) + [Packet(p)];
    var h := History(cfg, run, signal);
    EngineTableIsRun(cfg, steps);
    RingsHoldHistory(cfg, steps, signal);
    IngestRing(RunEngine(cfg, steps), p, signal);
    HistoryRing(cfg, Expand(cfg, steps), p, signal);
    OneSecondRate(h, p.ts);
    if OrderedPackets(steps + [Packet(p)]) {
      LastIsLatest(steps, p);
      OrderedSnoc(steps, Packet(p), p.ts);
      ExpandStaysOrdered(cfg, steps, p.ts);
      OrderedSnoc(Expand(cfg, steps), Packet(p), p.ts);
      HistoryIsOrdered(cfg, run, p.ts, signal, Everyone);
    }
  }

  lemma LastIsLatest(steps: seq<Step>, p: PacketMeta)
    requires OrderedPackets(steps + [Packet(p)])
    ensures NoneAfter(steps + [Packet(p)], p.ts)
  {
    var all := steps + [Packet(p)];
    assert all[|steps|] == Packet(p);
  }

  // ---- What the thresholds are held against -------------------------------------------------

  /** The signals that the ring of one second shows at a packet, that packet included. */
  function RingCount(cfg: DetectConfig, steps: seq<Step>, p: PacketMeta, signal: Signal): nat {
    CountIn(RingOf(1, History(cfg, Expand(cfg, steps) + [Packet(p)], signal)), p.ts)
  }

  lemma RateIsRingCount(cfg: DetectConfig, steps: seq<Step>, p: PacketMeta, signal: Signal)
    ensures RateIn(RingFor(Ingest(RunEngine(cfg, steps), p), signal), p.ts) == RingCount(cfg, steps, p, signal) as real
  {
    EngineTableIsRun(cfg, steps);
    RingsHoldHistory(cfg, steps, signal);
    IngestRing(RunEngine(cfg, steps), p, signal);
    HistoryRing(cfg, Expand(cfg, steps), p, signal);
    OneSecondRing(RingFor(Ingest(RunEngine(cfg, steps), p), signal), p.ts);
  }

  lemma RingCountIsBounded(cfg: DetectConfig, steps: seq<Step>, p: PacketMeta, signal: Signal)
    ensures RingCount(cfg, steps, p, signal) <= TrueCount(cfg, steps, p, signal)
    ensures OrderedPackets(steps + [Packet(p)]) ==> RingCount(cfg, steps, p, signal) == TrueCount(cfg, steps, p, signal)
  {
    hide OrderedPackets, TrueCount, RingCount;
    RateIsRingCount(cfg, steps, p, signal);
    RatesAreTrue(cfg, steps, p, signal);
  }

  /** The service of the packet's conversation: that of the packet its trace starts with. */
  function ServiceOf(cfg: DetectConfig, steps: seq<Step>, p: PacketMeta): Endpoint {
    ServiceAt(cfg, Expand(cfg, steps) + [Packet(p)], |Expand(cfg, steps)|)
  }

  /** The half-open conversations of that service, the packet included. */
  ghost function BacklogAt(cfg: DetectConfig, steps: seq<Step>, p: PacketMeta): set<FlowKey> {
    HalfOpenConversations(cfg, Expand(cfg, steps) + [Packet(p)], ServiceOf(cfg, steps, p))
  }

  lemma BacklogIsTrue(cfg: DetectConfig, steps: seq<Step>, p: PacketMeta)
    ensures Backlog(ContextOf(cfg, RunEngine(cfg, steps), p)) == |BacklogAt(cfg, steps, p)|
  {
    hide RunEngine, Run, Life, GuessService, HalfOpenConversations, HandshakeOk;
    var run, t := Expand(cfg, steps), RunEngine(cfg, steps).table;
    EngineTableIsRun(cfg, steps);
    RunSnoc(cfg, run, Packet(p));
    RecordMet(cfg, run, p);
    assert (run + [Packet(p)])[..|run|] == run;
    BacklogByTrace(cfg, run + [Packet(p)], ServiceOf(cfg, steps, p));
  }

  lemma DeltaBits(t: Table, p: PacketMeta)
    ensures DeltaOf(t, p).rst <==> InClass(p, RstKind)
    ensures DeltaOf(t, p).newFlow <==> p.key !in t.flows
  {
    ClassByBits(p, RstKind);
  }

  lemma TrackedByTrace(cfg: DetectConfig, steps: seq<Step>, k: FlowKey)
    ensures k in RunEngine(cfg, steps).table.flows <==> Life(cfg, k, Expand(cfg, steps)) != []
  {
    hide RunEngine, Run, RecordOf, Life, RunOps;
    EngineTableIsRun(cfg, steps);
    TableIsProduct(cfg, k, Expand(cfg, steps));
    RecordIsItsLife(cfg, k, Expand(cfg, steps));
  }

  /** A packet is over the threshold of a host-wide alert exactly so: it is a reset and the second's
      resets reach theirs; it opens a conversation and the second's new flows reach theirs; the
      half-open conversations of its service reach theirs. The rings' counts never exceed the
      true counts of the second, and equal them with ordered packets. */
  lemma OverThreshold(cfg: DetectConfig, steps: seq<Step>, p: PacketMeta)
    ensures
      var c := ContextOf(cfg, RunEngine(cfg, steps), p);
      && (Asks(c, RstStorm) <==>
            InClass(p, RstKind) && RingCount(cfg, steps, p, Resets) as real >= cfg.rstStormPerSec)
      && (Asks(c, ConnectionChurn) <==>
            Life(cfg, p.key, Expand(cfg, steps)) == [] && RingCount(cfg, steps, p, NewFlows) as real >= cfg.churnPerSec)
      && (Asks(c, SynBacklog) <==> |BacklogAt(cfg, steps, p)| >= cfg.synBacklogThreshold)
    ensures forall signal :: RingCount(cfg, steps, p, signal) <= TrueCount(cfg, steps, p, signal)
    ensures OrderedPackets(steps + [Packet(p)]) ==>
              forall signal :: RingCount(cfg, steps, p, signal) == TrueCount(cfg, steps, p, signal)
  {
    hide RunEngine, RingCount, TrueCount, BacklogAt, Backlog, OrderedPackets, Life, RateIn;
    DeltaBits(RunEngine(cfg, steps).table, p);
    TrackedByTrace(cfg, steps, p.key);
    RateIsRingCount(cfg, steps, p, Resets);
    RateIsRingCount(cfg, steps, p, NewFlows);
    BacklogIsTrue(cfg, steps, p);
    forall signal ensures RingCount(cfg, steps, p, signal) <= TrueCount(cfg, steps, p, signal)
    {
      RingCountIsBounded(cfg, steps, p, signal);
    }
    if OrderedPackets(steps + [Packet(p)]) {
      forall signal ensures RingCount(cfg, steps, p, signal) == TrueCount(cfg, steps, p, signal)
      {
        RingCountIsBounded(cfg, steps, p, signal);
      }
    }
  }

  /** What a host-wide alert says: the packet's time and key, its kind's severity, and the number
      held against the threshold. */
  lemma HostEvents(cfg: DetectConfig, steps: seq<Step>, p: PacketMeta, e: Event)
    requires e in Inspect(ContextOf(cfg, RunEngine(cfg, steps), p))
    ensures
      && (e.kind == RstStorm ==> e == Event(p.ts, RstStorm, Critical, p.key, RingCount(cfg, steps, p, Resets) as real))
      && (e.kind == SynBacklog ==> e == Event(p.ts, SynBacklog, Warning, p.key, |BacklogAt(cfg, steps, p)| as real))
      && (e.kind == ConnectionChurn ==>
            e == Event(p.ts, ConnectionChurn, Info, p.key, RingCount(cfg, steps, p, NewFlows) as real))
  {
    hide RunEngine, Inspect, RingCount, BacklogAt, Backlog, RateIn, Ingest;
    var c := ContextOf(cfg, RunEngine(cfg, steps), p);
    InspectByRule(c, e);
    RateIsRingCount(cfg, steps, p, Resets);
    RateIsRingCount(cfg, steps, p, NewFlows);
    BacklogIsTrue(cfg, steps, p);
  }
}
