/**
 The engine as a value: the flow table, the two host-wide rates, the three
 debounced alerts and the sweep clock, with the chain of nine detectors.
 */
module Detectors {
  import opened Types
  import opened Flow
  import opened Table
  import opened Window
  import opened Alerting
  import opened Runs
  import DupAcks

  datatype EventKind =
    | Retransmission | DuplicateAck | OutOfOrder | ZeroWindow | RstStorm
    | HandshakeFailure | HandshakeTimeout | SynBacklog | HighRtt | ConnectionChurn

  datatype Severity = Info | Warning | Critical

  datatype Event = Event(ts: u64, kind: EventKind, severity: Severity, key: FlowKey, value: real)

  datatype EngineModel = EngineModel(
    table: Table,
    rstRate: Ring,
    newFlowRate: Ring,
    rstGate: Gate,
    synGate: Gate,
    churnGate: Gate,
    lastSweep: u64)
  {
    ghost predicate Valid() {
      rstRate.Valid() && newFlowRate.Valid()
    }
  }

  function NewEngine(cfg: DetectConfig): (m: EngineModel)
    ensures m.Valid()
  {
    var gate := Gate(0, cfg.alertDebounceSecs * NS_PER_SEC);
    EngineModel(EMPTY, NewRing(1), NewRing(1), gate, gate, gate, 0)
  }

  // ---- Ingesting a packet ----------------------------------------------------------

  function Ingest(m: EngineModel, p: PacketMeta): (m': EngineModel)
    requires m.Valid()
    ensures m'.Valid()
  {
    var d := DeltaOf(m.table, p);
    m.(table := UpdateTable(m.table, p),
       newFlowRate := if d.newFlow then RecordAt(m.newFlowRate, p.ts) else m.newFlowRate,
       rstRate := if d.rst then RecordAt(m.rstRate, p.ts) else m.rstRate)
  }

  // ---- The detectors ---------------------------------------------------------------

  /** What a detector sees: the state after the packet, and the packet's delta. */
  datatype Context = Context(cfg: DetectConfig, m: EngineModel, d: PacketDelta, key: FlowKey, now: u64) {
    ghost predicate Valid() {
      m.Valid() && key in m.table.flows
    }
  }

  // The six rules that read no more than the delta and the flow's own record.

  function OnRetransmission(cfg: DetectConfig, d: PacketDelta, key: FlowKey, now: u64, flow: FlowState): Option<Event> {
    var ratio := flow.RetransmitRatio();
    if d.isRetransmit && ratio >= cfg.retransmitRatioWarn
    then Some(Event(now, Retransmission, Warning, key, ratio)) else None
  }

  function OnOutOfOrder(d: PacketDelta, key: FlowKey, now: u64): Option<Event> {
    if d.isOutOfOrder then Some(Event(now, OutOfOrder, Info, key, 1.0)) else None
  }

  function OnDuplicateAck(cfg: DetectConfig, d: PacketDelta, key: FlowKey, now: u64): Option<Event> {
    if DupAcks.Fires(cfg.dupAckThreshold, d)
    then Some(Event(now, DuplicateAck, Warning, key, d.dupAckCount as real)) else None
  }

  function OnZeroWindow(d: PacketDelta, key: FlowKey, now: u64): Option<Event> {
    if d.zeroWindowEdge then Some(Event(now, ZeroWindow, Warning, key, 0.0)) else None
  }

  function Millis(ns: u64): real {
    ns as real / NS_PER_SEC as real * 1000.0
  }

  function OnHighRtt(cfg: DetectConfig, d: PacketDelta, key: FlowKey, now: u64): Option<Event> {
    if d.rttSample.None? || Millis(d.rttSample.value) < cfg.rttWarnMs then None
    else
      var ms := Millis(d.rttSample.value);
      Some(Event(now, HighRtt, if ms >= cfg.rttWarnMs * 4.0 then Warning else Info, key, ms))
  }

  function OnHandshakeFailure(d: PacketDelta, key: FlowKey, now: u64): Option<Event> {
    if d.handshakeRefused then Some(Event(now, HandshakeFailure, Warning, key, 1.0)) else None
  }

  function Emit(e: Option<Event>): seq<Event> {
    if e.Some? then [e.value] else []
  }

  function FlowRules(cfg: DetectConfig, d: PacketDelta, key: FlowKey, now: u64, flow: FlowState): seq<Event> {
    Emit(OnRetransmission(cfg, d, key, now, flow)) + Emit(OnOutOfOrder(d, key, now)) +
    Emit(OnDuplicateAck(cfg, d, key, now)) + Emit(OnZeroWindow(d, key, now)) +
    Emit(OnHighRtt(cfg, d, key, now)) + Emit(OnHandshakeFailure(d, key, now))
  }

  // The three host-wide rules, each behind its own debounce.

  /** The reset rate is over its threshold on a reset. */
  predicate Storming(c: Context)
    requires c.Valid()
  {
    c.d.rst && RateIn(c.m.rstRate, c.now) >= c.cfg.rstStormPerSec
  }

  function Backlog(c: Context): nat
    requires c.Valid()
  {
    HalfOpenFor(c.m.table.halfOpen, c.m.table.flows[c.key].service)
  }

  predicate Backlogged(c: Context)
    requires c.Valid()
  {
    Backlog(c) >= c.cfg.synBacklogThreshold
  }

  predicate Churning(c: Context)
    requires c.Valid()
  {
    c.d.newFlow && RateIn(c.m.newFlowRate, c.now) >= c.cfg.churnPerSec
  }

  function OnRstStorm(c: Context): Option<Event>
    requires c.Valid()
  {
    if Storming(c) && IsReady(c.m.rstGate, c.now)
    then Some(Event(c.now, RstStorm, Critical, c.key, RateIn(c.m.rstRate, c.now))) else None
  }

  function OnSynBacklog(c: Context): Option<Event>
    requires c.Valid()
  {
    if Backlogged(c) && IsReady(c.m.synGate, c.now)
    then Some(Event(c.now, SynBacklog, Warning, c.key, Backlog(c) as real)) else None
  }

  function OnChurn(c: Context): Option<Event>
    requires c.Valid()
  {
    if Churning(c) && IsReady(c.m.churnGate, c.now)
    then Some(Event(c.now, ConnectionChurn, Info, c.key, RateIn(c.m.newFlowRate, c.now))) else None
  }

  /** The default chain, in evaluation order. */
  function Inspect(c: Context): seq<Event>
    requires c.Valid()
  {
    FlowRules(c.cfg, c.d, c.key, c.now, c.m.table.flows[c.key]) +
    Emit(OnRstStorm(c)) + Emit(OnSynBacklog(c)) + Emit(OnChurn(c))
  }

  /** Asking a debounced detector moves its gate. */
  function AfterInspect(c: Context): (m': EngineModel)
    requires c.Valid()
    ensures m'.Valid() && m'.table == c.m.table && m'.lastSweep == c.m.lastSweep
  {
    c.m.(rstGate := if Storming(c) then Consult(c.m.rstGate, c.now) else c.m.rstGate,
         synGate := if Backlogged(c) then Consult(c.m.synGate, c.now) else c.m.synGate,
         churnGate := if Churning(c) then Consult(c.m.churnGate, c.now) else c.m.churnGate)
  }

  function ContextOf(cfg: DetectConfig, m: EngineModel, p: PacketMeta): (c: Context)
    requires m.Valid()
    ensures c.Valid()
  {
    Context(cfg, Ingest(m, p), DeltaOf(m.table, p), p.key, p.ts)
  }

  // ---- Sweeps and whole steps -------------------------------------------------------

  function TimeoutEvent(k: FlowKey, f: FlowState, now: u64): Event {
    var waited := if f.synTime.Some? then SatSub(now, f.synTime.value) else 0;
    Event(now, HandshakeTimeout, Warning, k, waited as real / NS_PER_SEC as real)
  }

  /** The events of a sweep; each names another flow, so a set loses nothing. */
  function SweepEvents(cfg: DetectConfig, t: Table, now: u64): set<Event> {
    set k | k in TimedOutKeys(cfg, t.flows, now) :: TimeoutEvent(k, t.flows[k], now)
  }

  function SweepModel(cfg: DetectConfig, m: EngineModel, now: u64): (m': EngineModel)
    requires m.Valid()
    ensures m'.Valid()
  {
    m.(table := SweepTable(cfg, m.table, now))
  }

  predicate SweepDue(m: EngineModel, now: u64) {
    SatSub(now, m.lastSweep) >= NS_PER_SEC
  }

  /** The events of the sweep that a step brings, if it brings one. */
  function SweptEvents(cfg: DetectConfig, m: EngineModel, step: Step): set<Event> {
    match step
    case SweepAt(now) => SweepEvents(cfg, m.table, now)
    case Packet(p) => if SweepDue(m, p.ts) then SweepEvents(cfg, UpdateTable(m.table, p), p.ts) else {}
  }

  function Detected(cfg: DetectConfig, m: EngineModel, p: PacketMeta): (m': EngineModel)
    requires m.Valid()
    ensures m'.Valid()
  {
    AfterInspect(ContextOf(cfg, m, p))
  }

  function ProcessModel(cfg: DetectConfig, m: EngineModel, p: PacketMeta): (m': EngineModel)
    requires m.Valid()
    ensures m'.Valid()
  {
    var d := Detected(cfg, m, p);
    if SweepDue(m, p.ts) then SweepModel(cfg, d.(lastSweep := p.ts), p.ts) else d
  }

  // ---- Whole runs ---------------------------------------------------------------------

  /** An engine is given packets, and sweeps on a timer; a packet may bring a sweep of its own. */
  function ApplyStep(cfg: DetectConfig, m: EngineModel, step: Step): (m': EngineModel)
    requires m.Valid()
    ensures m'.Valid()
  {
    match step
    case Packet(p) => ProcessModel(cfg, m, p)
    case SweepAt(now) => SweepModel(cfg, m, now)
  }

  function RunEngine(cfg: DetectConfig, steps: seq<Step>): (m: EngineModel)
    ensures m.Valid()
  {
    if steps == [] then NewEngine(cfg) else ApplyStep(cfg, RunEngine(cfg, steps[..|steps| - 1]), steps[|steps| - 1])
  }
}
