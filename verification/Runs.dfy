/**
 Whole runs of the flow table: any sequence of packets and sweeps, from the empty
 table. The table is the product of independent per-key machines, and its
 half-open counters are always recounts.
 */
module Runs {
  import opened Types
  import opened Flow
  import opened Table

  datatype Step = Packet(p: PacketMeta) | SweepAt(now: u64)

  function Apply(cfg: DetectConfig, t: Table, step: Step): Table {
    match step
    case Packet(p) => UpdateTable(t, p)
    case SweepAt(now) => SweepTable(cfg, t, now)
  }

  function Run(cfg: DetectConfig, steps: seq<Step>): Table {
    if steps == [] then EMPTY else Apply(cfg, Run(cfg, steps[..|steps| - 1]), steps[|steps| - 1])
  }

  lemma RunSnoc(cfg: DetectConfig, steps: seq<Step>, step: Step)
    ensures Run(cfg, steps + [step]) == Apply(cfg, Run(cfg, steps), step)
  {
    assert (steps + [step])[..|steps|] == steps;
  }

  // ---- Counters over every run -------------------------------------------------

  lemma {:induction false} RunKeepsCounters(cfg: DetectConfig, steps: seq<Step>)
    ensures CountersExact(Run(cfg, steps))
  {
    if steps == [] {
      assert forall s :: CountedKeys(EMPTY.flows, s) == {};
    } else {
      var init, last := steps[..|steps| - 1], steps[|steps| - 1];
      RunKeepsCounters(cfg, init);
      match last
      case Packet(p) => UpdateKeepsCounters(Run(cfg, init), p);
      case SweepAt(now) => SweepKeepsCounters(cfg, Run(cfg, init), now);
    }
  }

  /** In every reachable table a counted record has a positive counter to give back,
      so the decrement that un-counts it is exact, and no counter exceeds the number of records. */
  lemma DecrementIsExact(cfg: DetectConfig, steps: seq<Step>, k: FlowKey)
    requires k in Run(cfg, steps).flows
    ensures
      var t := Run(cfg, steps);
      var s := t.flows[k].service;
      HalfOpenFor(t.halfOpen, s) <= |t.flows| &&
      (t.flows[k].halfOpenCounted ==>
        s in t.halfOpen && t.halfOpen[s] >= 1 &&
        HalfOpenFor(Decrement(t.halfOpen, s), s) + 1 == HalfOpenFor(t.halfOpen, s))
  {
    RunKeepsCounters(cfg, steps);
    var t := Run(cfg, steps);
    var counted := CountedKeys(t.flows, t.flows[k].service);
    assert |t.flows| == |t.flows.Keys|;
    SubsetSize(counted, t.flows.Keys);
    if t.flows[k].halfOpenCounted {
      assert k in counted;
      assert |counted| != 0;
    }
  }

  lemma {:induction false} SubsetSize<T>(a: set<T>, b: set<T>)
    requires a <= b
    ensures |a| <= |b|
  {
    assert b == a + (b - a);
  }

  // ---- The table is a product of per-key machines -------------------------------

  /** The record of `k`, computed from `k`'s packets and the sweep times alone. */
  function RecordStep(cfg: DetectConfig, k: FlowKey, r: Option<FlowState>, step: Step): Option<FlowState> {
    match step
    case Packet(p) =>
      if p.key != k then r
      else Some(StepFlow(if r.Some? then r.value else NewFlow(p), p))
    case SweepAt(now) => if r.None? then None else SweepRecord(cfg, r.value, now)
  }

  function RecordOf(cfg: DetectConfig, k: FlowKey, steps: seq<Step>): Option<FlowState> {
    if steps == [] then None else RecordStep(cfg, k, RecordOf(cfg, k, steps[..|steps| - 1]), steps[|steps| - 1])
  }

  lemma RecordOfSnoc(cfg: DetectConfig, k: FlowKey, steps: seq<Step>, last: Step)
    ensures RecordOf(cfg, k, steps + [last]) == RecordStep(cfg, k, RecordOf(cfg, k, steps), last)
  {
    assert (steps + [last])[..|steps|] == steps;
  }

  function Lookup(flows: map<FlowKey, FlowState>, k: FlowKey): Option<FlowState> {
    if k in flows then Some(flows[k]) else None
  }

  lemma {:induction false} TableIsProduct(cfg: DetectConfig, k: FlowKey, steps: seq<Step>)
    ensures Lookup(Run(cfg, steps).flows, k) == RecordOf(cfg, k, steps)
  {
    if steps != [] {
      var init, last := steps[..|steps| - 1], steps[|steps| - 1];
      TableIsProduct(cfg, k, init);
      if last.SweepAt? {
        SweepByRecord(cfg, Run(cfg, init), last.now, k);
      }
    }
  }

  // ---- Closed flows ---------------------------------------------------------------

  /** Sweeps that all come within the time to live of `seen`. */
  ghost predicate SweepsWithin(cfg: DetectConfig, sweeps: seq<Step>, seen: u64) {
    forall i | 0 <= i < |sweeps| :: sweeps[i].SweepAt? && SatSub(sweeps[i].now, seen) <= cfg.flowTtlSecs * 1_000_000_000
  }

  predicate IsClosed(r: Option<FlowState>) {
    r.Some? && (r.value.state == Closing || r.value.state == Reset)
  }

  lemma SweepLeavesClosed(cfg: DetectConfig, k: FlowKey, r: Option<FlowState>, now: u64)
    requires IsClosed(r) && SatSub(now, r.value.lastSeen) <= cfg.flowTtlSecs * 1_000_000_000
    ensures RecordStep(cfg, k, r, SweepAt(now)) == r
  {
  }

  lemma {:induction false} ClosedRecordStays(cfg: DetectConfig, k: FlowKey, steps: seq<Step>, sweeps: seq<Step>)
    requires IsClosed(RecordOf(cfg, k, steps)) && SweepsWithin(cfg, sweeps, RecordOf(cfg, k, steps).value.lastSeen)
    ensures RecordOf(cfg, k, steps + sweeps) == RecordOf(cfg, k, steps)
  {
    hide RecordOf, RecordStep;
    if sweeps == [] {
      assert steps + sweeps == steps;
    } else {
      var n := |sweeps| - 1;
      ClosedRecordStays(cfg, k, steps, sweeps[..n]);
      assert steps + sweeps == steps + sweeps[..n] + [sweeps[n]];
      RecordOfSnoc(cfg, k, steps + sweeps[..n], sweeps[n]);
      SweepLeavesClosed(cfg, k, RecordOf(cfg, k, steps), sweeps[n].now);
    }
  }

  /** A connection that was closed or reset is not evicted for that: within the time to live of
      its last packet any number of sweeps leaves its record as it is. */
  lemma ClosedFlowsStay(cfg: DetectConfig, k: FlowKey, steps: seq<Step>, sweeps: seq<Step>)
    requires IsClosed(Lookup(Run(cfg, steps).flows, k))
    requires SweepsWithin(cfg, sweeps, Run(cfg, steps).flows[k].lastSeen)
    ensures Lookup(Run(cfg, steps + sweeps).flows, k) == Lookup(Run(cfg, steps).flows, k)
  {
    hide Run, RecordOf;
    TableIsProduct(cfg, k, steps);
    TableIsProduct(cfg, k, steps + sweeps);
    ClosedRecordStays(cfg, k, steps, sweeps);
  }

  // ---- Packet order ------------------------------------------------------------------

  /** Packet timestamps never go back; sweeps may come at any time. */
  ghost predicate OrderedPackets(steps: seq<Step>) {
    forall i, j | 0 <= i <= j < |steps| && steps[i].Packet? && steps[j].Packet? :: steps[i].p.ts <= steps[j].p.ts
  }

  /** Every packet came no later than `now`. */
  ghost predicate NoneAfter(steps: seq<Step>, now: u64) {
    forall i | 0 <= i < |steps| && steps[i].Packet? :: steps[i].p.ts <= now
  }

  /** The time up to which a run's packets reach before this step. */
  function Latest(step: Step, now: u64): u64 {
    if step.Packet? then step.p.ts else now
  }

  lemma OrderedSnoc(steps: seq<Step>, step: Step, now: u64)
    ensures OrderedPackets(steps + [step]) && NoneAfter(steps + [step], now) <==>
            OrderedPackets(steps) && NoneAfter(steps, Latest(step, now)) && Latest(step, now) <= now
  {
    var all, n := steps + [step], |steps|;
    assert all[n] == step;
    assert forall j | 0 <= j < n :: all[j] == steps[j];
    if OrderedPackets(all) && NoneAfter(all, now) {
      forall i, j | 0 <= i <= j < n && steps[i].Packet? && steps[j].Packet? ensures steps[i].p.ts <= steps[j].p.ts {
        assert all[i].p.ts <= all[j].p.ts;
      }
      forall j | 0 <= j < n && steps[j].Packet? ensures steps[j].p.ts <= Latest(step, now) {
        assert step.Packet? ==> all[j].p.ts <= all[n].p.ts;
        assert all[j].p.ts <= now;
      }
    }
  }
}
