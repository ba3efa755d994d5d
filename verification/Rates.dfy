/**
 The host-wide rates over whole runs: the rings hold the history of the run, and the
 histories of a run split over workers add up.
 */
module Rates {
  import opened Types
  import opened Flow
  import opened Table
  import opened Window
  import opened Runs
  import opened Sharding
  import opened Detectors
  import opened EngineRuns

  datatype Signal = NewFlows | Resets

  predicate Raises(t: Table, p: PacketMeta, signal: Signal) {
    if signal == NewFlows then p.key !in t.flows else InClass(p, RstKind)
  }

  /** Whose packets are looked at. */
  datatype Scope = Everyone | Worker(shard: FlowKey -> nat, i: nat) {
    predicate Has(k: FlowKey) {
      Everyone? || shard(k) == i
    }
  }

  /** The times at which packets of the scope raised a signal over a run. */
  function History(cfg: DetectConfig, steps: seq<Step>, signal: Signal, scope: Scope := Everyone): seq<u64> {
    if steps == [] then []
    else
      var init, last := steps[..|steps| - 1], steps[|steps| - 1];
      History(cfg, init, signal, scope) + Raised(cfg, init, last, signal, scope)
  }

  function Raised(cfg: DetectConfig, init: seq<Step>, last: Step, signal: Signal, scope: Scope): seq<u64> {
    if last.Packet? && scope.Has(last.p.key) && Raises(Run(cfg, init), last.p, signal) then [last.p.ts] else []
  }

  lemma HistorySnoc(cfg: DetectConfig, steps: seq<Step>, last: Step, signal: Signal, scope: Scope)
    ensures History(cfg, steps + [last], signal, scope) ==
            History(cfg, steps, signal, scope) + Raised(cfg, steps, last, signal, scope)
  {
    assert (steps + [last])[..|steps|] == steps;
  }

  // ---- The rings of the engine -------------------------------------------------------

  lemma RingSnoc(window: u64, h: seq<u64>, t: u64)
    ensures RingOf(window, h + [t]) == RecordAt(RingOf(window, h), t)
  {
    assert (h + [t])[..|h|] == h;
  }

  function RingAfter(r: Ring, raised: bool, t: u64): Ring
    requires r.Valid()
  {
    if raised then RecordAt(r, t) else r
  }

  function RingFor(m: EngineModel, signal: Signal): Ring {
    if signal == Resets then m.rstRate else m.newFlowRate
  }

  lemma IngestRing(m: EngineModel, p: PacketMeta, signal: Signal)
    requires m.Valid()
    ensures RingFor(Ingest(m, p), signal) == RingAfter(RingFor(m, signal), Raises(m.table, p, signal), p.ts)
  {
    ClassByBits(p, RstKind);
    assert DeltaOf(m.table, p).rst <==> KindOf(p) == RstKind;
  }

  lemma ProcessRing(cfg: DetectConfig, m: EngineModel, p: PacketMeta, signal: Signal)
    requires m.Valid()
    ensures RingFor(ProcessModel(cfg, m, p), signal) == RingFor(Ingest(m, p), signal)
  {
  }

  lemma HistoryRing(cfg: DetectConfig, run: seq<Step>, p: PacketMeta, signal: Signal)
    ensures RingOf(1, History(cfg, run + [Packet(p)], signal)) ==
            RingAfter(RingOf(1, History(cfg, run, signal)), Raises(Run(cfg, run), p, signal), p.ts)
  {
    hide History, RingOf, Run, Raises, RecordAt;
    HistorySnoc(cfg, run, Packet(p), signal, Everyone);
    RingSnoc(1, History(cfg, run, signal), p.ts);
    assert History(cfg, run, signal) + [] == History(cfg, run, signal);
  }

  lemma SweepsRaiseNothing(cfg: DetectConfig, run: seq<Step>, now: u64, signal: Signal)
    ensures History(cfg, run + [SweepAt(now)], signal) == History(cfg, run, signal)
  {
    HistorySnoc(cfg, run, SweepAt(now), signal, Everyone);
  }

  /** The engine's two rings are the rings of the run's history. */
  lemma {:induction false} RingsHoldHistory(cfg: DetectConfig, steps: seq<Step>, signal: Signal)
    ensures RingFor(RunEngine(cfg, steps), signal) == RingOf(1, History(cfg, Expand(cfg, steps), signal))
  {
    if steps != [] {
      var init, last := steps[..|steps| - 1], steps[|steps| - 1];
      RingsHoldHistory(cfg, init, signal);
      match last
      case SweepAt(now) => SweepsRaiseNothing(cfg, Expand(cfg, init), now, signal);
      case Packet(p) =>
        EngineTableIsRun(cfg, init);
        ProcessRing(cfg, RunEngine(cfg, init), p, signal);
        IngestRing(RunEngine(cfg, init), p, signal);
        HistoryRing(cfg, Expand(cfg, init), p, signal);
        SweepsRaiseNothing(cfg, Expand(cfg, init) + [Packet(p)], p.ts, signal);
    }
  }

  // ---- Ordered histories ---------------------------------------------------------------

  lemma OrderedTimes(h: seq<u64>, t: u64)
    requires Ordered(h) && forall a | 0 <= a < |h| :: h[a] <= t
    ensures Ordered(h + [t])
  {
  }

  lemma {:induction false} HistoryIsOrdered(cfg: DetectConfig, steps: seq<Step>, now: u64, signal: Signal,
                                            scope: Scope)
    requires OrderedPackets(steps) && NoneAfter(steps, now)
    ensures
      var h := History(cfg, steps, signal, scope);
      Ordered(h) && forall a | 0 <= a < |h| :: h[a] <= now
  {
    if steps != [] {
      hide OrderedPackets, NoneAfter, Ordered, Run;
      var init, last := steps[..|steps| - 1], steps[|steps| - 1];
      assert steps == init + [last];
      OrderedSnoc(init, last, now);
      HistoryIsOrdered(cfg, init, Latest(last, now), signal, scope);
      var h := History(cfg, init, signal, scope);
      OrderedTimes(h, Latest(last, now));
      assert h + [] == h;
    }
  }

  // ---- Sharded histories -----------------------------------------------------------------

  /** The worker of the packet's key raises a signal just when the single table does. */
  lemma SameSignal(cfg: DetectConfig, log: seq<Entry>, p: PacketMeta, signal: Signal)
    requires signal == Resets || Agree(cfg, p.key, log)
    ensures Raises(Run(cfg, PartOf(log)), p, signal) == Raises(Run(cfg, WholeOf(log)), p, signal)
  {
    TableIsProduct(cfg, p.key, WholeOf(log));
    TableIsProduct(cfg, p.key, PartOf(log));
  }

  lemma GivenHistory(cfg: DetectConfig, steps: seq<Step>, step: Step, given: bool, signal: Signal, scope: Scope)
    ensures History(cfg, steps + Given(step, given), signal, scope) ==
            History(cfg, steps, signal, scope) + if given then Raised(cfg, steps, step, signal, scope) else []
  {
    if given {
      HistorySnoc(cfg, steps, step, signal, scope);
    } else {
      assert steps + [] == steps;
    }
  }

  lemma WorkerHistoryStep(cfg: DetectConfig, shard: FlowKey -> nat, i: nat, log: seq<Entry>, e: Entry, signal: Signal)
    requires IsDealt(shard, i, e) && (e.step.Packet? && e.part ==> signal == Resets || Agree(cfg, e.step.p.key, log))
    requires History(cfg, PartOf(log), signal) == History(cfg, WholeOf(log), signal, Worker(shard, i))
    ensures History(cfg, PartOf(log + [e]), signal) == History(cfg, WholeOf(log + [e]), signal, Worker(shard, i))
  {
    hide History, Agree, Run, Raises, WholeOf, PartOf, Given;
    LogSnoc(log, e);
    GivenHistory(cfg, WholeOf(log), e.step, e.whole, signal, Worker(shard, i));
    GivenHistory(cfg, PartOf(log), e.step, e.part, signal, Everyone);
    if e.step.Packet? && e.part {
      SameSignal(cfg, log, e.step.p, signal);
    }
  }

  lemma NeverSplitsSnoc(cfg: DetectConfig, shard: FlowKey -> nat, i: nat, log: seq<Entry>, e: Entry)
    requires NeverSplits(cfg, shard, i, log + [e])
    ensures NeverSplits(cfg, shard, i, log)
  {
    hide Unsplit, Splits;
    forall k | shard(k) == i ensures Unsplit(cfg, k, log) {
      UnsplitSnoc(cfg, k, log, e);
    }
  }

  /** What a worker raises is what the single table raises for the worker's keys: resets in
      every log, new flows in a log that splits none of them. */
  lemma {:induction false} WorkerHistory(cfg: DetectConfig, shard: FlowKey -> nat, i: nat, log: seq<Entry>,
                                         signal: Signal)
    requires Deals(shard, i, log) && (signal == Resets || NeverSplits(cfg, shard, i, log))
    ensures History(cfg, PartOf(log), signal) == History(cfg, WholeOf(log), signal, Worker(shard, i))
  {
    hide Deals, NeverSplits, Agree, History;
    if log == [] {
      NoHistory(cfg, signal, Everyone);
      NoHistory(cfg, signal, Worker(shard, i));
    } else {
      hide WholeOf, PartOf;
      var init, e := log[..|log| - 1], log[|log| - 1];
      assert log == init + [e];
      DealsSnoc(shard, i, init, e);
      if signal != Resets {
        NeverSplitsSnoc(cfg, shard, i, init, e);
        if e.step.Packet? && e.part {
          NeverSplitAgrees(cfg, shard, i, e.step.p.key, init);
        }
      }
      WorkerHistory(cfg, shard, i, init, signal);
      WorkerHistoryStep(cfg, shard, i, init, e, signal);
    }
  }

  lemma NoHistory(cfg: DetectConfig, signal: Signal, scope: Scope)
    ensures History(cfg, [], signal, scope) == []
  {
  }

  lemma NeverSplitAgrees(cfg: DetectConfig, shard: FlowKey -> nat, i: nat, k: FlowKey, log: seq<Entry>)
    requires Deals(shard, i, log) && NeverSplits(cfg, shard, i, log) && shard(k) == i
    ensures Agree(cfg, k, log)
  {
    hide Deals, Unsplit, Agree;
    UnsplitAgrees(cfg, shard, k, log);
  }

  /** What the last step of a run adds to the count of a window. */
  function Added(cfg: DetectConfig, steps: seq<Step>, signal: Signal, scope: Scope, lo: nat, hi: nat): nat
    requires steps != []
  {
    Count(Raised(cfg, steps[..|steps| - 1], steps[|steps| - 1], signal, scope), lo, hi)
  }

  lemma HistoryStep(cfg: DetectConfig, steps: seq<Step>, signal: Signal, scope: Scope, lo: nat, hi: nat)
    requires steps != []
    ensures Count(History(cfg, steps, signal, scope), lo, hi) ==
            Count(History(cfg, steps[..|steps| - 1], signal, scope), lo, hi) + Added(cfg, steps, signal, scope, lo, hi)
  {
    hide Run, Raises, Count;
    var init, last := steps[..|steps| - 1], steps[|steps| - 1];
    CountAppend(History(cfg, init, signal, scope), Raised(cfg, init, last, signal, scope), lo, hi);
  }

  lemma CountAppend(h: seq<u64>, more: seq<u64>, lo: nat, hi: nat)
    requires |more| <= 1
    ensures Count(h + more, lo, hi) == Count(h, lo, hi) + Count(more, lo, hi)
  {
    if more == [] {
      assert h + more == h;
    } else {
      assert (h + more)[..|h|] == h && more[..0] == [];
    }
  }

  /** Only the worker of the packet's key adds anything. */
  lemma AddedByOwner(cfg: DetectConfig, steps: seq<Step>, signal: Signal, shard: FlowKey -> nat, i: nat, lo: nat,
                     hi: nat)
    requires steps != []
    ensures
      var last, added := steps[|steps| - 1], Added(cfg, steps, signal, Everyone, lo, hi);
      Added(cfg, steps, signal, Worker(shard, i), lo, hi) ==
      if last.Packet? && shard(last.p.key) == i then added else 0
  {
    hide Run, Raises;
  }

  /** Every signal belongs to exactly one worker. */
  lemma {:induction false} HistoriesAdd(cfg: DetectConfig, shard: FlowKey -> nat, n: nat, steps: seq<Step>,
                                        signal: Signal, lo: nat, hi: nat)
    requires forall k :: shard(k) < n
    ensures SumTo(n, i => Count(History(cfg, steps, signal, Worker(shard, i)), lo, hi)) ==
            Count(History(cfg, steps, signal), lo, hi)
  {
    var now := i => Count(History(cfg, steps, signal, Worker(shard, i)), lo, hi);
    if steps == [] {
      SumOfNothing(n, now);
    } else {
      hide History, Added, SumTo, Count;
      var init, last := steps[..|steps| - 1], steps[|steps| - 1];
      HistoriesAdd(cfg, shard, n, init, signal, lo, hi);
      HistoryStep(cfg, steps, signal, Everyone, lo, hi);
      var before := i => Count(History(cfg, init, signal, Worker(shard, i)), lo, hi);
      var owner, added := if last.Packet? then shard(last.p.key) else n, Added(cfg, steps, signal, Everyone, lo, hi);
      forall i: nat | i < n ensures now(i) == before(i) + if i == owner then added else 0 {
        HistoryStep(cfg, steps, signal, Worker(shard, i), lo, hi);
        AddedByOwner(cfg, steps, signal, shard, i, lo, hi);
      }
      SumWithOneMore(n, before, now, owner, added);
      SweepsAddNothing(cfg, steps, signal, lo, hi);
    }
  }

  lemma SweepsAddNothing(cfg: DetectConfig, steps: seq<Step>, signal: Signal, lo: nat, hi: nat)
    requires steps != []
    ensures steps[|steps| - 1].SweepAt? ==> Added(cfg, steps, signal, Everyone, lo, hi) == 0
  {
  }

  /** Resets need nothing, new flows that no worker's record is split. */
  ghost predicate SignalsKept(cfg: DetectConfig, shard: FlowKey -> nat, n: nat, logs: nat -> seq<Entry>,
                              signal: Signal) {
    signal == Resets || forall i: nat | i < n :: NeverSplits(cfg, shard, i, logs(i))
  }

  /** Every reset of a run is counted by exactly one worker; every new flow, if no record is split. */
  lemma ShardedHistories(cfg: DetectConfig, shard: FlowKey -> nat, n: nat, logs: nat -> seq<Entry>, steps: seq<Step>,
                         signal: Signal, lo: nat, hi: nat)
    requires Covers(shard, n, logs, steps) && SignalsKept(cfg, shard, n, logs, signal)
    ensures SumTo(n, i => Count(History(cfg, PartOf(logs(i)), signal), lo, hi)) ==
            Count(History(cfg, steps, signal), lo, hi)
  {
    hide History, NeverSplits, Deals;
    var parts := i => Count(History(cfg, PartOf(logs(i)), signal), lo, hi);
    var scoped := i => Count(History(cfg, steps, signal, Worker(shard, i)), lo, hi);
    forall i: nat | i < n ensures parts(i) == scoped(i) {
      WorkerHistory(cfg, shard, i, logs(i), signal);
    }
    SumWithOneMore(n, scoped, parts, n, 0);
    HistoriesAdd(cfg, shard, n, steps, signal, lo, hi);
  }

  /** With ordered packets, the window counts of the workers' rings add up to the single ring's. */
  lemma ShardedRates(cfg: DetectConfig, shard: FlowKey -> nat, n: nat, logs: nat -> seq<Entry>, steps: seq<Step>,
                     signal: Signal, now: u64)
    requires Covers(shard, n, logs, steps) && SignalsKept(cfg, shard, n, logs, signal)
    requires OrderedPackets(steps) && NoneAfter(steps, now)
    ensures SumTo(n, i => CountIn(RingOf(1, History(cfg, PartOf(logs(i)), signal)), now)) ==
            CountIn(RingOf(1, History(cfg, steps, signal)), now)
  {
    hide History, NeverSplits, Deals, OrderedPackets, NoneAfter;
    var lo, hi := now / 1_000_000_000, now / 1_000_000_000;
    var rings := i => CountIn(RingOf(1, History(cfg, PartOf(logs(i)), signal)), now);
    var counts := i => Count(History(cfg, PartOf(logs(i)), signal), lo, hi);
    forall i: nat | i < n ensures rings(i) == counts(i) {
      WorkerHistory(cfg, shard, i, logs(i), signal);
      HistoryIsOrdered(cfg, steps, now, signal, Worker(shard, i));
      OrderedTimeIsExact(1, History(cfg, PartOf(logs(i)), signal), now);
    }
    SumWithOneMore(n, counts, rings, n, 0);
    ShardedHistories(cfg, shard, n, logs, steps, signal, lo, hi);
    HistoryIsOrdered(cfg, steps, now, signal, Everyone);
    OrderedTimeIsExact(1, History(cfg, steps, signal), now);
  }
}
