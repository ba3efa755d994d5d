/**
 Sharded engines as written: each worker is an engine of its own that is given the packets of
 its keys, and sweeps on its own packets and on a timer. When that agrees with one engine
 that is given everything.
 */
module Workers {
  import opened Types
  import opened Flow
  import opened Table
  import opened Window
  import opened Runs
  import opened Sharding
  import opened Detectors
  import opened EngineRuns
  import opened Rates

  // ---- Who sweeps when -----------------------------------------------------------------------

  /** The time of the last sweep that the packets themselves triggered. */
  function Clock(steps: seq<Step>): u64 {
    if steps == [] then 0
    else
      var clock, last := Clock(steps[..|steps| - 1]), steps[|steps| - 1];
      if last.Packet? && SatSub(last.p.ts, clock) >= 1_000_000_000 then last.p.ts else clock
  }

  /** A packet at this time brings a sweep. */
  predicate Sweeps(steps: seq<Step>, now: u64) {
    SatSub(now, Clock(steps)) >= 1_000_000_000
  }

  /** When an engine sweeps depends on its packets' times alone. */
  lemma {:induction false} ClockIsLastSweep(cfg: DetectConfig, steps: seq<Step>)
    ensures RunEngine(cfg, steps).lastSweep == Clock(steps)
    ensures forall now: u64 :: SweepDue(RunEngine(cfg, steps), now) == Sweeps(steps, now)
  {
    if steps != [] {
      hide ProcessModel, SweepTable;
      var init, last := steps[..|steps| - 1], steps[|steps| - 1];
      ClockIsLastSweep(cfg, init);
      if last.Packet? {
        ProcessTable(cfg, RunEngine(cfg, init), last.p);
      }
    }
  }

  /** The sweeps that this packet brings, to the single engine and to the worker. */
  function OwnSweeps(deal: seq<Entry>, e: Entry): seq<Entry> {
    if e.step.SweepAt? then []
    else
      var ts := e.step.p.ts;
      [Entry(SweepAt(ts), e.whole && Sweeps(WholeOf(deal), ts), e.part && Sweeps(PartOf(deal), ts))]
  }

  /** Of what the two engines are given, everything their tables go through. */
  function LogOf(deal: seq<Entry>): seq<Entry> {
    if deal == [] then []
    else
      var init, e := deal[..|deal| - 1], deal[|deal| - 1];
      LogOf(init) + [e] + OwnSweeps(init, e)
  }

  lemma LogOfSnoc(deal: seq<Entry>, e: Entry)
    ensures LogOf(deal + [e]) == LogOf(deal) + [e] + OwnSweeps(deal, e)
  {
    assert (deal + [e])[..|deal|] == deal;
  }

  lemma ExpandGiven(cfg: DetectConfig, steps: seq<Step>, step: Step, given: bool)
    ensures Expand(cfg, steps + Given(step, given)) ==
            Expand(cfg, steps) + Given(step, given) +
            if step.Packet? then Given(SweepAt(step.p.ts), given && Sweeps(steps, step.p.ts)) else []
  {
    hide RunEngine, SweepDue;
    ClockIsLastSweep(cfg, steps);
    if given {
      assert (steps + [step])[..|steps|] == steps;
    } else {
      assert steps + [] == steps;
    }
  }

  /** What a packet and the sweeps it brings add to either side of a log. */
  lemma LogPlus(log: seq<Entry>, deal: seq<Entry>, e: Entry)
    ensures WholeOf(log + [e] + OwnSweeps(deal, e)) ==
            WholeOf(log) + Given(e.step, e.whole) +
            if e.step.Packet? then Given(SweepAt(e.step.p.ts), e.whole && Sweeps(WholeOf(deal), e.step.p.ts)) else []
    ensures PartOf(log + [e] + OwnSweeps(deal, e)) ==
            PartOf(log) + Given(e.step, e.part) +
            if e.step.Packet? then Given(SweepAt(e.step.p.ts), e.part && Sweeps(PartOf(deal), e.step.p.ts)) else []
  {
    hide WholeOf, PartOf, Sweeps, Given;
    LogSnoc(log, e);
    if e.step.Packet? {
      var ts := e.step.p.ts;
      var own := Entry(SweepAt(ts), e.whole && Sweeps(WholeOf(deal), ts), e.part && Sweeps(PartOf(deal), ts));
      assert OwnSweeps(deal, e) == [own];
      LogSnoc(log + [e], own);
    } else {
      assert log + [e] + [] == log + [e];
    }
  }

  lemma {:induction false} LogIsExpand(cfg: DetectConfig, deal: seq<Entry>)
    ensures WholeOf(LogOf(deal)) == Expand(cfg, WholeOf(deal)) && PartOf(LogOf(deal)) == Expand(cfg, PartOf(deal))
  {
    if deal != [] {
      hide Expand, Sweeps, Given, OwnSweeps;
      var init, e := deal[..|deal| - 1], deal[|deal| - 1];
      LogIsExpand(cfg, init);
      ExpandGiven(cfg, WholeOf(init), e.step, e.whole);
      ExpandGiven(cfg, PartOf(init), e.step, e.part);
      LogPlus(LogOf(init), init, e);
    }
  }

  lemma {:induction false} LogIsDealt(shard: FlowKey -> nat, i: nat, deal: seq<Entry>)
    requires Deals(shard, i, deal)
    ensures Deals(shard, i, LogOf(deal))
  {
    if deal != [] {
      hide Deals;
      var init, e := deal[..|deal| - 1], deal[|deal| - 1];
      assert deal == init + [e];
      DealsSnoc(shard, i, init, e);
      LogIsDealt(shard, i, init);
      DealsSnoc(shard, i, LogOf(init), e);
      if e.step.Packet? {
        DealsSnoc(shard, i, LogOf(init) + [e], OwnSweeps(init, e)[0]);
        assert OwnSweeps(init, e) == [OwnSweeps(init, e)[0]];
      } else {
        assert LogOf(deal) == LogOf(init) + [e];
      }
    }
  }

  // ---- Records ---------------------------------------------------------------------------------

  /** The engine's record of `k`. */
  function Held(cfg: DetectConfig, steps: seq<Step>, k: FlowKey): Option<FlowState> {
    Lookup(RunEngine(cfg, steps).table.flows, k)
  }

  lemma HeldByLog(cfg: DetectConfig, deal: seq<Entry>, k: FlowKey)
    ensures Held(cfg, WholeOf(deal), k) == RecordOf(cfg, k, WholeOf(LogOf(deal)))
    ensures Held(cfg, PartOf(deal), k) == RecordOf(cfg, k, PartOf(LogOf(deal)))
  {
    hide RunEngine, Run, RecordOf;
    LogIsExpand(cfg, deal);
    EngineTableIsRun(cfg, WholeOf(deal));
    EngineTableIsRun(cfg, PartOf(deal));
    TableIsProduct(cfg, k, WholeOf(LogOf(deal)));
    TableIsProduct(cfg, k, PartOf(LogOf(deal)));
  }

  ghost predicate EnginesAgree(cfg: DetectConfig, k: FlowKey, deal: seq<Entry>) {
    Held(cfg, PartOf(deal), k) == Held(cfg, WholeOf(deal), k)
  }

  /** A step given to the two engines makes one of them sweep alone while a sweep is due. */
  ghost predicate EnginesSplit(cfg: DetectConfig, k: FlowKey, deal: seq<Entry>, e: Entry) {
    Splits(cfg, k, LogOf(deal), e) ||
    (e.step.Packet? && Splits(cfg, k, LogOf(deal) + [e], OwnSweeps(deal, e)[0]))
  }

  lemma EnginesAgreeStep(cfg: DetectConfig, shard: FlowKey -> nat, k: FlowKey, deal: seq<Entry>, e: Entry)
    requires EnginesAgree(cfg, k, deal) && IsDealt(shard, shard(k), e)
    ensures EnginesAgree(cfg, k, deal + [e]) <==> !EnginesSplit(cfg, k, deal, e)
  {
    hide Held, RecordOf, Splits, Sweeps, LogOf;
    HeldByLog(cfg, deal, k);
    HeldByLog(cfg, deal + [e], k);
    LogOfSnoc(deal, e);
    AgreeStep(cfg, shard, k, LogOf(deal), e);
    if e.step.Packet? {
      PacketsDoNotSplit(cfg, k, LogOf(deal), e);
      AgreeStep(cfg, shard, k, LogOf(deal) + [e], OwnSweeps(deal, e)[0]);
      assert OwnSweeps(deal, e) == [OwnSweeps(deal, e)[0]];
    } else {
      assert LogOf(deal) + [e] + [] == LogOf(deal) + [e];
    }
  }

  lemma PacketsDoNotSplit(cfg: DetectConfig, k: FlowKey, log: seq<Entry>, e: Entry)
    ensures e.step.Packet? ==> !Splits(cfg, k, log, e)
  {
  }

  lemma UnsplitLogSnoc(cfg: DetectConfig, k: FlowKey, deal: seq<Entry>, e: Entry)
    ensures Unsplit(cfg, k, LogOf(deal + [e])) <==> Unsplit(cfg, k, LogOf(deal)) && !EnginesSplit(cfg, k, deal, e)
  {
    hide Splits, Sweeps, Unsplit, LogOf;
    LogOfSnoc(deal, e);
    UnsplitSnoc(cfg, k, LogOf(deal), e);
    PacketsDoNotSplit(cfg, k, LogOf(deal), e);
    if e.step.Packet? {
      UnsplitSnoc(cfg, k, LogOf(deal) + [e], OwnSweeps(deal, e)[0]);
      assert OwnSweeps(deal, e) == [OwnSweeps(deal, e)[0]];
    } else {
      assert LogOf(deal) + [e] + [] == LogOf(deal) + [e];
    }
  }

  lemma {:induction false} UnsplitLog(cfg: DetectConfig, k: FlowKey, deal: seq<Entry>, n: nat)
    requires n <= |deal|
    ensures Unsplit(cfg, k, LogOf(deal[..n])) <==> forall j | 0 <= j < n :: !EnginesSplit(cfg, k, deal[..j], deal[j])
  {
    hide EnginesSplit, Splits;
    if n == 0 {
      assert LogOf(deal[..0]) == [];
    } else {
      hide Unsplit, LogOf;
      assert deal[..n] == deal[..n - 1] + [deal[n - 1]];
      UnsplitLog(cfg, k, deal, n - 1);
      UnsplitLogSnoc(cfg, k, deal[..n - 1], deal[n - 1]);
    }
  }

  /** Throughout a run the worker of a key and the single engine hold the same record of it, if and
      only if no sweep that just one of them performs, by its own clock or on a timer, is due by
      the trace of the key. */
  lemma OwnSweepsExactly(cfg: DetectConfig, shard: FlowKey -> nat, k: FlowKey, deal: seq<Entry>)
    requires Deals(shard, shard(k), deal)
    ensures (forall n | 0 <= n <= |deal| :: EnginesAgree(cfg, k, deal[..n])) <==> Unsplit(cfg, k, LogOf(deal))
  {
    hide EnginesAgree, EnginesSplit, Unsplit, LogOf;
    assert EnginesAgree(cfg, k, []) by { EnginesAgreeAtFirst(cfg, k); }
    forall j | 0 <= j < |deal| && EnginesAgree(cfg, k, deal[..j])
      ensures EnginesAgree(cfg, k, deal[..j + 1]) <==> !EnginesSplit(cfg, k, deal[..j], deal[j])
    {
      assert deal[..j + 1] == deal[..j] + [deal[j]];
      EnginesAgreeStep(cfg, shard, k, deal[..j], deal[j]);
    }
    KeptExactly(d => EnginesAgree(cfg, k, d), (d, e) => EnginesSplit(cfg, k, d, e), deal, |deal|);
    UnsplitLog(cfg, k, deal, |deal|);
    assert deal[..|deal|] == deal;
  }

  lemma EnginesAgreeAtFirst(cfg: DetectConfig, k: FlowKey)
    ensures EnginesAgree(cfg, k, [])
  {
  }

  /** A condition on times alone: of a conversation that is lively whenever either engine sweeps,
      both engines hold the record that its packets compute, however their sweeps differ. */
  lemma LivelyFlowsAgree(cfg: DetectConfig, shard: FlowKey -> nat, k: FlowKey, deal: seq<Entry>)
    requires Deals(shard, shard(k), deal) && StaysLively(cfg, k, LogOf(deal))
    ensures Held(cfg, PartOf(deal), k) == Held(cfg, WholeOf(deal), k) == Unswept(cfg, k, WholeOf(deal))
  {
    hide Deals, StaysLively, Held, Unswept, LogOf;
    var log := LogOf(deal);
    LogIsDealt(shard, shard(k), deal);
    LivelyExactly(cfg, shard, k, log);
    assert log[..|log|] == log;
    assert BothUnswept(cfg, k, log[..|log|]);
    HeldByLog(cfg, deal, k);
    LogIsExpand(cfg, deal);
    UnsweptExpand(cfg, k, WholeOf(deal));
  }

  lemma {:induction false} UnsweptExpand(cfg: DetectConfig, k: FlowKey, steps: seq<Step>)
    ensures PacketsOf(k, Expand(cfg, steps)) == PacketsOf(k, steps)
    ensures Unswept(cfg, k, Expand(cfg, steps)) == Unswept(cfg, k, steps)
  {
    if steps != [] {
      hide RunEngine, SweepDue;
      var init, last := steps[..|steps| - 1], steps[|steps| - 1];
      var run := Expand(cfg, init);
      UnsweptExpand(cfg, k, init);
      PacketsSnoc(k, run, last);
      if last.Packet? {
        PacketsSnoc(k, run + [last], SweepAt(last.p.ts));
      }
    }
  }

  // ---- The simplest deal, and how it fails --------------------------------------------------------

  /** Everything to the single engine; to worker `i` the packets of its keys, and every timer sweep. */
  function DealOf(shard: FlowKey -> nat, i: nat, steps: seq<Step>): seq<Entry> {
    seq(|steps|, n requires 0 <= n < |steps| =>
      Entry(steps[n], true, steps[n].Packet? ==> shard(steps[n].p.key) == i))
  }

  /** A worker that sees only its own packets also sweeps only on them: a flow whose last packet
      is older than the time to live is gone from the single engine as soon as another flow's
      packet comes, but stays with a worker that never sees that packet. */
  lemma WorkersSweepAlone(cfg: DetectConfig, shard: FlowKey -> nat, mine: PacketMeta, other: PacketMeta)
    requires shard(mine.key) != shard(other.key)
    requires other.ts - mine.ts > cfg.flowTtlSecs * 1_000_000_000 && other.ts - mine.ts >= 1_000_000_000
    ensures
      var deal := DealOf(shard, shard(mine.key), [Packet(mine), Packet(other)]);
      && Deals(shard, shard(mine.key), deal) && !EnginesAgree(cfg, mine.key, deal)
      && Held(cfg, PartOf(deal), mine.key).Some? && Held(cfg, WholeOf(deal), mine.key).None?
  {
    hide RunEngine;
    var deal := DealOf(shard, shard(mine.key), [Packet(mine), Packet(other)]);
    var a, b := Entry(Packet(mine), true, true), Entry(Packet(other), true, false);
    assert deal == [a, b] && [a, b] == [a] + [b] && [a] == [] + [a];
    LogSnoc([], a);
    LogSnoc([a], b);
    assert WholeOf(deal) == [Packet(mine), Packet(other)] && PartOf(deal) == [Packet(mine)];
    IdleFlowGoes(cfg, mine, other);
  }

  lemma IdleFlowGoes(cfg: DetectConfig, mine: PacketMeta, other: PacketMeta)
    requires mine.key != other.key
    requires other.ts - mine.ts > cfg.flowTtlSecs * 1_000_000_000 && other.ts - mine.ts >= 1_000_000_000
    ensures mine.key in RunEngine(cfg, [Packet(mine)]).table.flows
    ensures mine.key !in RunEngine(cfg, [Packet(mine), Packet(other)]).table.flows
  {
    hide ProcessModel, SweepTable;
    var start, once := RunEngine(cfg, []), RunEngine(cfg, [Packet(mine)]);
    assert [Packet(mine)][..0] == [] && [Packet(mine), Packet(other)][..1] == [Packet(mine)];
    ProcessTable(cfg, start, mine);
    SweepByRecord(cfg, UpdateTable(start.table, mine), mine.ts, mine.key);
    ProcessTable(cfg, once, other);
    SweepByRecord(cfg, UpdateTable(once.table, other), other.ts, mine.key);
  }

  // ---- All workers together -------------------------------------------------------------------------


  /** With no record split, each worker's table is the single engine's restricted to its keys. */
  lemma WorkerTables(cfg: DetectConfig, shard: FlowKey -> nat, i: nat, deal: seq<Entry>)
    requires Deals(shard, i, deal) && NeverSplits(cfg, shard, i, LogOf(deal))
    ensures
      var whole := RunEngine(cfg, WholeOf(deal)).table.flows;
      RunEngine(cfg, PartOf(deal)).table.flows == map k | k in whole && shard(k) == i :: whole[k]
  {
    hide Deals, NeverSplits, RunEngine, Run, LogOf;
    LogIsDealt(shard, i, deal);
    LogIsExpand(cfg, deal);
    EngineTableIsRun(cfg, WholeOf(deal));
    EngineTableIsRun(cfg, PartOf(deal));
    ShardedTables(cfg, shard, i, LogOf(deal));
  }

  function Logs(deals: nat -> seq<Entry>): nat -> seq<Entry> {
    (i: nat) => LogOf(deals(i))
  }

  /** What the workers' tables go through covers what the single engine's table goes through. */
  lemma LogsCover(cfg: DetectConfig, shard: FlowKey -> nat, n: nat, deals: nat -> seq<Entry>, steps: seq<Step>)
    requires Covers(shard, n, deals, steps)
    ensures Covers(shard, n, Logs(deals), Expand(cfg, steps))
  {
    hide Deals, LogOf;
    forall i: nat | i < n ensures Deals(shard, i, LogOf(deals(i))) && WholeOf(LogOf(deals(i))) == Expand(cfg, steps) {
      LogIsDealt(shard, i, deals(i));
      LogIsExpand(cfg, deals(i));
    }
  }

  /** With no record split, the workers' half-open counters add up to the single engine's. */
  lemma WorkerCounters(cfg: DetectConfig, shard: FlowKey -> nat, n: nat, deals: nat -> seq<Entry>, steps: seq<Step>,
                       s: Endpoint)
    requires Covers(shard, n, deals, steps) && forall i: nat | i < n :: NeverSplits(cfg, shard, i, LogOf(deals(i)))
    ensures SumTo(n, i => HalfOpenFor(RunEngine(cfg, PartOf(deals(i))).table.halfOpen, s)) ==
            HalfOpenFor(RunEngine(cfg, steps).table.halfOpen, s)
  {
    hide Covers, NeverSplits, RunEngine, Run, LogOf;
    var logs := Logs(deals);
    var engines := i => HalfOpenFor(RunEngine(cfg, PartOf(deals(i))).table.halfOpen, s);
    var tables := i => HalfOpenFor(Run(cfg, PartOf(logs(i))).halfOpen, s);
    forall i: nat | i < n ensures engines(i) == tables(i) {
      LogIsExpand(cfg, deals(i));
      EngineTableIsRun(cfg, PartOf(deals(i)));
    }
    SumWithOneMore(n, tables, engines, n, 0);
    LogsCover(cfg, shard, n, deals, steps);
    ShardedCounters(cfg, shard, n, logs, Expand(cfg, steps), s);
    EngineTableIsRun(cfg, steps);
  }

  /** Every reset is raised by exactly one worker, in any run; every new flow, if no record is split. */
  lemma WorkerHistories(cfg: DetectConfig, shard: FlowKey -> nat, n: nat, deals: nat -> seq<Entry>, steps: seq<Step>,
                        signal: Signal, lo: nat, hi: nat)
    requires Covers(shard, n, deals, steps) && SignalsKept(cfg, shard, n, Logs(deals), signal)
    ensures SumTo(n, i => Count(History(cfg, Expand(cfg, PartOf(deals(i))), signal), lo, hi)) ==
            Count(History(cfg, Expand(cfg, steps), signal), lo, hi)
  {
    hide Covers, SignalsKept, LogOf, History;
    var logs := Logs(deals);
    var engines := i => Count(History(cfg, Expand(cfg, PartOf(deals(i))), signal), lo, hi);
    var tables := i => Count(History(cfg, PartOf(logs(i)), signal), lo, hi);
    forall i: nat | i < n ensures engines(i) == tables(i) {
      LogIsExpand(cfg, deals(i));
    }
    SumWithOneMore(n, tables, engines, n, 0);
    LogsCover(cfg, shard, n, deals, steps);
    ShardedHistories(cfg, shard, n, logs, Expand(cfg, steps), signal, lo, hi);
  }

  /** The window count that an engine's ring reports. */
  function RingCount(cfg: DetectConfig, steps: seq<Step>, signal: Signal, now: u64): nat {
    CountIn(RingFor(RunEngine(cfg, steps), signal), now)
  }

  /** With ordered packets the window counts of the workers' rings add up to the single engine's:
      resets always, new flows if no record is split. */
  lemma WorkerRates(cfg: DetectConfig, shard: FlowKey -> nat, n: nat, deals: nat -> seq<Entry>, steps: seq<Step>,
                    signal: Signal, now: u64)
    requires Covers(shard, n, deals, steps) && SignalsKept(cfg, shard, n, Logs(deals), signal)
    requires OrderedPackets(steps) && NoneAfter(steps, now)
    ensures SumTo(n, i => RingCount(cfg, PartOf(deals(i)), signal, now)) == RingCount(cfg, steps, signal, now)
  {
    hide Covers, SignalsKept, RunEngine, LogOf, History, OrderedPackets, NoneAfter, RingFor;
    var logs := Logs(deals);
    var engines := i => RingCount(cfg, PartOf(deals(i)), signal, now);
    var tables := i => CountIn(RingOf(1, History(cfg, PartOf(logs(i)), signal)), now);
    forall i: nat | i < n ensures engines(i) == tables(i) {
      LogIsExpand(cfg, deals(i));
      RingsHoldHistory(cfg, PartOf(deals(i)), signal);
    }
    SumWithOneMore(n, tables, engines, n, 0);
    LogsCover(cfg, shard, n, deals, steps);
    ExpandStaysOrdered(cfg, steps, now);
    ShardedRates(cfg, shard, n, logs, Expand(cfg, steps), signal, now);
    RingsHoldHistory(cfg, steps, signal);
  }
}
