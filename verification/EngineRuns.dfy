/**
 Whole runs of the engine: packets that trigger their own sweeps, and sweeps on a
 timer. What the engine keeps in counters, rings and gates agrees with its history.
 */
module EngineRuns {
  import opened Types
  import opened Flow
  import opened Table
  import opened Runs
  import opened Records
  import opened Detectors

  // ---- The engine's table is a run of the table --------------------------------------

  /** The table steps that engine steps stand for: a due packet brings its own sweep. */
  function Expand(cfg: DetectConfig, steps: seq<Step>): seq<Step> {
    if steps == [] then []
    else
      var init, last := steps[..|steps| - 1], steps[|steps| - 1];
      match last
      case SweepAt(now) => Expand(cfg, init) + [SweepAt(now)]
      case Packet(p) =>
        if SweepDue(RunEngine(cfg, init), p.ts) then Expand(cfg, init) + [Packet(p)] + [SweepAt(p.ts)]
        else Expand(cfg, init) + [Packet(p)]
  }

  /** What one packet does to the table and to the sweep clock. */
  lemma ProcessTable(cfg: DetectConfig, m: EngineModel, p: PacketMeta)
    requires m.Valid()
    ensures
      var m', updated := ProcessModel(cfg, m, p), UpdateTable(m.table, p);
      if SweepDue(m, p.ts) then m'.table == SweepTable(cfg, updated, p.ts) && m'.lastSweep == p.ts
      else m'.table == updated && m'.lastSweep == m.lastSweep
  {
  }

  /** Everything proved of table runs holds of the engine's table. */
  lemma {:induction false} EngineTableIsRun(cfg: DetectConfig, steps: seq<Step>)
    ensures RunEngine(cfg, steps).table == Run(cfg, Expand(cfg, steps))
  {
    if steps != [] {
      hide ProcessModel, UpdateTable, SweepTable;
      var init, last := steps[..|steps| - 1], steps[|steps| - 1];
      EngineTableIsRun(cfg, init);
      var before := Expand(cfg, init);
      match last
      case SweepAt(now) => RunSnoc(cfg, before, SweepAt(now));
      case Packet(p) =>
        ProcessTable(cfg, RunEngine(cfg, init), p);
        RunSnoc(cfg, before, Packet(p));
        RunSnoc(cfg, before + [Packet(p)], SweepAt(p.ts));
    }
  }

  /** The sweeps that packets bring leave the order of the packets alone. */
  lemma {:induction false} ExpandStaysOrdered(cfg: DetectConfig, steps: seq<Step>, now: u64)
    requires OrderedPackets(steps) && NoneAfter(steps, now)
    ensures OrderedPackets(Expand(cfg, steps)) && NoneAfter(Expand(cfg, steps), now)
  {
    if steps != [] {
      hide OrderedPackets, NoneAfter, RunEngine;
      var init, last := steps[..|steps| - 1], steps[|steps| - 1];
      assert steps == init + [last];
      OrderedSnoc(init, last, now);
      ExpandStaysOrdered(cfg, init, Latest(last, now));
      OrderedSnoc(Expand(cfg, init), last, now);
      if last.Packet? {
        OrderedSnoc(Expand(cfg, init) + [last], SweepAt(last.p.ts), now);
      }
    }
  }

  /** In every state the engine reaches, each counter is the recount of its service
      and every record is handshake-consistent. */
  lemma EngineKeepsInvariants(cfg: DetectConfig, steps: seq<Step>)
    ensures CountersExact(RunEngine(cfg, steps).table)
    ensures forall k | k in RunEngine(cfg, steps).table.flows :: HandshakeOk(RunEngine(cfg, steps).table.flows[k])
  {
    EngineTableIsRun(cfg, steps);
    RunKeepsCounters(cfg, Expand(cfg, steps));
    RunKeepsHandshake(cfg, Expand(cfg, steps));
  }

  /** A backlog alert reports the true number of half-open connections of the service. */
  lemma BacklogIsRecount(cfg: DetectConfig, steps: seq<Step>, p: PacketMeta)
    ensures
      var c := ContextOf(cfg, RunEngine(cfg, steps), p);
      var flows := c.m.table.flows;
      OnSynBacklog(c).Some? ==>
        OnSynBacklog(c).value.value == |CountedKeys(flows, flows[p.key].service)| as real &&
        |CountedKeys(flows, flows[p.key].service)| >= cfg.synBacklogThreshold
  {
    EngineKeepsInvariants(cfg, steps);
    UpdateKeepsCounters(RunEngine(cfg, steps).table, p);
  }

  // ---- Bounded memory and alert latency -------------------------------------------------

  ghost predicate SeenAt(steps: seq<Step>, k: FlowKey, t: u64) {
    exists i | 0 <= i < |steps| :: steps[i].Packet? && steps[i].p.key == k && steps[i].p.ts == t
  }

  /** As of its last own sweep at `swept`, the table held nothing idle or unanswered for too long. */
  ghost predicate FreshSince(cfg: DetectConfig, flows: map<FlowKey, FlowState>, swept: u64) {
    forall k | k in flows ::
      SatSub(swept, flows[k].lastSeen) <= cfg.Ttl() && !TimedOut(cfg, flows[k], swept)
  }

  lemma SweepFreshens(cfg: DetectConfig, t: Table, now: u64)
    ensures FreshSince(cfg, SweepTable(cfg, t, now).flows, now)
  {
    forall k | k in SweepTable(cfg, t, now).flows
      ensures var f := SweepTable(cfg, t, now).flows[k]; SatSub(now, f.lastSeen) <= cfg.Ttl() && !TimedOut(cfg, f, now)
    {
      SweepByRecord(cfg, t, now, k);
    }
  }

  lemma SweepStaysFresh(cfg: DetectConfig, t: Table, now: u64, swept: u64)
    requires FreshSince(cfg, t.flows, swept)
    ensures FreshSince(cfg, SweepTable(cfg, t, now).flows, swept)
  {
    forall k | k in SweepTable(cfg, t, now).flows
      ensures
        var f := SweepTable(cfg, t, now).flows[k];
        SatSub(swept, f.lastSeen) <= cfg.Ttl() && !TimedOut(cfg, f, swept)
    {
      SweepByRecord(cfg, t, now, k);
    }
  }

  /** A later packet leaves its record fresh: nothing turns to waiting but by a new SYN. */
  lemma StepStaysFresh(cfg: DetectConfig, f: FlowState, p: PacketMeta, swept: u64)
    requires swept <= p.ts && !TimedOut(cfg, f, swept)
    ensures SatSub(swept, StepFlow(f, p).lastSeen) <= cfg.Ttl() && !TimedOut(cfg, StepFlow(f, p), swept)
  {
    match KindOf(p)
    case Datagram | SynKind | SynAckKind | RstKind =>
    case OrdinaryKind =>
      assert StepFlow(f, p).state == SynSent ==> f.state == SynSent;
  }

  lemma UpdateStaysFresh(cfg: DetectConfig, t: Table, p: PacketMeta, swept: u64)
    requires FreshSince(cfg, t.flows, swept) && swept <= p.ts
    ensures FreshSince(cfg, UpdateTable(t, p).flows, swept)
  {
    var f := RecordBefore(t.flows, p);
    StepStaysFresh(cfg, f, p, swept);
    assert UpdateTable(t, p).flows == t.flows[p.key := StepFlow(f, p)];
  }

  lemma {:induction false} EngineStaysFresh(cfg: DetectConfig, steps: seq<Step>)
    requires OrderedPackets(steps)
    ensures
      var m := RunEngine(cfg, steps);
      FreshSince(cfg, m.table.flows, m.lastSweep) &&
      (m.lastSweep == 0 || exists i | 0 <= i < |steps| :: steps[i].Packet? && steps[i].p.ts == m.lastSweep)
  {
    if steps != [] {
      var n := |steps| - 1;
      var init, last := steps[..n], steps[n];
      EngineStaysFresh(cfg, init);
      var m := RunEngine(cfg, init);
      if m.lastSweep != 0 {
        var i :| 0 <= i < n && init[i].Packet? && init[i].p.ts == m.lastSweep;
        assert steps[i] == init[i];
      }
      hide ProcessModel, UpdateTable, SweepTable, FreshSince;
      match last
      case SweepAt(now) => SweepStaysFresh(cfg, m.table, now, m.lastSweep);
      case Packet(p) =>
        ProcessTable(cfg, m, p);
        assert m.lastSweep <= p.ts;
        UpdateStaysFresh(cfg, m.table, p, m.lastSweep);
        SweepFreshens(cfg, UpdateTable(m.table, p), p.ts);
    }
  }

  lemma SeenSnoc(steps: seq<Step>, step: Step, k: FlowKey, t: u64)
    requires SeenAt(steps, k, t) || (step.Packet? && step.p.key == k && step.p.ts == t)
    ensures SeenAt(steps + [step], k, t)
  {
    var all := steps + [step];
    if SeenAt(steps, k, t) {
      var i :| 0 <= i < |steps| && steps[i].Packet? && steps[i].p.key == k && steps[i].p.ts == t;
      assert all[i] == steps[i];
    } else {
      assert all[|steps|] == step;
    }
  }

  lemma SweptWasHeld(cfg: DetectConfig, t: Table, now: u64, k: FlowKey)
    requires k in SweepTable(cfg, t, now).flows
    ensures k in t.flows && SweepTable(cfg, t, now).flows[k].lastSeen == t.flows[k].lastSeen
  {
    SweepByRecord(cfg, t, now, k);
  }

  /** A record that a step leaves was there before with the same last time, or is the packet's. */
  lemma HeldOrMet(cfg: DetectConfig, m: EngineModel, step: Step, k: FlowKey)
    requires m.Valid() && k in ApplyStep(cfg, m, step).table.flows
    ensures
      var flows, f := m.table.flows, ApplyStep(cfg, m, step).table.flows[k];
      || (k in flows && f.lastSeen == flows[k].lastSeen)
      || (step.Packet? && step.p.key == k && f.lastSeen == step.p.ts)
  {
    hide ProcessModel, SweepTable, StepFlow, NewFlow;
    match step
    case SweepAt(now) => SweptWasHeld(cfg, m.table, now, k);
    case Packet(p) =>
      ProcessTable(cfg, m, p);
      if SweepDue(m, p.ts) {
        SweptWasHeld(cfg, UpdateTable(m.table, p), p.ts, k);
      }
  }

  lemma {:induction false} TrackedWasSeen(cfg: DetectConfig, steps: seq<Step>, k: FlowKey)
    ensures
      var flows := RunEngine(cfg, steps).table.flows;
      k in flows ==> SeenAt(steps, k, flows[k].lastSeen)
  {
    if steps != [] {
      hide ApplyStep, SeenAt;
      var init, last := steps[..|steps| - 1], steps[|steps| - 1];
      assert steps == init + [last];
      TrackedWasSeen(cfg, init, k);
      var m, flows := RunEngine(cfg, init), RunEngine(cfg, steps).table.flows;
      if k in flows {
        HeldOrMet(cfg, m, last, k);
        SeenSnoc(init, last, k, flows[k].lastSeen);
      }
    }
  }

  /** The keys that appeared in the last `ttl` plus one second before `now`. */
  ghost function RecentKeys(cfg: DetectConfig, steps: seq<Step>, now: u64): set<FlowKey> {
    set i | 0 <= i < |steps| && steps[i].Packet? && now - steps[i].p.ts < (cfg.flowTtlSecs + 1) * 1_000_000_000 ::
      steps[i].p.key
  }

  /** Bounded memory and alert latency: right after a packet at time `t`, every tracked
      flow was seen less than the time to live plus one second ago, so there are at most
      as many as keys in that span, and every SYN that has waited the timeout plus one
      second has been flagged. */
  lemma BoundedMemory(cfg: DetectConfig, steps: seq<Step>, p: PacketMeta)
    requires OrderedPackets(steps + [Packet(p)])
    ensures
      var all := steps + [Packet(p)];
      var flows := RunEngine(cfg, all).table.flows;
      && (forall k | k in flows :: p.ts - flows[k].lastSeen < (cfg.flowTtlSecs + 1) * 1_000_000_000)
      && flows.Keys <= RecentKeys(cfg, all, p.ts) && |flows| <= |RecentKeys(cfg, all, p.ts)|
      && (forall k | k in flows && flows[k].state == SynSent && flows[k].synTime.Some? ::
            p.ts - flows[k].synTime.value >= (cfg.handshakeTimeoutSecs + 1) * 1_000_000_000 ==> flows[k].timeoutFlagged)
  {
    var all := steps + [Packet(p)];
    var m := RunEngine(cfg, all);
    var flows := m.table.flows;
    EngineStaysFresh(cfg, all);
    LastSweepIsRecent(cfg, steps, p);
    forall k | k in flows
      ensures p.ts - flows[k].lastSeen < (cfg.flowTtlSecs + 1) * 1_000_000_000 && k in RecentKeys(cfg, all, p.ts)
    {
      TrackedWasSeen(cfg, all, k);
    }
    SubsetSize(flows.Keys, RecentKeys(cfg, all, p.ts));
    assert |flows| == |flows.Keys|;
  }

  /** The memory that is not bounded so: an engine has counters exactly for the services ever
      counted, whether or not any of their flows is left, and no step removes one. */
  lemma CountersStay(cfg: DetectConfig, steps: seq<Step>, step: Step)
    ensures
      var before, after := RunEngine(cfg, steps).table.halfOpen, RunEngine(cfg, steps + [step]).table.halfOpen;
      before.Keys == CountedServices(cfg, Expand(cfg, steps)) && before.Keys <= after.Keys
  {
    hide RunEngine, Run, CountedServices;
    EngineTableIsRun(cfg, steps);
    CountersAreServices(cfg, Expand(cfg, steps));
    EngineKeepsCounters(cfg, steps, step);
  }

  lemma EngineKeepsCounters(cfg: DetectConfig, steps: seq<Step>, step: Step)
    ensures RunEngine(cfg, steps).table.halfOpen.Keys <= RunEngine(cfg, steps + [step]).table.halfOpen.Keys
  {
    hide ProcessModel, UpdateTable, SweepTable;
    var m := RunEngine(cfg, steps);
    assert (steps + [step])[..|steps|] == steps;
    match step
    case SweepAt(now) => SweepKeys(cfg, m.table, now);
    case Packet(p) =>
      ProcessTable(cfg, m, p);
      AdjustKeeps(m.table, p);
      SweepKeys(cfg, UpdateTable(m.table, p), p.ts);
  }

  lemma AdjustKeeps(t: Table, p: PacketMeta)
    ensures t.halfOpen.Keys <= UpdateTable(t, p).halfOpen.Keys
  {
    hide StepFlow, NewFlow;
  }

  lemma LastSweepIsRecent(cfg: DetectConfig, steps: seq<Step>, p: PacketMeta)
    ensures p.ts - RunEngine(cfg, steps + [Packet(p)]).lastSweep < 1_000_000_000
  {
    assert (steps + [Packet(p)])[..|steps|] == steps;
  }
}
