/**
 Splitting the flow table over workers. A log says of every packet and sweep who is given
 it, the single table or a worker's; when a worker's records are the single table's follows
 from the log.
 */
module Sharding {
  import opened Types
  import opened Flow
  import opened Table
  import opened Runs
  import opened Traces
  import opened Records

  /** A step, and whether the whole table and whether one worker's part is given it. */
  datatype Entry = Entry(step: Step, whole: bool, part: bool)

  function Given(step: Step, given: bool): seq<Step> {
    if given then [step] else []
  }

  function WholeOf(log: seq<Entry>): seq<Step> {
    if log == [] then [] else WholeOf(log[..|log| - 1]) + Given(log[|log| - 1].step, log[|log| - 1].whole)
  }

  function PartOf(log: seq<Entry>): seq<Step> {
    if log == [] then [] else PartOf(log[..|log| - 1]) + Given(log[|log| - 1].step, log[|log| - 1].part)
  }

  lemma LogSnoc(log: seq<Entry>, e: Entry)
    ensures WholeOf(log + [e]) == WholeOf(log) + Given(e.step, e.whole)
    ensures PartOf(log + [e]) == PartOf(log) + Given(e.step, e.part)
  {
    assert (log + [e])[..|log|] == log;
  }

  /** Every packet goes to the whole table and to the worker of its key; sweeps go anywhere. */
  predicate IsDealt(shard: FlowKey -> nat, i: nat, e: Entry) {
    e.step.Packet? ==> e.whole && (e.part <==> shard(e.step.p.key) == i)
  }

  ghost predicate Deals(shard: FlowKey -> nat, i: nat, log: seq<Entry>) {
    forall n | 0 <= n < |log| :: IsDealt(shard, i, log[n])
  }

  lemma DealsSnoc(shard: FlowKey -> nat, i: nat, log: seq<Entry>, e: Entry)
    ensures Deals(shard, i, log + [e]) <==> Deals(shard, i, log) && IsDealt(shard, i, e)
  {
    var all := log + [e];
    assert all[|log|] == e;
    assert forall n | 0 <= n < |log| :: all[n] == log[n];
  }

  // ---- When a worker's record is the single table's ------------------------------------------

  ghost predicate Agree(cfg: DetectConfig, k: FlowKey, log: seq<Entry>) {
    RecordOf(cfg, k, PartOf(log)) == RecordOf(cfg, k, WholeOf(log))
  }

  ghost predicate AgreesThroughout(cfg: DetectConfig, k: FlowKey, log: seq<Entry>) {
    forall n | 0 <= n <= |log| :: Agree(cfg, k, log[..n])
  }

  /** After this log comes a sweep that only one of the two is given, and the trace of `k` says
      that a sweep is due. */
  ghost predicate Splits(cfg: DetectConfig, k: FlowKey, log: seq<Entry>, e: Entry) {
    e.step.SweepAt? && e.whole != e.part && IsDue(cfg, Life(cfg, k, WholeOf(log)), e.step.now)
  }

  ghost predicate Unsplit(cfg: DetectConfig, k: FlowKey, log: seq<Entry>) {
    forall n | 0 <= n < |log| :: !Splits(cfg, k, log[..n], log[n])
  }

  lemma GivenRecord(cfg: DetectConfig, k: FlowKey, steps: seq<Step>, step: Step, given: bool)
    ensures RecordOf(cfg, k, steps + Given(step, given)) ==
            if given then RecordStep(cfg, k, RecordOf(cfg, k, steps), step) else RecordOf(cfg, k, steps)
  {
    if given {
      RecordOfSnoc(cfg, k, steps, step);
    } else {
      assert steps + [] == steps;
    }
  }

  /** Records that agree go on to agree exactly if the entry does not split. */
  lemma AgreeStep(cfg: DetectConfig, shard: FlowKey -> nat, k: FlowKey, log: seq<Entry>, e: Entry)
    requires Agree(cfg, k, log) && IsDealt(shard, shard(k), e)
    ensures Agree(cfg, k, log + [e]) <==> !Splits(cfg, k, log, e)
  {
    hide RecordOf, RecordStep, Life, IsDue, WholeOf, PartOf, Given, IsLife;
    var r := RecordOf(cfg, k, WholeOf(log));
    LogSnoc(log, e);
    GivenRecord(cfg, k, WholeOf(log), e.step, e.whole);
    GivenRecord(cfg, k, PartOf(log), e.step, e.part);
    match e.step
    case Packet(p) =>
      if p.key != k {
        OthersLeaveRecord(cfg, k, r, p);
      }
    case SweepAt(now) =>
      RecordIsItsLife(cfg, k, WholeOf(log));
      DueExactly(cfg, k, r, Life(cfg, k, WholeOf(log)), now);
  }

  lemma UnsplitSnoc(cfg: DetectConfig, k: FlowKey, log: seq<Entry>, e: Entry)
    ensures Unsplit(cfg, k, log + [e]) <==> Unsplit(cfg, k, log) && !Splits(cfg, k, log, e)
  {
    hide Splits;
    var all := log + [e];
    assert all[..|log|] == log && all[|log|] == e;
    forall n | 0 <= n < |log| ensures Splits(cfg, k, all[..n], all[n]) == Splits(cfg, k, log[..n], log[n]) {
      assert all[..n] == log[..n];
    }
    if Unsplit(cfg, k, all) {
      assert !Splits(cfg, k, all[..|log|], all[|log|]);
    }
  }

  /** What holds at first, and is kept by exactly the entries that do not break it, holds
      throughout a log just if none of its entries breaks it. */
  lemma {:induction false} KeptExactly(holds: seq<Entry> -> bool, breaks: (seq<Entry>, Entry) -> bool, log: seq<Entry>,
                                       n: nat)
    requires n <= |log| && holds([])
    requires forall j | 0 <= j < |log| && holds(log[..j]) :: holds(log[..j + 1]) <==> !breaks(log[..j], log[j])
    ensures (forall j | 0 <= j <= n :: holds(log[..j])) <==> (forall j | 0 <= j < n :: !breaks(log[..j], log[j]))
  {
    if n == 0 {
      assert log[..0] == [];
    } else {
      KeptExactly(holds, breaks, log, n - 1);
      assert holds(log[..n - 1]) ==> (holds(log[..n]) <==> !breaks(log[..n - 1], log[n - 1]));
    }
  }

  /** Whoever is given which sweeps: the worker of a key and the single table hold the same record
      of it throughout, if and only if no sweep given to just one of them is due. */
  lemma AgreesExactly(cfg: DetectConfig, shard: FlowKey -> nat, k: FlowKey, log: seq<Entry>)
    requires Deals(shard, shard(k), log)
    ensures AgreesThroughout(cfg, k, log) <==> Unsplit(cfg, k, log)
  {
    hide Agree, Splits;
    assert Agree(cfg, k, []) by { AgreesAtFirst(cfg, k); }
    forall j | 0 <= j < |log| && Agree(cfg, k, log[..j])
      ensures Agree(cfg, k, log[..j + 1]) <==> !Splits(cfg, k, log[..j], log[j])
    {
      assert log[..j + 1] == log[..j] + [log[j]];
      AgreeStep(cfg, shard, k, log[..j], log[j]);
    }
    KeptExactly(l => Agree(cfg, k, l), (l, e) => Splits(cfg, k, l, e), log, |log|);
  }

  lemma AgreesAtFirst(cfg: DetectConfig, k: FlowKey)
    ensures Agree(cfg, k, [])
  {
  }

  lemma UnsplitAgrees(cfg: DetectConfig, shard: FlowKey -> nat, k: FlowKey, log: seq<Entry>)
    requires Deals(shard, shard(k), log) && Unsplit(cfg, k, log)
    ensures Agree(cfg, k, log)
  {
    hide Agree, Splits, Deals;
    AgreesExactly(cfg, shard, k, log);
    assert log[..|log|] == log;
  }

  // ---- Conversations that no sweep is due on ----------------------------------------------------

  /** The packets of `k`. */
  function PacketsOf(k: FlowKey, steps: seq<Step>): (ops: seq<Op>)
    ensures ops != [] ==> ops[0].Pkt?
  {
    if steps == [] then []
    else
      var init, last := PacketsOf(k, steps[..|steps| - 1]), steps[|steps| - 1];
      if last.Packet? && last.p.key == k then init + [Pkt(last.p)] else init
  }

  lemma PacketsSnoc(k: FlowKey, steps: seq<Step>, step: Step)
    ensures PacketsOf(k, steps + [step]) ==
            PacketsOf(k, steps) + if step.Packet? && step.p.key == k then [Pkt(step.p)] else []
  {
    assert (steps + [step])[..|steps|] == steps;
  }

  /** The record that the packets of `k` compute if nothing is ever swept. */
  function Unswept(cfg: DetectConfig, k: FlowKey, steps: seq<Step>): Option<FlowState> {
    var ops := PacketsOf(k, steps);
    if ops == [] then None else Some(RunOps(cfg, NewFlow(ops[0].p), ops))
  }

  /** At every sweep of either side, the last packet of `k` is within the time to live and its
      first SYN answered or within the timeout. */
  ghost predicate StaysLively(cfg: DetectConfig, k: FlowKey, log: seq<Entry>) {
    forall n | 0 <= n < |log| :: !Lapses(cfg, k, log[..n], log[n])
  }

  ghost predicate Lapses(cfg: DetectConfig, k: FlowKey, log: seq<Entry>, e: Entry) {
    e.step.SweepAt? && (e.whole || e.part) && IsDue(cfg, PacketsOf(k, WholeOf(log)), e.step.now)
  }

  ghost predicate BothUnswept(cfg: DetectConfig, k: FlowKey, log: seq<Entry>) {
    RecordOf(cfg, k, PartOf(log)) == RecordOf(cfg, k, WholeOf(log)) == Unswept(cfg, k, WholeOf(log))
  }

  lemma UnsweptStep(cfg: DetectConfig, k: FlowKey, steps: seq<Step>, step: Step, given: bool)
    requires step.Packet? ==> given
    ensures Unswept(cfg, k, steps + Given(step, given)) ==
            if step.Packet? then RecordStep(cfg, k, Unswept(cfg, k, steps), step) else Unswept(cfg, k, steps)
    ensures PacketsOf(k, steps + Given(step, given)) ==
            PacketsOf(k, steps) + if step.Packet? && step.p.key == k then [Pkt(step.p)] else []
  {
    hide StepFlow, NewFlow, PacketsOf, RunOps, IsLife;
    var ops := PacketsOf(k, steps);
    PacketsSnoc(k, steps, step);
    assert steps + [] == steps && ops + [] == ops;
    if step.Packet? && step.p.key == k {
      if ops == [] {
        RunOpsSnoc(cfg, NewFlow(step.p), [], Pkt(step.p));
        assert [] + [Pkt(step.p)] == [Pkt(step.p)];
      } else {
        RunOpsSnoc(cfg, NewFlow(ops[0].p), ops, Pkt(step.p));
      }
    }
  }

  lemma {:induction false} PacketsAreTheirs(k: FlowKey, steps: seq<Step>)
    ensures PacketsOf(k, steps) != [] ==> PacketsOf(k, steps)[0].p.key == k
  {
    if steps != [] {
      PacketsAreTheirs(k, steps[..|steps| - 1]);
    }
  }

  lemma UnsweptIsLife(cfg: DetectConfig, k: FlowKey, steps: seq<Step>)
    ensures IsLife(cfg, k, Unswept(cfg, k, steps), PacketsOf(k, steps))
  {
    hide RunOps, NewFlow, PacketsOf;
    PacketsAreTheirs(k, steps);
  }

  lemma LivelyStep(cfg: DetectConfig, shard: FlowKey -> nat, k: FlowKey, log: seq<Entry>, e: Entry)
    requires BothUnswept(cfg, k, log) && IsDealt(shard, shard(k), e)
    ensures BothUnswept(cfg, k, log + [e]) <==> !Lapses(cfg, k, log, e)
  {
    hide RecordOf, RecordStep, Unswept, PacketsOf, IsDue, WholeOf, PartOf, Given, IsLife;
    var r := Unswept(cfg, k, WholeOf(log));
    LogSnoc(log, e);
    GivenRecord(cfg, k, WholeOf(log), e.step, e.whole);
    GivenRecord(cfg, k, PartOf(log), e.step, e.part);
    UnsweptStep(cfg, k, WholeOf(log), e.step, e.whole);
    match e.step
    case Packet(p) =>
      if p.key != k {
        OthersLeaveRecord(cfg, k, r, p);
      }
    case SweepAt(now) =>
      UnsweptIsLife(cfg, k, WholeOf(log));
      DueExactly(cfg, k, r, PacketsOf(k, WholeOf(log)), now);
  }

  lemma UnsweptAtFirst(cfg: DetectConfig, k: FlowKey)
    ensures BothUnswept(cfg, k, [])
  {
  }

  /** The single table and the worker both hold throughout the record that the packets of `k` alone
      compute, if and only if the conversation stays lively: a condition on packet and sweep
      times. */
  lemma LivelyExactly(cfg: DetectConfig, shard: FlowKey -> nat, k: FlowKey, log: seq<Entry>)
    requires Deals(shard, shard(k), log)
    ensures (forall n | 0 <= n <= |log| :: BothUnswept(cfg, k, log[..n])) <==> StaysLively(cfg, k, log)
  {
    hide BothUnswept, Lapses;
    assert BothUnswept(cfg, k, []) by { UnsweptAtFirst(cfg, k); }
    forall j | 0 <= j < |log| && BothUnswept(cfg, k, log[..j])
      ensures BothUnswept(cfg, k, log[..j + 1]) <==> !Lapses(cfg, k, log[..j], log[j])
    {
      assert log[..j + 1] == log[..j] + [log[j]];
      LivelyStep(cfg, shard, k, log[..j], log[j]);
    }
    KeptExactly(l => BothUnswept(cfg, k, l), (l, e) => Lapses(cfg, k, l, e), log, |log|);
  }

  /** A lively conversation is never split. */
  lemma LivelyIsUnsplit(cfg: DetectConfig, shard: FlowKey -> nat, k: FlowKey, log: seq<Entry>)
    requires Deals(shard, shard(k), log) && StaysLively(cfg, k, log)
    ensures Unsplit(cfg, k, log)
  {
    hide StaysLively, Unsplit, RecordOf, Unswept;
    LivelyExactly(cfg, shard, k, log);
    forall n | 0 <= n <= |log| ensures Agree(cfg, k, log[..n]) {
      assert BothUnswept(cfg, k, log[..n]);
    }
    AgreesExactly(cfg, shard, k, log);
  }

  // ---- Tables -----------------------------------------------------------------------------------

  /** No key of worker `i` is ever split. */
  ghost predicate NeverSplits(cfg: DetectConfig, shard: FlowKey -> nat, i: nat, log: seq<Entry>) {
    forall k | shard(k) == i :: Unsplit(cfg, k, log)
  }

  /** A worker never hears of the other workers' keys. */
  lemma {:induction false} ForeignKeys(cfg: DetectConfig, shard: FlowKey -> nat, i: nat, k: FlowKey, log: seq<Entry>)
    requires Deals(shard, i, log) && shard(k) != i
    ensures RecordOf(cfg, k, PartOf(log)) == None
  {
    if log != [] {
      hide Deals, RecordOf, StepFlow, NewFlow, SweepRecord;
      var init, e := log[..|log| - 1], log[|log| - 1];
      assert log == init + [e];
      DealsSnoc(shard, i, init, e);
      ForeignKeys(cfg, shard, i, k, init);
      GivenRecord(cfg, k, PartOf(init), e.step, e.part);
    } else {
      assert RecordOf(cfg, k, []) == None;
    }
  }

  lemma WorkerHolds(cfg: DetectConfig, shard: FlowKey -> nat, i: nat, k: FlowKey, log: seq<Entry>)
    requires Deals(shard, i, log) && NeverSplits(cfg, shard, i, log)
    ensures RecordOf(cfg, k, PartOf(log)) == if shard(k) == i then RecordOf(cfg, k, WholeOf(log)) else None
  {
    hide RecordOf, Unsplit, Deals;
    if shard(k) == i {
      UnsplitAgrees(cfg, shard, k, log);
    } else {
      ForeignKeys(cfg, shard, i, k, log);
    }
  }

  /** The worker's table is then the single table restricted to its keys; with `shard` a
      function, the workers' tables are therefore disjoint and their union is the single table. */
  lemma ShardedTables(cfg: DetectConfig, shard: FlowKey -> nat, i: nat, log: seq<Entry>)
    requires Deals(shard, i, log) && NeverSplits(cfg, shard, i, log)
    ensures
      var whole := Run(cfg, WholeOf(log)).flows;
      Run(cfg, PartOf(log)).flows == map k | k in whole && shard(k) == i :: whole[k]
  {
    hide Deals, NeverSplits, Run, RecordOf;
    var whole, part := Run(cfg, WholeOf(log)).flows, Run(cfg, PartOf(log)).flows;
    forall k ensures Lookup(part, k) == if shard(k) == i then Lookup(whole, k) else None {
      TableIsProduct(cfg, k, WholeOf(log));
      TableIsProduct(cfg, k, PartOf(log));
      WorkerHolds(cfg, shard, i, k, log);
    }
    forall k ensures k in part <==> k in whole && shard(k) == i {
      assert Lookup(part, k).Some? <==> k in part;
    }
    forall k | k in part ensures part[k] == whole[k] {
      assert Lookup(part, k) == Some(part[k]);
    }
  }

  // ---- Counters ---------------------------------------------------------------------------------

  /** c(0) + ... + c(n - 1) */
  function SumTo(n: nat, c: nat -> nat): nat {
    if n == 0 then 0 else SumTo(n - 1, c) + c(n - 1)
  }

  lemma {:induction false} SumOfNothing(n: nat, c: nat -> nat)
    requires forall i: nat | i < n :: c(i) == 0
    ensures SumTo(n, c) == 0
  {
    if n > 0 {
      SumOfNothing(n - 1, c);
    }
  }

  lemma {:induction false} SumWithOneMore(n: nat, before: nat -> nat, after: nat -> nat, owner: nat, added: nat)
    requires forall i: nat | i < n :: after(i) == before(i) + if i == owner then added else 0
    ensures SumTo(n, after) == SumTo(n, before) + if owner < n then added else 0
  {
    if n > 0 {
      SumWithOneMore(n - 1, before, after, owner, added);
    }
  }

  function KeysAt(ks: set<FlowKey>, shard: FlowKey -> nat, i: nat): set<FlowKey> {
    set k | k in ks && shard(k) == i
  }

  function KeysBelow(ks: set<FlowKey>, shard: FlowKey -> nat, n: nat): set<FlowKey> {
    set k | k in ks && shard(k) < n
  }

  lemma SplitBelow(ks: set<FlowKey>, shard: FlowKey -> nat, n: nat)
    ensures |KeysBelow(ks, shard, n + 1)| == |KeysBelow(ks, shard, n)| + |KeysAt(ks, shard, n)|
  {
    assert KeysBelow(ks, shard, n + 1) == KeysBelow(ks, shard, n) + KeysAt(ks, shard, n);
    assert KeysBelow(ks, shard, n) !! KeysAt(ks, shard, n);
  }

  lemma {:induction false} SumOfParts(ks: set<FlowKey>, shard: FlowKey -> nat, n: nat, c: nat -> nat)
    requires forall i: nat | i < n :: c(i) == |KeysAt(ks, shard, i)|
    ensures SumTo(n, c) == |KeysBelow(ks, shard, n)|
  {
    if n == 0 {
      assert KeysBelow(ks, shard, 0) == {};
    } else {
      SumOfParts(ks, shard, n - 1, c);
      SplitBelow(ks, shard, n - 1);
    }
  }

  lemma ShardCounter(cfg: DetectConfig, shard: FlowKey -> nat, i: nat, log: seq<Entry>, s: Endpoint)
    requires Deals(shard, i, log) && NeverSplits(cfg, shard, i, log)
    ensures HalfOpenFor(Run(cfg, PartOf(log)).halfOpen, s) ==
            |KeysAt(CountedKeys(Run(cfg, WholeOf(log)).flows, s), shard, i)|
  {
    hide Deals, NeverSplits, Run;
    RunKeepsCounters(cfg, PartOf(log));
    ShardedTables(cfg, shard, i, log);
    assert CountedKeys(Run(cfg, PartOf(log)).flows, s) ==
           KeysAt(CountedKeys(Run(cfg, WholeOf(log)).flows, s), shard, i);
  }

  /** A log for every worker, all of the same single run. */
  ghost predicate Covers(shard: FlowKey -> nat, n: nat, logs: nat -> seq<Entry>, steps: seq<Step>) {
    && (forall k :: shard(k) < n)
    && (forall i: nat | i < n :: Deals(shard, i, logs(i)) && WholeOf(logs(i)) == steps)
  }

  /** Splitting the keys over `n` workers, with no record split, loses and invents no half-open
      connection. */
  lemma ShardedCounters(cfg: DetectConfig, shard: FlowKey -> nat, n: nat, logs: nat -> seq<Entry>, steps: seq<Step>,
                        s: Endpoint)
    requires Covers(shard, n, logs, steps) && forall i: nat | i < n :: NeverSplits(cfg, shard, i, logs(i))
    ensures SumTo(n, i => HalfOpenFor(Run(cfg, PartOf(logs(i))).halfOpen, s)) ==
            HalfOpenFor(Run(cfg, steps).halfOpen, s)
  {
    hide Deals, NeverSplits, Run;
    var counted := CountedKeys(Run(cfg, steps).flows, s);
    var counters := i => HalfOpenFor(Run(cfg, PartOf(logs(i))).halfOpen, s);
    forall i: nat | i < n ensures counters(i) == |KeysAt(counted, shard, i)| {
      ShardCounter(cfg, shard, i, logs(i), s);
    }
    SumOfParts(counted, shard, n, counters);
    RunKeepsCounters(cfg, steps);
    assert KeysBelow(counted, shard, n) == counted;
  }
}
