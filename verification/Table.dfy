/**
 The flow table with its per-service half-open counters, as a value, and the two
 steps that change it: one packet, and one timed sweep.
 */
module Table {
  import opened Types
  import opened Flow

  /** A count of seconds whose nanosecond value fits 64 bits. */
  type Seconds = x: int | 0 <= x <= 18_446_744_073

  datatype DetectConfig = DetectConfig(
    flowTtlSecs: Seconds,
    retransmitRatioWarn: real,
    dupAckThreshold: u32,
    rstStormPerSec: real,
    synBacklogThreshold: u32,
    rttWarnMs: real,
    handshakeTimeoutSecs: Seconds,
    churnPerSec: real,
    alertDebounceSecs: Seconds)
  {
    function Ttl(): nat { flowTtlSecs * NS_PER_SEC }
    function HandshakeTimeout(): nat { handshakeTimeoutSecs * NS_PER_SEC }
  }

  datatype Table = Table(flows: map<FlowKey, FlowState>, halfOpen: map<Endpoint, nat>)

  const EMPTY := Table(map[], map[])

  // ---- The half-open counters --------------------------------------------------

  function HalfOpenFor(halfOpen: map<Endpoint, nat>, service: Endpoint): nat {
    if service in halfOpen then halfOpen[service] else 0
  }

  /** Counters are created by an increment and are never removed. */
  function Increment(halfOpen: map<Endpoint, nat>, service: Endpoint): map<Endpoint, nat> {
    halfOpen[service := HalfOpenFor(halfOpen, service) + 1]
  }

  /** The saturating decrement; an absent counter stays absent. */
  function Decrement(halfOpen: map<Endpoint, nat>, service: Endpoint): map<Endpoint, nat> {
    if service in halfOpen then halfOpen[service := SatSub(halfOpen[service], 1)] else halfOpen
  }

  /** The counters after one record of a service was, and now is or is not, counted. */
  function Adjust(halfOpen: map<Endpoint, nat>, service: Endpoint, was: bool, now: bool): map<Endpoint, nat> {
    if was == now then halfOpen
    else if now then Increment(halfOpen, service)
    else Decrement(halfOpen, service)
  }

  // ---- One packet --------------------------------------------------------------

  function RecordBefore(flows: map<FlowKey, FlowState>, p: PacketMeta): FlowState {
    if p.key in flows then flows[p.key] else NewFlow(p)
  }

  function DeltaOf(t: Table, p: PacketMeta): PacketDelta {
    StepDelta(RecordBefore(t.flows, p), p).(newFlow := p.key !in t.flows)
  }

  function UpdateTable(t: Table, p: PacketMeta): (t': Table)
    ensures p.key in t'.flows
  {
    var before := RecordBefore(t.flows, p);
    var after := StepFlow(before, p);
    Table(t.flows[p.key := after], Adjust(t.halfOpen, after.service, before.halfOpenCounted, after.halfOpenCounted))
  }

  // ---- One sweep ---------------------------------------------------------------

  predicate TimedOut(cfg: DetectConfig, f: FlowState, now: u64) {
    f.state == SynSent && !f.timeoutFlagged && f.synTime.Some? &&
    SatSub(now, f.synTime.value) > cfg.HandshakeTimeout()
  }

  predicate Expired(cfg: DetectConfig, f: FlowState, now: u64) {
    SatSub(now, f.lastSeen) > cfg.Ttl()
  }

  function TimedOutKeys(cfg: DetectConfig, flows: map<FlowKey, FlowState>, now: u64): set<FlowKey> {
    set k | k in flows && TimedOut(cfg, flows[k], now)
  }

  function ExpiredKeys(cfg: DetectConfig, flows: map<FlowKey, FlowState>, now: u64): set<FlowKey> {
    set k | k in flows && Expired(cfg, flows[k], now)
  }

  function Flagged(f: FlowState): FlowState {
    f.(timeoutFlagged := true, halfOpenCounted := false)
  }

  function FlagKeys(flows: map<FlowKey, FlowState>, ks: set<FlowKey>): map<FlowKey, FlowState> {
    map k | k in flows :: if k in ks then Flagged(flows[k]) else flows[k]
  }

  /** The keys whose records are counted as half open for a service: the slow
      recount that the counter of the service stands for. */
  function CountedKeys(flows: map<FlowKey, FlowState>, service: Endpoint): set<FlowKey> {
    set k | k in flows && flows[k].halfOpenCounted && flows[k].service == service
  }

  /** The counters after one saturating decrement for each counted record of `ks`. */
  function DropCounts(halfOpen: map<Endpoint, nat>, flows: map<FlowKey, FlowState>,
                      ks: set<FlowKey>): map<Endpoint, nat> {
    map s | s in halfOpen :: SatSub(halfOpen[s], |CountedKeys(flows, s) * ks|)
  }

  function FlagTable(t: Table, ks: set<FlowKey>): Table {
    Table(FlagKeys(t.flows, ks), DropCounts(t.halfOpen, t.flows, ks))
  }

  function EvictTable(t: Table, ks: set<FlowKey>): Table {
    Table(t.flows - ks, DropCounts(t.halfOpen, t.flows, ks))
  }

  function SweepTable(cfg: DetectConfig, t: Table, now: u64): Table {
    EvictTable(FlagTable(t, TimedOutKeys(cfg, t.flows, now)), ExpiredKeys(cfg, t.flows, now))
  }

  /** What a sweep does to one record; None once it is evicted. */
  function SweepRecord(cfg: DetectConfig, f: FlowState, now: u64): Option<FlowState> {
    if Expired(cfg, f, now) then None
    else Some(if TimedOut(cfg, f, now) then Flagged(f) else f)
  }

  // ---- The counters are recounts -----------------------------------------------

  ghost predicate CountersExact(t: Table) {
    forall s :: HalfOpenFor(t.halfOpen, s) == |CountedKeys(t.flows, s)|
  }

  lemma CountedAfterPut(flows: map<FlowKey, FlowState>, k: FlowKey, f: FlowState, s: Endpoint)
    ensures CountedKeys(flows[k := f], s) ==
            (CountedKeys(flows, s) - {k}) + (if f.halfOpenCounted && f.service == s then {k} else {})
  {
  }

  /** The recount of a service after one record is replaced. */
  lemma RecountAfterPut(flows: map<FlowKey, FlowState>, k: FlowKey, before: FlowState, after: FlowState, s: Endpoint)
    requires before.service == after.service
    requires if k in flows then before == flows[k] else !before.halfOpenCounted
    ensures
      var was, now := |CountedKeys(flows, s)|, |CountedKeys(flows[k := after], s)|;
      if after.service != s || before.halfOpenCounted == after.halfOpenCounted then now == was
      else if after.halfOpenCounted then now == was + 1
      else now == was - 1
  {
    CountedAfterPut(flows, k, after, s);
    var counted := CountedKeys(flows, s);
    assert k in counted <==> before.halfOpenCounted && before.service == s;
    assert |counted - {k}| == |counted| - if k in counted then 1 else 0;
    assert |(counted - {k}) + {k}| == |counted - {k}| + 1;
    assert (counted - {k}) + {} == counted - {k};
  }

  /** Replacing one record and adjusting its service's counter keeps every counter exact. */
  lemma PutKeepsCounters(t: Table, k: FlowKey, before: FlowState, after: FlowState)
    requires CountersExact(t)
    requires before.service == after.service
    requires if k in t.flows then before == t.flows[k] else !before.halfOpenCounted
    ensures
      var halfOpen := Adjust(t.halfOpen, after.service, before.halfOpenCounted, after.halfOpenCounted);
      CountersExact(Table(t.flows[k := after], halfOpen))
  {
    hide CountedKeys;
    var halfOpen := Adjust(t.halfOpen, after.service, before.halfOpenCounted, after.halfOpenCounted);
    forall s ensures HalfOpenFor(halfOpen, s) == |CountedKeys(t.flows[k := after], s)| {
      RecountAfterPut(t.flows, k, before, after, s);
      assert |CountedKeys(t.flows, s)| == HalfOpenFor(t.halfOpen, s);
    }
  }

  lemma UpdateKeepsCounters(t: Table, p: PacketMeta)
    requires CountersExact(t)
    ensures CountersExact(UpdateTable(t, p))
  {
    var before := RecordBefore(t.flows, p);
    PutKeepsCounters(t, p.key, before, StepFlow(before, p));
  }

  lemma SplitCount(all: set<FlowKey>, ks: set<FlowKey>)
    ensures |all * ks| <= |all| && |all - ks| == SatSub(|all|, |all * ks|)
  {
    assert all == (all * ks) + (all - ks);
  }

  /** Removing the counted records `ks` from the recount and dropping their counts agree,
      and no counter is asked to go below zero. */
  lemma DropKeepsCounters(t: Table, ks: set<FlowKey>, flows': map<FlowKey, FlowState>)
    requires CountersExact(t)
    requires forall s :: CountedKeys(flows', s) == CountedKeys(t.flows, s) - ks
    ensures CountersExact(Table(flows', DropCounts(t.halfOpen, t.flows, ks)))
    ensures forall s :: |CountedKeys(t.flows, s) * ks| <= HalfOpenFor(t.halfOpen, s)
  {
    hide CountedKeys;
    forall s
      ensures |CountedKeys(t.flows, s) * ks| <= HalfOpenFor(t.halfOpen, s)
      ensures HalfOpenFor(DropCounts(t.halfOpen, t.flows, ks), s) == |CountedKeys(flows', s)|
    {
      SplitCount(CountedKeys(t.flows, s), ks);
      assert HalfOpenFor(t.halfOpen, s) == |CountedKeys(t.flows, s)|;
      assert CountedKeys(flows', s) == CountedKeys(t.flows, s) - ks;
    }
  }

  lemma FlagKeepsCounters(t: Table, ks: set<FlowKey>)
    requires CountersExact(t)
    ensures CountersExact(FlagTable(t, ks))
    ensures forall s :: |CountedKeys(t.flows, s) * ks| <= HalfOpenFor(t.halfOpen, s)
  {
    assert forall s :: CountedKeys(FlagKeys(t.flows, ks), s) == CountedKeys(t.flows, s) - ks;
    DropKeepsCounters(t, ks, FlagKeys(t.flows, ks));
  }

  lemma EvictKeepsCounters(t: Table, ks: set<FlowKey>)
    requires CountersExact(t)
    ensures CountersExact(EvictTable(t, ks))
    ensures forall s :: |CountedKeys(t.flows, s) * ks| <= HalfOpenFor(t.halfOpen, s)
  {
    assert forall s :: CountedKeys(t.flows - ks, s) == CountedKeys(t.flows, s) - ks;
    DropKeepsCounters(t, ks, t.flows - ks);
  }

  /** A sweep keeps the counters exact even where it both times out and evicts a
      record, and neither of its two phases ever saturates a counter. */
  lemma SweepKeepsCounters(cfg: DetectConfig, t: Table, now: u64)
    requires CountersExact(t)
    ensures CountersExact(SweepTable(cfg, t, now))
    ensures forall s :: |CountedKeys(t.flows, s) * TimedOutKeys(cfg, t.flows, now)| <= HalfOpenFor(t.halfOpen, s)
    ensures
      var mid := FlagTable(t, TimedOutKeys(cfg, t.flows, now));
      forall s :: |CountedKeys(mid.flows, s) * ExpiredKeys(cfg, t.flows, now)| <= HalfOpenFor(mid.halfOpen, s)
  {
    var mid := FlagTable(t, TimedOutKeys(cfg, t.flows, now));
    FlagKeepsCounters(t, TimedOutKeys(cfg, t.flows, now));
    EvictKeepsCounters(mid, ExpiredKeys(cfg, t.flows, now));
  }

  // ---- One key at a time ---------------------------------------------------------

  lemma CountOne(flows: map<FlowKey, FlowState>, ks: set<FlowKey>, k: FlowKey, s: Endpoint)
    requires k in flows && k !in ks
    ensures |CountedKeys(flows, s) * (ks + {k})| ==
            |CountedKeys(flows, s) * ks| + if flows[k].halfOpenCounted && flows[k].service == s then 1 else 0
  {
    var counted := CountedKeys(flows, s);
    if k in counted {
      assert counted * (ks + {k}) == counted * ks + {k};
    } else {
      assert counted * (ks + {k}) == counted * ks;
    }
  }

  lemma DropOne(halfOpen: map<Endpoint, nat>, flows: map<FlowKey, FlowState>, ks: set<FlowKey>, k: FlowKey)
    requires k in flows && k !in ks
    ensures
      var before := DropCounts(halfOpen, flows, ks);
      DropCounts(halfOpen, flows, ks + {k}) ==
      if flows[k].halfOpenCounted then Decrement(before, flows[k].service) else before
  {
    hide CountedKeys, DropCounts;
    var before, after := DropCounts(halfOpen, flows, ks), DropCounts(halfOpen, flows, ks + {k});
    var expected := if flows[k].halfOpenCounted then Decrement(before, flows[k].service) else before;
    DropKeys(halfOpen, flows, ks);
    DropKeys(halfOpen, flows, ks + {k});
    forall s | s in halfOpen ensures after[s] == expected[s] {
      DropOneAt(halfOpen, flows, ks, k, s);
    }
  }

  lemma DropKeys(halfOpen: map<Endpoint, nat>, flows: map<FlowKey, FlowState>, ks: set<FlowKey>)
    ensures DropCounts(halfOpen, flows, ks).Keys == halfOpen.Keys
  {
  }

  lemma DropOneAt(halfOpen: map<Endpoint, nat>, flows: map<FlowKey, FlowState>, ks: set<FlowKey>, k: FlowKey,
                  s: Endpoint)
    requires k in flows && k !in ks && s in halfOpen
    ensures DropCounts(halfOpen, flows, ks + {k})[s] ==
            SatSub(DropCounts(halfOpen, flows, ks)[s],
                   if flows[k].halfOpenCounted && flows[k].service == s then 1 else 0)
  {
    hide CountedKeys;
    CountOne(flows, ks, k, s);
  }

  lemma FlagOne(t: Table, ks: set<FlowKey>, k: FlowKey)
    requires k in t.flows && k !in ks
    ensures
      var m := FlagTable(t, ks);
      k in m.flows && m.flows[k] == t.flows[k] &&
      FlagTable(t, ks + {k}) ==
      Table(m.flows[k := Flagged(t.flows[k])],
            if t.flows[k].halfOpenCounted then Decrement(m.halfOpen, t.flows[k].service) else m.halfOpen)
  {
    DropOne(t.halfOpen, t.flows, ks, k);
  }

  lemma EvictOne(t: Table, ks: set<FlowKey>, k: FlowKey)
    requires k in t.flows && k !in ks
    ensures
      var m := EvictTable(t, ks);
      k in m.flows && m.flows[k] == t.flows[k] &&
      EvictTable(t, ks + {k}) ==
      Table(m.flows - {k},
            if t.flows[k].halfOpenCounted then Decrement(m.halfOpen, t.flows[k].service) else m.halfOpen)
  {
    DropOne(t.halfOpen, t.flows, ks, k);
  }

  // ---- Sweeping twice ----------------------------------------------------------

  /** The survivors of a sweep are exactly the records within the time to live,
      each flagged if its handshake had timed out. */
  lemma SweepByRecord(cfg: DetectConfig, t: Table, now: u64, k: FlowKey)
    ensures k in SweepTable(cfg, t, now).flows <==> k in t.flows && SweepRecord(cfg, t.flows[k], now).Some?
    ensures k in SweepTable(cfg, t, now).flows <==>
            k in t.flows && SatSub(now, t.flows[k].lastSeen) <= cfg.flowTtlSecs * 1_000_000_000
    ensures k in SweepTable(cfg, t, now).flows ==>
            SweepTable(cfg, t, now).flows[k] == SweepRecord(cfg, t.flows[k], now).value
  {
  }

  lemma DropNothing(halfOpen: map<Endpoint, nat>, flows: map<FlowKey, FlowState>)
    ensures DropCounts(halfOpen, flows, {}) == halfOpen
  {
    hide CountedKeys, DropCounts;
    var after := DropCounts(halfOpen, flows, {});
    DropKeys(halfOpen, flows, {});
    forall s | s in halfOpen ensures after[s] == halfOpen[s] {
      DropNoneAt(halfOpen, flows, s);
    }
    assert after == halfOpen;
  }

  lemma DropNoneAt(halfOpen: map<Endpoint, nat>, flows: map<FlowKey, FlowState>, s: Endpoint)
    requires s in halfOpen
    ensures DropCounts(halfOpen, flows, {})[s] == halfOpen[s]
  {
    assert CountedKeys(flows, s) * {} == {};
  }

  lemma QuietSweep(cfg: DetectConfig, t: Table, now: u64)
    requires TimedOutKeys(cfg, t.flows, now) == {} && ExpiredKeys(cfg, t.flows, now) == {}
    ensures SweepTable(cfg, t, now) == t
  {
    assert FlagKeys(t.flows, {}) == t.flows;
    assert t.flows - {} == t.flows;
    DropNothing(t.halfOpen, t.flows);
  }

  /** A second sweep, at the same or an earlier time, reports nothing and changes nothing. */
  lemma SweepTwice(cfg: DetectConfig, t: Table, now: u64, again: u64)
    requires again <= now
    ensures TimedOutKeys(cfg, SweepTable(cfg, t, now).flows, again) == {}
    ensures SweepTable(cfg, SweepTable(cfg, t, now), again) == SweepTable(cfg, t, now)
  {
    var once := SweepTable(cfg, t, now);
    forall k | k in once.flows
      ensures !TimedOut(cfg, once.flows[k], again) && !Expired(cfg, once.flows[k], again)
    {
      SweepByRecord(cfg, t, now, k);
    }
    assert TimedOutKeys(cfg, once.flows, again) == {} && ExpiredKeys(cfg, once.flows, again) == {};
    QuietSweep(cfg, once, again);
  }
}
