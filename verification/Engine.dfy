/**
 The detection engine as it runs: objects updated in place, each step of which is
 proved to be the corresponding step of the value model.
 */
module Engine {
  import opened Types
  import opened Flow
  import opened Table
  import opened Window
  import opened Alerting
  import opened Runs
  import opened Detectors
  import opened EngineRuns
  import opened Rates
  import opened HostAlerts

  /** The flow table, the half-open counters and the host-wide rates. */
  class EngineState {
    const cfg: DetectConfig
    var flows: map<FlowKey, FlowState>
    var halfOpen: map<Endpoint, nat>
    const rstRate: RollingRate
    const newFlowRate: RollingRate

    ghost predicate Valid() {
      rstRate.Valid() && newFlowRate.Valid() &&
      {rstRate.buckets as object, rstRate.epoch as object} !!
      {newFlowRate.buckets as object, newFlowRate.epoch as object}
    }

    /** The rate buffers this object owns. */
    ghost function Buffers(): set<object> {
      {rstRate.buckets as object, rstRate.epoch as object, newFlowRate.buckets as object, newFlowRate.epoch as object}
    }

    ghost function Contents(): Table
      reads this
    {
      Table(flows, halfOpen)
    }

    constructor (cfg: DetectConfig)
      ensures Valid() && this.cfg == cfg && Contents() == EMPTY
      ensures fresh(Buffers())
      ensures rstRate.Model() == newFlowRate.Model() == NewRing(1)
    {
      this.cfg := cfg;
      flows := map[];
      halfOpen := map[];
      rstRate := new RollingRate(1);
      newFlowRate := new RollingRate(1);
    }

    method HalfOpenMax() returns (max: nat)
      ensures forall s | s in halfOpen :: halfOpen[s] <= max
      ensures max > 0 ==> exists s | s in halfOpen :: halfOpen[s] == max
    {
      max := 0;
      var todo := halfOpen.Keys;
      while todo != {}
        invariant todo <= halfOpen.Keys
        invariant forall s | s in halfOpen && s !in todo :: halfOpen[s] <= max
        invariant max > 0 ==> exists s | s in halfOpen :: halfOpen[s] == max
      {
        var s :| s in todo;
        todo := todo - {s};
        if halfOpen[s] > max {
          max := halfOpen[s];
        }
      }
    }

    /** Stops counting a record as half open. */
    method ClearHalfOpen(flow: FlowState) returns (cleared: FlowState)
      modifies this`halfOpen
      ensures cleared == flow.(halfOpenCounted := false)
      ensures halfOpen == Adjust(old(halfOpen), flow.service, flow.halfOpenCounted, false)
    {
      cleared := flow;
      if flow.halfOpenCounted {
        cleared := cleared.(halfOpenCounted := false);
        if flow.service in halfOpen {
          halfOpen := halfOpen[flow.service := SatSub(halfOpen[flow.service], 1)];
        }
      }
    }

    method OnSynSegment(f: FlowState, p: PacketMeta) returns (flow: FlowState)
      requires KindOf(p) == SynKind && f.lastSeen == p.ts
      modifies this`halfOpen
      ensures flow == StepFlow(f, p)
      ensures halfOpen == Adjust(old(halfOpen), f.service, f.halfOpenCounted, flow.halfOpenCounted)
    {
      flow := f;
      if flow.synTime.None? {
        flow := flow.(synTime := Some(p.ts));
        flow := flow.(state := SynSent);
        if !flow.halfOpenCounted {
          halfOpen := halfOpen[flow.service := (if flow.service in halfOpen then halfOpen[flow.service] else 0) + 1];
          flow := flow.(halfOpenCounted := true);
        }
      }
      flow := flow.(nextSeq := flow.nextSeq.Put(p.dir, Some(WrapAdd(p.seqNo, 1))));
      assert flow == OnSyn(f, p);
    }

    static method OnSynAckSegment(f: FlowState, d: PacketDelta, p: PacketMeta) returns (flow: FlowState,
                                  delta: PacketDelta)
      requires KindOf(p) == SynAckKind && f.lastSeen == p.ts && IsBlank(d)
      ensures flow == StepFlow(f, p) && Completes(delta, d, f, p)
    {
      flow, delta := f, d;
      flow := flow.(synackTime := Some(p.ts));
      flow := flow.(state := SynAckSeen);
      if flow.synTime.Some? {
        var rtt := SatSub(p.ts, flow.synTime.value);
        flow := flow.(rtt := Some(rtt));
        delta := delta.(rttSample := Some(rtt));
      }
      flow := flow.(nextSeq := flow.nextSeq.Put(p.dir, Some(WrapAdd(p.seqNo, 1))));
      assert flow == OnSynAck(f, p);
    }

    method OnRstSegment(f: FlowState, d: PacketDelta, p: PacketMeta) returns (flow: FlowState, delta: PacketDelta)
      requires Valid() && KindOf(p) == RstKind && f.lastSeen == p.ts && IsBlank(d)
      modifies this`halfOpen, rstRate.buckets, rstRate.epoch
      ensures flow == StepFlow(f, p) && Completes(delta, d, f, p)
      ensures halfOpen == Adjust(old(halfOpen), f.service, f.halfOpenCounted, flow.halfOpenCounted)
      ensures rstRate.Model() == RecordAt(old(rstRate.Model()), p.ts)
    {
      flow, delta := f, d;
      delta := delta.(rst := true);
      rstRate.Record(p.ts);
      if flow.state == SynSent || flow.state == SynAckSeen {
        delta := delta.(handshakeRefused := true);
      }
      flow := flow.(state := Reset);
      flow := ClearHalfOpen(flow);
      assert flow == OnRst(f);
    }

    /** The ACK and FIN part of an ordinary segment. */
    method OnAckFin(f: FlowState, p: PacketMeta) returns (flow: FlowState, established: bool)
      modifies this`halfOpen
      ensures flow == f.(state := StateAfter(f, p), established := f.established || Establishes(f, p),
                         halfOpenCounted := f.halfOpenCounted && !Establishes(f, p) && !p.flags.Fin())
      ensures established == Establishes(f, p)
      ensures halfOpen == Adjust(old(halfOpen), f.service, f.halfOpenCounted, flow.halfOpenCounted)
    {
      flow, established := f, false;
      if flow.state == SynAckSeen && p.flags.Ack() {
        flow := flow.(state := Established);
        flow := flow.(established := true);
        established := true;
        flow := ClearHalfOpen(flow);
      }
      if p.flags.Fin() {
        flow := flow.(state := Closing);
        flow := ClearHalfOpen(flow);
      }
    }

    static method OnWindow(zeroWindow: PerDir<bool>, active: bool, p: PacketMeta) returns (zero: PerDir<bool>,
                           edge: bool)
      ensures zero == if active then zeroWindow.Put(p.dir, p.window == 0) else zeroWindow
      ensures edge == (active && p.window == 0 && !zeroWindow.At(p.dir))
    {
      zero, edge := zeroWindow, false;
      if active {
        var wasZero := zero.At(p.dir);
        var nowZero := p.window == 0;
        if nowZero && !wasZero {
          edge := true;
        }
        zero := zero.Put(p.dir, nowZero);
      }
    }

    static method OnData(f: FlowState, p: PacketMeta)
      returns (nextSeq: PerDir<Option<u32>>, retransmits: nat, dataSegments: nat, shift: int)
      ensures shift == Displacement(f.nextSeq.At(p.dir), p)
      ensures nextSeq == f.nextSeq.Put(p.dir, ExpectedAfter(f.nextSeq.At(p.dir), p))
      ensures retransmits == f.retransmits + if shift < 0 then 1 else 0
      ensures dataSegments == f.dataSegments + if p.payloadLen > 0 then 1 else 0
    {
      nextSeq, retransmits, dataSegments, shift := f.nextSeq, f.retransmits, f.dataSegments, 0;
      if p.payloadLen > 0 {
        dataSegments := dataSegments + 1;
        var end := WrapAdd(p.seqNo, p.payloadLen);
        match nextSeq.At(p.dir) {
          case Some(exp) =>
            shift := SeqDiff(p.seqNo, exp);
            if shift < 0 {
              retransmits := retransmits + 1;
            }
            if SeqDiff(end, exp) > 0 {
              nextSeq := nextSeq.Put(p.dir, Some(end));
            }
          case None =>
            nextSeq := nextSeq.Put(p.dir, Some(end));
        }
      }
    }

    static method OnBareAck(f: FlowState, p: PacketMeta)
      returns (lastAck: PerDir<Option<u32>>, dupAcks: PerDir<u32>, repeats: bool)
      ensures lastAck == if BareAck(p) then f.lastAck.Put(p.dir, Some(p.ack)) else f.lastAck
      ensures dupAcks == f.dupAcks.Put(p.dir, DupAcksAfter(f.lastAck.At(p.dir), f.dupAcks.At(p.dir), p))
      ensures repeats == RepeatsAck(f.lastAck.At(p.dir), p)
    {
      lastAck, dupAcks, repeats := f.lastAck, f.dupAcks, false;
      if p.flags.Ack() && p.payloadLen == 0 && !p.flags.Syn() && !p.flags.Fin() {
        if lastAck.At(p.dir) == Some(p.ack) {
          dupAcks := dupAcks.Put(p.dir, WrapAdd(dupAcks.At(p.dir), 1));
          repeats := true;
        } else {
          lastAck := lastAck.Put(p.dir, Some(p.ack));
          dupAcks := dupAcks.Put(p.dir, 0);
        }
      }
    }

    /** The sequence and duplicate-ACK part of an ordinary segment. */
    static method OnTracking(f: FlowState, d: PacketDelta, p: PacketMeta)
      returns (flow: FlowState, delta: PacketDelta)
      ensures flow == OnTracked(f, p, f.zeroWindow)
      ensures delta == TrackDelta(d, f, p)
    {
      hide ExpectedAfter, Displacement, BareAck, RepeatsAck, DupAcksAfter;
      var nextSeq, retransmits, dataSegments, shift := OnData(f, p);
      var lastAck, dupAcks, repeats := OnBareAck(f, p);
      flow := f.(nextSeq := nextSeq, retransmits := retransmits, dataSegments := dataSegments,
                 lastAck := lastAck, dupAcks := dupAcks);
      delta := d.(isRetransmit := shift < 0, isOutOfOrder := shift > 0, isDupAck := repeats,
                  dupAckCount := if repeats then dupAcks.At(p.dir) else 0);
    }

    method OnControl(f: FlowState, d: PacketDelta, p: PacketMeta) returns (flow: FlowState, delta: PacketDelta)
      requires !d.establishedNow && !d.zeroWindowEdge
      modifies this`halfOpen
      ensures flow == f.(state := StateAfter(f, p), established := f.established || Establishes(f, p),
                         halfOpenCounted := f.halfOpenCounted && !Establishes(f, p) && !p.flags.Fin(),
                         zeroWindow := if WindowCounts(f, p) then f.zeroWindow.Put(p.dir, p.window == 0)
                                       else f.zeroWindow)
      ensures delta == d.(establishedNow := Establishes(f, p), zeroWindowEdge := ZeroWindowEdge(f, p))
      ensures halfOpen == Adjust(old(halfOpen), f.service, f.halfOpenCounted, flow.halfOpenCounted)
    {
      var after, established := OnAckFin(f, p);
      assert after.zeroWindow == f.zeroWindow;
      var active := after.established || after.state == Closing;
      assert active == WindowCounts(f, p);
      var zero, edge := OnWindow(after.zeroWindow, active, p);
      flow := after.(zeroWindow := zero);
      delta := d.(establishedNow := established, zeroWindowEdge := edge);
    }

    method OnOrdinaryParts(f: FlowState, d: PacketDelta, p: PacketMeta) returns (flow: FlowState, delta: PacketDelta)
      requires IsBlank(d)
      modifies this`halfOpen
      ensures flow == OnOrdinary(f, p)
      ensures delta == TrackDelta(d.(establishedNow := Establishes(f, p), zeroWindowEdge := ZeroWindowEdge(f, p)), f, p)
      ensures halfOpen == Adjust(old(halfOpen), f.service, f.halfOpenCounted, flow.halfOpenCounted)
    {
      flow, delta := OnControl(f, d, p);
      flow, delta := OnTracking(flow, delta, p);
    }

    method OnOrdinarySegment(f: FlowState, d: PacketDelta, p: PacketMeta) returns (flow: FlowState, delta: PacketDelta)
      requires KindOf(p) == OrdinaryKind && f.lastSeen == p.ts && IsBlank(d)
      modifies this`halfOpen
      ensures flow == StepFlow(f, p) && Completes(delta, d, f, p)
      ensures halfOpen == Adjust(old(halfOpen), f.service, f.halfOpenCounted, flow.halfOpenCounted)
    {
      flow, delta := OnOrdinaryParts(f, d, p);
    }

    /** One packet of a TCP conversation. */
    method OnTcp(f: FlowState, d: PacketDelta, p: PacketMeta) returns (flow: FlowState, delta: PacketDelta)
      requires Valid() && p.proto == Tcp && f.lastSeen == p.ts && IsBlank(d)
      modifies this`halfOpen, rstRate.buckets, rstRate.epoch
      ensures flow == StepFlow(f, p) && Completes(delta, d, f, p)
      ensures halfOpen == Adjust(old(halfOpen), f.service, f.halfOpenCounted, flow.halfOpenCounted)
      ensures rstRate.Model() ==
              if KindOf(p) == RstKind then RecordAt(old(rstRate.Model()), p.ts) else old(rstRate.Model())
    {
      if p.flags.SynOnly() {
        flow := OnSynSegment(f, p);
        delta := d;
      } else if p.flags.SynAck() {
        flow, delta := OnSynAckSegment(f, d, p);
      } else if p.flags.Rst() {
        flow, delta := OnRstSegment(f, d, p);
      } else {
        flow, delta := OnOrdinarySegment(f, d, p);
      }
    }

    /** Ingests one packet, updates the table, the counters and the rates, and returns what changed. */
    method Update(p: PacketMeta) returns (key: FlowKey, d: PacketDelta)
      requires Valid()
      modifies this, Buffers()
      ensures key == p.key && d == DeltaOf(old(Contents()), p)
      ensures Contents() == UpdateTable(old(Contents()), p)
      ensures newFlowRate.Model() ==
              if d.newFlow then RecordAt(old(newFlowRate.Model()), p.ts) else old(newFlowRate.Model())
      ensures rstRate.Model() == if d.rst then RecordAt(old(rstRate.Model()), p.ts) else old(rstRate.Model())
    {
      hide StepFlow, StepDelta, NewFlow, RecordAt;
      key := p.key;
      d := NO_DELTA;
      ghost var before := RecordBefore(flows, p);
      if key !in flows {
        flows := flows[key := NewFlow(p)];
        d := d.(newFlow := true);
        newFlowRate.Record(p.ts);
      }
      var flow := flows[key];
      flow := flow.(lastSeen := p.ts);
      if p.proto == Tcp {
        flow, d := OnTcp(flow, d, p);
      }
      d := d.(service := Some(flow.service));
      flows := flows[key := flow];
      StepIgnoresLastSeen(before, p);
      DatagramsOnlyTouch(before, p);
      ResetsRaise(before, p);
    }
  }

  /** A delta that says no more than whether the flow is new. */
  ghost predicate IsBlank(d: PacketDelta) {
    d.(newFlow := false) == NO_DELTA
  }

  /** `delta` is the packet's delta, but for the service, which is filled in last. */
  ghost predicate Completes(delta: PacketDelta, d: PacketDelta, f: FlowState, p: PacketMeta) {
    delta.(service := Some(f.service)) == StepDelta(f, p).(newFlow := d.newFlow)
  }

  lemma DatagramsOnlyTouch(f: FlowState, p: PacketMeta)
    ensures p.proto == Udp ==>
            StepFlow(f, p) == f.(lastSeen := p.ts) && StepDelta(f, p) == NO_DELTA.(service := Some(f.service))
  {
  }

  lemma ResetsRaise(f: FlowState, p: PacketMeta)
    ensures StepDelta(f, p).rst <==> KindOf(p) == RstKind
    ensures StepFlow(f, p).service == f.service
  {
  }

  lemma StepIgnoresLastSeen(f: FlowState, p: PacketMeta)
    ensures StepFlow(f.(lastSeen := p.ts), p) == StepFlow(f, p)
    ensures StepDelta(f.(lastSeen := p.ts), p) == StepDelta(f, p)
  {
  }

  // ---- Sweeping ----------------------------------------------------------------------

  /** A list of a set's elements, each once, in any order. */
  ghost predicate Lists<T(!new)>(q: seq<T>, s: set<T>) {
    (forall i, j | 0 <= i < j < |q| :: q[i] != q[j]) && (forall x :: x in q <==> x in s)
  }

  function Elements<T>(q: seq<T>): set<T> {
    set x | x in q
  }

  /** The engine: the state, the debounced detectors and the sweep clock. The ghost
      history records every step ever taken, and `Valid` says that the objects hold
      exactly what the value model computes from it. */
  class Engine {
    const state: EngineState
    const rstGate: Debounce
    const synGate: Debounce
    const churnGate: Debounce
    var lastSweepNs: u64
    ghost var history: seq<Step>

    ghost function Repr(): set<object> {
      {this, state, rstGate, synGate, churnGate} + state.Buffers()
    }

    ghost predicate Separate() {
      state.Valid() && rstGate != synGate && rstGate != churnGate && synGate != churnGate &&
      {this as object, state, rstGate, synGate, churnGate} !! state.Buffers()
    }

    ghost function Model(): EngineModel
      requires Separate()
      reads Repr()
    {
      EngineModel(state.Contents(), state.rstRate.Model(), state.newFlowRate.Model(),
                  rstGate.Model(), synGate.Model(), churnGate.Model(), lastSweepNs)
    }

    ghost predicate Valid()
      reads Repr()
    {
      Separate() && Model() == RunEngine(state.cfg, history)
    }

    constructor (cfg: DetectConfig)
      ensures Valid() && fresh(Repr()) && state.cfg == cfg && history == []
    {
      state := new EngineState(cfg);
      rstGate := new Debounce(cfg.alertDebounceSecs);
      synGate := new Debounce(cfg.alertDebounceSecs);
      churnGate := new Debounce(cfg.alertDebounceSecs);
      lastSweepNs := 0;
      history := [];
    }

    /** Collects the keys to flag and the keys to evict, in whatever order the table yields them. */
    method Scan(now: u64) returns (timeouts: seq<FlowKey>, toRemove: seq<FlowKey>)
      ensures Lists(timeouts, TimedOutKeys(state.cfg, state.flows, now))
      ensures Lists(toRemove, ExpiredKeys(state.cfg, state.flows, now))
    {
      timeouts, toRemove := [], [];
      var todo := state.flows.Keys;
      while todo != {}
        invariant todo <= state.flows.Keys
        invariant Lists(timeouts, TimedOutKeys(state.cfg, state.flows, now) - todo)
        invariant Lists(toRemove, ExpiredKeys(state.cfg, state.flows, now) - todo)
      {
        var k :| k in todo;
        todo := todo - {k};
        var f := state.flows[k];
        if f.state == SynSent && !f.timeoutFlagged {
          if f.synTime.Some? {
            if SatSub(now, f.synTime.value) > state.cfg.handshakeTimeoutSecs * NS_PER_SEC {
              timeouts := timeouts + [k];
            }
          }
        }
        if SatSub(now, f.lastSeen) > state.cfg.flowTtlSecs * NS_PER_SEC {
          toRemove := toRemove + [k];
        }
      }
    }

    /** Flags every listed flow, gives back its half-open count and reports it. */
    method FlagTimeouts(timeouts: seq<FlowKey>, now: u64) returns (out: seq<Event>)
      requires Lists(timeouts, Elements(timeouts)) && Elements(timeouts) <= state.flows.Keys
      modifies state`flows, state`halfOpen
      ensures state.Contents() == FlagTable(old(state.Contents()), Elements(timeouts))
      ensures out == EventsFor(timeouts, old(state.flows), now)
    {
      hide FlagTable;
      out := [];
      ghost var t := state.Contents();
      FlagNothing(t);
      for i := 0 to |timeouts|
        invariant state.Contents() == FlagTable(t, Elements(timeouts[..i]))
        invariant out == EventsFor(timeouts[..i], t.flows, now)
      {
        var k := timeouts[i];
        assert Elements(timeouts[..i + 1]) == Elements(timeouts[..i]) + {k};
        assert timeouts[..i + 1][..i] == timeouts[..i];
        FlagOne(t, Elements(timeouts[..i]), k);
        if k in state.flows {
          var f := state.flows[k];
          if f.halfOpenCounted {
            if f.service in state.halfOpen {
              state.halfOpen := state.halfOpen[f.service := SatSub(state.halfOpen[f.service], 1)];
            }
          }
          state.flows := state.flows[k := f.(timeoutFlagged := true, halfOpenCounted := false)];
          var waited := SatSub(now, if f.synTime.Some? then f.synTime.value else now);
          out := out + [Event(now, HandshakeTimeout, Warning, k, waited as real / NS_PER_SEC as real)];
        }
      }
      assert timeouts[..|timeouts|] == timeouts;
    }

    /** Removes every listed flow, giving back the half-open count of those still counted. */
    method EvictIdle(toRemove: seq<FlowKey>)
      requires Lists(toRemove, Elements(toRemove)) && Elements(toRemove) <= state.flows.Keys
      modifies state`flows, state`halfOpen
      ensures state.Contents() == EvictTable(old(state.Contents()), Elements(toRemove))
    {
      hide EvictTable;
      ghost var t := state.Contents();
      EvictNothing(t);
      for i := 0 to |toRemove|
        invariant state.Contents() == EvictTable(t, Elements(toRemove[..i]))
      {
        var k := toRemove[i];
        assert Elements(toRemove[..i + 1]) == Elements(toRemove[..i]) + {k};
        EvictOne(t, Elements(toRemove[..i]), k);
        if k in state.flows {
          var f := state.flows[k];
          state.flows := state.flows - {k};
          if f.halfOpenCounted {
            if f.service in state.halfOpen {
              state.halfOpen := state.halfOpen[f.service := SatSub(state.halfOpen[f.service], 1)];
            }
          }
        }
      }
      assert toRemove[..|toRemove|] == toRemove;
    }

    /** One sweep: whatever the iteration order, the table and the counters come out the
        same, and so does the multiset of events. */
    method SweepFlows(now: u64) returns (out: seq<Event>)
      modifies state`flows, state`halfOpen
      ensures state.Contents() == SweepTable(state.cfg, old(state.Contents()), now)
      ensures multiset(out) == multiset(SweepEvents(state.cfg, old(state.Contents()), now))
    {
      ghost var t := state.Contents();
      var timeouts, toRemove := Scan(now);
      assert Elements(timeouts) == TimedOutKeys(state.cfg, t.flows, now);
      assert Elements(toRemove) == ExpiredKeys(state.cfg, t.flows, now);
      out := FlagTimeouts(timeouts, now);
      EvictIdle(toRemove);
      EventsOfList(out, timeouts, t, now);
      assert SweepEvents(state.cfg, t, now) == set k | k in timeouts :: TimeoutEvent(k, t.flows[k], now);
    }

    method AskRstStorm(key: FlowKey, d: PacketDelta, now: u64) returns (ev: Option<Event>)
      requires Separate()
      modifies rstGate
      ensures
        var rate := RateIn(state.rstRate.Model(), now);
        var over := d.rst && rate >= state.cfg.rstStormPerSec;
        ev == (if over && IsReady(old(rstGate.Model()), now)
               then Some(Event(now, RstStorm, Critical, key, rate)) else None) &&
        rstGate.Model() == if over then Consult(old(rstGate.Model()), now) else old(rstGate.Model())
    {
      if !d.rst {
        return None;
      }
      var rate := state.rstRate.PerSec(now);
      if rate < state.cfg.rstStormPerSec {
        return None;
      }
      var ready := rstGate.Ready(now);
      ev := if ready then Some(Event(now, RstStorm, Critical, key, rate)) else None;
    }

    method AskSynBacklog(key: FlowKey, now: u64) returns (ev: Option<Event>)
      requires key in state.flows
      modifies synGate
      ensures
        var count := HalfOpenFor(state.halfOpen, state.flows[key].service);
        var over := count >= state.cfg.synBacklogThreshold;
        ev == (if over && IsReady(old(synGate.Model()), now)
               then Some(Event(now, SynBacklog, Warning, key, count as real)) else None) &&
        synGate.Model() == if over then Consult(old(synGate.Model()), now) else old(synGate.Model())
    {
      var count := HalfOpenFor(state.halfOpen, state.flows[key].service);
      if count < state.cfg.synBacklogThreshold {
        return None;
      }
      var ready := synGate.Ready(now);
      ev := if ready then Some(Event(now, SynBacklog, Warning, key, count as real)) else None;
    }

    method AskChurn(key: FlowKey, d: PacketDelta, now: u64) returns (ev: Option<Event>)
      requires Separate()
      modifies churnGate
      ensures
        var rate := RateIn(state.newFlowRate.Model(), now);
        var over := d.newFlow && rate >= state.cfg.churnPerSec;
        ev == (if over && IsReady(old(churnGate.Model()), now)
               then Some(Event(now, ConnectionChurn, Info, key, rate)) else None) &&
        churnGate.Model() == if over then Consult(old(churnGate.Model()), now) else old(churnGate.Model())
    {
      if !d.newFlow {
        return None;
      }
      var rate := state.newFlowRate.PerSec(now);
      if rate < state.cfg.churnPerSec {
        return None;
      }
      var ready := churnGate.Ready(now);
      ev := if ready then Some(Event(now, ConnectionChurn, Info, key, rate)) else None;
    }

    /** Asks the nine detectors about one packet, in order. */
    method Detect(key: FlowKey, d: PacketDelta, now: u64) returns (out: seq<Event>)
      requires Separate() && key in state.flows
      modifies rstGate, synGate, churnGate
      ensures
        var c := Context(state.cfg, old(Model()), d, key, now);
        out == Inspect(c) && Model() == AfterInspect(c)
    {
      ghost var c := Context(state.cfg, Model(), d, key, now);
      out := FlowRules(state.cfg, d, key, now, state.flows[key]);
      var storm := AskRstStorm(key, d, now);
      assert storm == OnRstStorm(c);
      var backlog := AskSynBacklog(key, now);
      assert backlog == OnSynBacklog(c);
      var churn := AskChurn(key, d, now);
      assert churn == OnChurn(c);
      out := out + Emit(storm) + Emit(backlog) + Emit(churn);
    }

    /** Ingests one packet: the detectors' events in order, then those of any due sweep. */
    method Process(p: PacketMeta) returns (out: seq<Event>)
      requires Valid()
      modifies Repr()
      ensures Valid() && history == old(history) + [Packet(p)]
      ensures
        var m := old(Model());
        var inspected := Inspect(ContextOf(state.cfg, m, p));
        inspected <= out && multiset(out[|inspected|..]) == multiset(SweptEvents(state.cfg, m, Packet(p)))
    {
      hide RunEngine, UpdateTable, SweepTable, DeltaOf, Inspect, SweepEvents;
      ghost var m := Model();
      var key, delta := state.Update(p);
      assert Model() == Ingest(m, p);
      out := Detect(key, delta, p.ts);
      ghost var inspected := out;
      assert Model() == Detected(state.cfg, m, p);
      if SatSub(p.ts, lastSweepNs) >= NS_PER_SEC {
        lastSweepNs := p.ts;
        var swept := SweepFlows(p.ts);
        out := out + swept;
        assert out[|inspected|..] == swept;
      }
      history := history + [Packet(p)];
      EngineSnoc(state.cfg, old(history), Packet(p));
      assert Model() == ProcessModel(state.cfg, m, p);
    }

    /** The exported gauges. The backlog gauge is the largest recount over all services. */
    method Stats(now: u64) returns (activeFlows: nat, halfOpenMax: nat, rstPerSec: real, newFlowPerSec: real)
      requires Valid()
      ensures activeFlows == |state.flows|
      ensures forall s :: |CountedKeys(state.flows, s)| <= halfOpenMax
      ensures halfOpenMax > 0 ==> exists s :: |CountedKeys(state.flows, s)| == halfOpenMax
      ensures rstPerSec == CountIn(RingOf(1, History(state.cfg, Expand(state.cfg, history), Resets)), now) as real
      ensures newFlowPerSec == CountIn(RingOf(1, History(state.cfg, Expand(state.cfg, history), NewFlows)), now) as real
    {
      EngineKeepsInvariants(state.cfg, history);
      assert CountersExact(state.Contents());
      activeFlows := |state.flows|;
      halfOpenMax := state.HalfOpenMax();
      forall s ensures |CountedKeys(state.flows, s)| <= halfOpenMax {
        assert HalfOpenFor(state.halfOpen, s) == |CountedKeys(state.flows, s)|;
      }
      if halfOpenMax > 0 {
        var s :| s in state.halfOpen && state.halfOpen[s] == halfOpenMax;
        assert HalfOpenFor(state.halfOpen, s) == |CountedKeys(state.flows, s)|;
      }
      rstPerSec := state.rstRate.PerSec(now);
      newFlowPerSec := state.newFlowRate.PerSec(now);
      RingsHoldHistory(state.cfg, history, Resets);
      RingsHoldHistory(state.cfg, history, NewFlows);
      OneSecondRing(state.rstRate.Model(), now);
      OneSecondRing(state.newFlowRate.Model(), now);
    }

    /** A sweep on a timer, as live captures with gaps call it. */
    method Sweep(now: u64) returns (out: seq<Event>)
      requires Valid()
      modifies state`flows, state`halfOpen, this`history
      ensures Valid() && history == old(history) + [SweepAt(now)]
      ensures multiset(out) == multiset(SweptEvents(state.cfg, old(Model()), SweepAt(now)))
    {
      ghost var before := Model();
      out := SweepFlows(now);
      history := history + [SweepAt(now)];
      EngineSnoc(state.cfg, old(history), SweepAt(now));
      assert Model() == SweepModel(state.cfg, before, now);
    }
  }

  lemma EngineSnoc(cfg: DetectConfig, steps: seq<Step>, step: Step)
    ensures RunEngine(cfg, steps + [step]) == ApplyStep(cfg, RunEngine(cfg, steps), step)
  {
    assert (steps + [step])[..|steps|] == steps;
  }

  lemma FlagNothing(t: Table)
    ensures FlagTable(t, Elements([])) == t
  {
    assert Elements<FlowKey>([]) == {};
    assert FlagKeys(t.flows, {}) == t.flows;
    DropNothing(t.halfOpen, t.flows);
  }

  lemma EvictNothing(t: Table)
    ensures EvictTable(t, Elements([])) == t
  {
    assert Elements<FlowKey>([]) == {};
    assert t.flows - {} == t.flows;
    DropNothing(t.halfOpen, t.flows);
  }

  lemma {:induction false} DistinctIsSet<T(!new)>(q: seq<T>)
    requires forall i, j | 0 <= i < j < |q| :: q[i] != q[j]
    ensures multiset(q) == multiset(Elements(q))
  {
    if q != [] {
      var init, last := q[..|q| - 1], q[|q| - 1];
      DistinctIsSet(init);
      assert q == init + [last];
      assert Elements(q) == Elements(init) + {last};
    }
  }

  /** The reports on a list of flows, in its order. */
  function EventsFor(ks: seq<FlowKey>, flows: map<FlowKey, FlowState>, now: u64): (out: seq<Event>)
    requires Elements(ks) <= flows.Keys
    ensures |out| == |ks|
    ensures forall i | 0 <= i < |ks| :: ks[i] in flows && out[i] == TimeoutEvent(ks[i], flows[ks[i]], now)
  {
    if ks == [] then []
    else
      assert Elements(ks[..|ks| - 1]) <= Elements(ks) && ks[|ks| - 1] in Elements(ks);
      EventsFor(ks[..|ks| - 1], flows, now) + [TimeoutEvent(ks[|ks| - 1], flows[ks[|ks| - 1]], now)]
  }

  /** Events that name distinct flows form a set. */
  lemma EventsOfList(out: seq<Event>, ks: seq<FlowKey>, t: Table, now: u64)
    requires Lists(ks, Elements(ks)) && Elements(ks) <= t.flows.Keys && out == EventsFor(ks, t.flows, now)
    ensures multiset(out) == multiset(set k | k in ks :: TimeoutEvent(k, t.flows[k], now))
  {
    hide EventsFor;
    var events := set k | k in ks :: TimeoutEvent(k, t.flows[k], now);
    forall i, j | 0 <= i < j < |out| ensures out[i] != out[j] {
      assert out[i].key == ks[i] && out[j].key == ks[j];
    }
    DistinctIsSet(out);
    forall e ensures e in Elements(out) <==> e in events {
      if e in Elements(out) {
        var i :| 0 <= i < |out| && out[i] == e;
        assert ks[i] in ks;
      }
      if e in events {
        var k :| k in ks && e == TimeoutEvent(k, t.flows[k], now);
        var i :| 0 <= i < |ks| && ks[i] == k;
        assert out[i] == e;
      }
    }
    assert Elements(out) == events;
  }
}
