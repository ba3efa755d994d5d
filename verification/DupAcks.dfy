/**
 Duplicate-ACK alerts: one for each burst of equal acknowledgements that is longer
 than the threshold, whatever is interleaved with the burst, until the 32-bit
 counter wraps.
 */
module DupAcks {
  import opened Types
  import opened Flow
  import opened Table
  import opened Traces
  import opened Records

  /** The detector's rule. */
  predicate Fires(threshold: u32, delta: PacketDelta) {
    delta.isDupAck && delta.dupAckCount == threshold
  }

  /** The alerts raised for direction `d` over a life. */
  function Alerts(cfg: DetectConfig, f: FlowState, ops: seq<Op>, d: Direction): nat {
    if ops == [] then 0
    else
      var init, last := ops[..|ops| - 1], ops[|ops| - 1];
      Alerts(cfg, f, init, d) +
      One(last.Pkt? && last.p.dir == d && Fires(cfg.dupAckThreshold, StepDelta(RunOps(cfg, f, init), last.p)))
  }

  predicate AcksIn(op: Op, d: Direction) {
    Is(op, OrdinaryKind) && op.p.dir == d && AckBit(op.p) && !FinBit(op.p) && op.p.payloadLen == 0
  }

  /** The acknowledgement numbers of the bare ACKs of direction `d`. */
  function Acks(ops: seq<Op>, d: Direction): seq<u32> {
    if ops == [] then []
    else
      var init := Acks(ops[..|ops| - 1], d);
      if AcksIn(ops[|ops| - 1], d) then init + [ops[|ops| - 1].p.ack] else init
  }

  // ---- Only the bare ACKs matter ---------------------------------------------------

  datatype AckState = AckState(last: Option<u32>, dups: u32, alerts: nat)

  function AckStep(threshold: u32, s: AckState, ack: u32): AckState {
    if s.last == Some(ack) then AckState(s.last, WrapAdd(s.dups, 1), s.alerts + One(WrapAdd(s.dups, 1) == threshold))
    else AckState(Some(ack), 0, s.alerts)
  }

  function AckRun(threshold: u32, acks: seq<u32>): AckState {
    if acks == [] then AckState(None, 0, 0)
    else AckStep(threshold, AckRun(threshold, acks[..|acks| - 1]), acks[|acks| - 1])
  }

  lemma AckRunSnoc(threshold: u32, acks: seq<u32>, ack: u32)
    ensures AckRun(threshold, acks + [ack]) == AckStep(threshold, AckRun(threshold, acks), ack)
  {
    assert (acks + [ack])[..|acks|] == acks;
  }

  lemma StepAcks(cfg: DetectConfig, f: FlowState, op: Op, d: Direction)
    ensures
      var g := ApplyOp(cfg, f, op);
      var fires := op.Pkt? && op.p.dir == d && Fires(cfg.dupAckThreshold, StepDelta(f, op.p));
      if AcksIn(op, d) then
        AckState(g.lastAck.At(d), g.dupAcks.At(d), One(fires)) ==
        AckStep(cfg.dupAckThreshold, AckState(f.lastAck.At(d), f.dupAcks.At(d), 0), op.p.ack)
      else
        g.lastAck.At(d) == f.lastAck.At(d) && g.dupAcks.At(d) == f.dupAcks.At(d) && !fires
  {
    hide OnOrdinary, TrackDelta, RttSample, WrapAdd;
    if Is(op, OrdinaryKind) {
      OrdinaryAcks(f, op.p, d);
    }
  }

  /** What an ordinary segment does to the acknowledgement state of a direction. */
  lemma OrdinaryAcks(f: FlowState, p: PacketMeta, d: Direction)
    requires KindOf(p) == OrdinaryKind
    ensures
      var g, delta := StepFlow(f, p), StepDelta(f, p);
      var last, dups := f.lastAck.At(d), f.dupAcks.At(d);
      if p.dir == d && BareAck(p) then
        && g.lastAck.At(d) == Some(p.ack)
        && g.dupAcks.At(d) == (if last == Some(p.ack) then WrapAdd(dups, 1) else 0)
        && delta.isDupAck == (last == Some(p.ack))
        && (delta.isDupAck ==> delta.dupAckCount == WrapAdd(dups, 1))
      else g.lastAck.At(d) == last && g.dupAcks.At(d) == dups && (p.dir == d ==> !delta.isDupAck)
  {
    hide ExpectedAfter, Displacement, WrapAdd, WindowCounts, StateAfter, Establishes;
  }

  lemma {:induction false} OnlyBareAcksMatter(cfg: DetectConfig, p0: PacketMeta, ops: seq<Op>, d: Direction)
    ensures
      var f := RunOps(cfg, NewFlow(p0), ops);
      AckState(f.lastAck.At(d), f.dupAcks.At(d), Alerts(cfg, NewFlow(p0), ops, d)) ==
      AckRun(cfg.dupAckThreshold, Acks(ops, d))
  {
    if ops != [] {
      var init, last := ops[..|ops| - 1], ops[|ops| - 1];
      OnlyBareAcksMatter(cfg, p0, init, d);
      StepAcks(cfg, RunOps(cfg, NewFlow(p0), init), last, d);
      if AcksIn(last, d) {
        AckRunSnoc(cfg.dupAckThreshold, Acks(init, d), last.p.ack);
      }
    }
  }

  // ---- Bursts ------------------------------------------------------------------------

  datatype Burst = Burst(ack: u32, len: nat)

  function Repeat(ack: u32, n: nat): (r: seq<u32>) {
    if n == 0 then [] else Repeat(ack, n - 1) + [ack]
  }

  function Flatten(bursts: seq<Burst>): seq<u32> {
    if bursts == [] then []
    else
      var b := bursts[|bursts| - 1];
      Flatten(bursts[..|bursts| - 1]) + Repeat(b.ack, b.len)
  }

  /** Nonempty bursts, no two neighbours of which could be merged. */
  ghost predicate Maximal(bursts: seq<Burst>) {
    && (forall i | 0 <= i < |bursts| :: bursts[i].len > 0)
    && (forall i, j | 0 <= i < j < |bursts| && j == i + 1 :: bursts[i].ack != bursts[j].ack)
  }

  function LongBursts(threshold: nat, bursts: seq<Burst>): nat {
    if bursts == [] then 0
    else LongBursts(threshold, bursts[..|bursts| - 1]) + One(bursts[|bursts| - 1].len > threshold)
  }

  const WRAP: nat := 0x1_0000_0000

  /** The alerts of one burst of `len` equal ACKs: how many of 1, ..., len - 1 are the
      threshold modulo 2^32. */
  function AlertsIn(threshold: u32, len: nat): nat
    requires len > 0
  {
    (len - 1 + if threshold == 0 then 0 else WRAP - threshold) / WRAP
  }

  lemma OneMoreAck(threshold: u32, len: nat)
    requires len > 0
    ensures AlertsIn(threshold, len + 1) == AlertsIn(threshold, len) + One(len % WRAP == threshold)
    ensures AlertsIn(threshold, 1) == 0
  {
    var x := len - 1 + if threshold == 0 then 0 else WRAP - threshold;
    assert (x + 1) / WRAP == x / WRAP + One((x + 1) % WRAP == 0);
    assert (x + 1) % WRAP == 0 <==> len % WRAP == threshold;
  }

  /** One alert per long burst, none under a zero threshold: exactly while the counter does not
      come round to the threshold again. */
  lemma OncePerBurst(threshold: u32, len: nat)
    requires len > 0
    ensures AlertsIn(threshold, len) == One(threshold > 0 && len > threshold) <==> len <= WRAP + threshold
  {
    var x := len - 1 + if threshold == 0 then 0 else WRAP - threshold;
    assert x < WRAP ==> x / WRAP == 0;
    assert WRAP <= x < 2 * WRAP ==> x / WRAP == 1;
    assert x >= 2 * WRAP ==> x / WRAP >= 2;
  }

  /** The alerts of all bursts. */
  function AlertsInAll(threshold: u32, bursts: seq<Burst>): nat
    requires Maximal(bursts)
  {
    if bursts == [] then 0
    else AlertsInAll(threshold, bursts[..|bursts| - 1]) + AlertsIn(threshold, bursts[|bursts| - 1].len)
  }

  /** A burst that starts fresh ends with its own length, having alerted as often as its length says. */
  lemma {:induction false} RunBurst(threshold: u32, before: seq<u32>, ack: u32, n: nat)
    requires n > 0 && AckRun(threshold, before).last != Some(ack)
    ensures AckRun(threshold, before + Repeat(ack, n)) ==
            AckState(Some(ack), (n - 1) % WRAP, AckRun(threshold, before).alerts + AlertsIn(threshold, n))
  {
    hide AckRun, AlertsIn, WrapAdd;
    assert before + Repeat(ack, n) == before + Repeat(ack, n - 1) + [ack];
    AckRunSnoc(threshold, before + Repeat(ack, n - 1), ack);
    if n == 1 {
      assert before + Repeat(ack, 0) == before;
      OneMoreAck(threshold, 1);
    } else {
      RunBurst(threshold, before, ack, n - 1);
      OneMoreAck(threshold, n - 1);
      WrapsOn(n - 2);
    }
  }

  lemma WrapsOn(n: nat)
    ensures WrapAdd(n % WRAP, 1) == (n + 1) % WRAP
  {
  }

  lemma {:induction false} RunBursts(threshold: u32, bursts: seq<Burst>)
    requires Maximal(bursts)
    ensures
      var s := AckRun(threshold, Flatten(bursts));
      s.alerts == AlertsInAll(threshold, bursts) &&
      if bursts == [] then s.last == None
      else s.last == Some(bursts[|bursts| - 1].ack) && s.dups == (bursts[|bursts| - 1].len - 1) % WRAP
  {
    if bursts != [] {
      hide AckRun, AlertsIn, Repeat;
      var init, b := bursts[..|bursts| - 1], bursts[|bursts| - 1];
      RunBursts(threshold, init);
      RunBurst(threshold, Flatten(init), b.ack, b.len);
    }
  }

  /** The counter has room: no burst goes round to the threshold twice. */
  ghost predicate Room(threshold: u32, bursts: seq<Burst>) {
    forall i | 0 <= i < |bursts| :: bursts[i].len <= WRAP + threshold
  }

  lemma {:induction false} RoomForAll(threshold: u32, bursts: seq<Burst>)
    requires Maximal(bursts) && Room(threshold, bursts)
    ensures AlertsInAll(threshold, bursts) == if threshold == 0 then 0 else LongBursts(threshold, bursts)
  {
    if bursts != [] {
      RoomForAll(threshold, bursts[..|bursts| - 1]);
      OncePerBurst(threshold, bursts[|bursts| - 1].len);
    }
  }

  function AddAck(bursts: seq<Burst>, ack: u32): seq<Burst> {
    var n := |bursts| - 1;
    if n >= 0 && bursts[n].ack == ack then bursts[..n] + [Burst(ack, bursts[n].len + 1)]
    else bursts + [Burst(ack, 1)]
  }

  lemma FlattenSnoc(bursts: seq<Burst>, b: Burst)
    ensures Flatten(bursts + [b]) == Flatten(bursts) + Repeat(b.ack, b.len)
  {
    assert (bursts + [b])[..|bursts|] == bursts;
  }

  lemma AddAckMaximal(bursts: seq<Burst>, ack: u32)
    requires Maximal(bursts)
    ensures Maximal(AddAck(bursts, ack))
  {
  }

  lemma GrowLast(init: seq<Burst>, ack: u32, n: nat)
    ensures Flatten(init + [Burst(ack, n + 1)]) == Flatten(init + [Burst(ack, n)]) + [ack]
  {
    hide Flatten;
    FlattenSnoc(init, Burst(ack, n + 1));
    FlattenSnoc(init, Burst(ack, n));
    assert Flatten(init) + (Repeat(ack, n) + [ack]) == (Flatten(init) + Repeat(ack, n)) + [ack];
  }

  lemma AddAckFlattens(bursts: seq<Burst>, ack: u32)
    ensures Flatten(AddAck(bursts, ack)) == Flatten(bursts) + [ack]
  {
    hide Flatten;
    var n := |bursts| - 1;
    if n >= 0 && bursts[n].ack == ack {
      GrowLast(bursts[..n], ack, bursts[n].len);
      assert bursts == bursts[..n] + [Burst(ack, bursts[n].len)];
    } else {
      FlattenSnoc(bursts, Burst(ack, 1));
      assert Repeat(ack, 1) == Repeat(ack, 0) + [ack] == [ack];
    }
  }

  /** Every sequence falls into maximal bursts. */
  function BurstsOf(acks: seq<u32>): (r: seq<Burst>)
    ensures Maximal(r) && Flatten(r) == acks
  {
    if acks == [] then []
    else
      var n := |acks| - 1;
      assert acks == acks[..n] + [acks[n]];
      AddAckMaximal(BurstsOf(acks[..n]), acks[n]);
      AddAckFlattens(BurstsOf(acks[..n]), acks[n]);
      AddAck(BurstsOf(acks[..n]), acks[n])
  }

  /** However a direction's bare ACKs fall into maximal bursts, and whatever else the life
      holds, each burst alerts as often as its length says; while the counter has room, the
      alerts number the bursts longer than the threshold, and a zero threshold never alerts. */
  lemma AlertsAreLongBursts(cfg: DetectConfig, p0: PacketMeta, ops: seq<Op>, d: Direction, bursts: seq<Burst>)
    requires Maximal(bursts) && Flatten(bursts) == Acks(ops, d)
    ensures Alerts(cfg, NewFlow(p0), ops, d) == AlertsInAll(cfg.dupAckThreshold, bursts)
    ensures Room(cfg.dupAckThreshold, bursts) ==>
            Alerts(cfg, NewFlow(p0), ops, d) ==
            if cfg.dupAckThreshold == 0 then 0 else LongBursts(cfg.dupAckThreshold, bursts)
  {
    OnlyBareAcksMatter(cfg, p0, ops, d);
    RunBursts(cfg.dupAckThreshold, bursts);
    if Room(cfg.dupAckThreshold, bursts) {
      RoomForAll(cfg.dupAckThreshold, bursts);
    }
  }

  /** The burst that the last acknowledgement belongs to. */
  function LastBurst(acks: seq<u32>): (b: Burst)
    requires acks != []
    ensures b.len > 0
  {
    BurstsOf(acks)[|BurstsOf(acks)| - 1]
  }

  /** The burst has come round to the threshold: the number of repetitions is the threshold modulo 2^32. */
  predicate Reaches(threshold: u32, b: Burst) {
    b.len > 1 && (b.len - 1) % WRAP == threshold
  }

  /** Short of a wrap that is once, with the threshold's own number of repetitions. */
  lemma ReachesOnce(threshold: u32, b: Burst)
    requires 0 < b.len <= WRAP
    ensures Reaches(threshold, b) <==> threshold > 0 && b.len == threshold + 1
  {
  }

  lemma LastBurstGrows(acks: seq<u32>, ack: u32)
    ensures
      var b := LastBurst(acks + [ack]);
      if acks != [] && LastBurst(acks).ack == ack then b == Burst(ack, LastBurst(acks).len + 1) else b == Burst(ack, 1)
  {
    assert (acks + [ack])[..|acks|] == acks;
  }

  /** An alert is raised by a bare ACK, exactly when its burst has come round to the threshold. */
  lemma FiresByBurst(cfg: DetectConfig, p0: PacketMeta, ops: seq<Op>)
    requires ops != [] && ops[|ops| - 1].Pkt?
    ensures
      var last := ops[|ops| - 1];
      Fires(cfg.dupAckThreshold, DeltaAt(cfg, NewFlow(p0), ops, |ops| - 1)) <==>
      AcksIn(last, last.p.dir) && Reaches(cfg.dupAckThreshold, LastBurst(Acks(ops, last.p.dir)))
  {
    hide StepDelta, ApplyOp, Fires, AckRun, BurstsOf, LastBurst, WrapAdd;
    var init, last, th := ops[..|ops| - 1], ops[|ops| - 1], cfg.dupAckThreshold;
    var d := last.p.dir;
    var acks, f := Acks(init, d), RunOps(cfg, NewFlow(p0), init);
    OnlyBareAcksMatter(cfg, p0, init, d);
    StepAcks(cfg, f, last, d);
    if AcksIn(last, d) {
      LastBurstGrows(acks, last.p.ack);
      LastState(th, acks);
      if acks != [] {
        WrapsOn(LastBurst(acks).len - 1);
      }
    }
  }

  lemma LastState(threshold: u32, acks: seq<u32>)
    ensures
      var s := AckRun(threshold, acks);
      if acks == [] then s.last == None
      else s.last == Some(LastBurst(acks).ack) && s.dups == (LastBurst(acks).len - 1) % WRAP
  {
    RunBursts(threshold, BurstsOf(acks));
  }
}
