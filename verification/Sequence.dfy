/**
 The wrapped 32-bit sequence tracking of a record refines unbounded sequence
 numbers (section 3.4 of RFC 9293).
 */
module Sequence {
  import opened Types
  import opened Flow
  import opened Table
  import opened Traces
  import opened Records

  const WORD: int := 0x1_0000_0000
  const HALF: int := 0x8000_0000

  function Wrap(a: int): u32 {
    a % 0x1_0000_0000
  }

  /** The wrapped distance is the true one exactly within half the number space. */
  lemma SeqDiffExact(a: int, b: int)
    ensures SeqDiff(Wrap(a), Wrap(b)) == a - b <==> -HALF <= a - b < HALF
  {
    assert (Wrap(a) - Wrap(b)) % WORD == (a - b) % WORD;
  }

  lemma WrapAddExact(a: int, n: u32)
    ensures WrapAdd(Wrap(a), n) == Wrap(a + n)
  {
  }

  // ---- The reference: unbounded numbers ------------------------------------------

  predicate Anchors(op: Op) {
    Is(op, SynKind) || Is(op, SynAckKind)
  }

  predicate Carries(op: Op) {
    Is(op, OrdinaryKind) && op.p.payloadLen > 0
  }

  /** `truth[i]` is the unbounded sequence number of operation `i`, if it is a packet. */
  ghost predicate Faithful(ops: seq<Op>, truth: seq<int>) {
    |truth| == |ops| && forall i | 0 <= i < |ops| && ops[i].Pkt? :: ops[i].p.seqNo == Wrap(truth[i])
  }

  /** The unbounded ends that direction `d` has shown since its last SYN or SYN-ACK. */
  ghost function Ends(ops: seq<Op>, truth: seq<int>, d: Direction): seq<int>
    requires |truth| == |ops|
  {
    if ops == [] then []
    else
      var n := |ops| - 1;
      var before := Ends(ops[..n], truth[..n], d);
      if Anchors(ops[n]) && ops[n].p.dir == d then [truth[n] + 1]
      else if Carries(ops[n]) && ops[n].p.dir == d then before + [truth[n] + ops[n].p.payloadLen]
      else before
  }

  ghost function MaxOf(s: seq<int>): (m: int)
    requires s != []
    ensures m in s && forall i | 0 <= i < |s| :: s[i] <= m
  {
    if |s| == 1 then s[0]
    else
      var m := MaxOf(s[..|s| - 1]);
      if s[|s| - 1] > m then s[|s| - 1] else m
  }

  /** The high-water mark: the furthest end shown since the last anchor. */
  ghost function Mark(ops: seq<Op>, truth: seq<int>, d: Direction): Option<int>
    requires |truth| == |ops|
  {
    var ends := Ends(ops, truth, d);
    if ends == [] then None else Some(MaxOf(ends))
  }

  ghost predicate BelowMark(ops: seq<Op>, truth: seq<int>, i: nat)
    requires |truth| == |ops| && i < |ops|
  {
    Carries(ops[i]) &&
    var mark := Mark(ops[..i], truth[..i], ops[i].p.dir);
    mark.Some? && truth[i] < mark.value
  }

  ghost predicate AboveMark(ops: seq<Op>, truth: seq<int>, i: nat)
    requires |truth| == |ops| && i < |ops|
  {
    Carries(ops[i]) &&
    var mark := Mark(ops[..i], truth[..i], ops[i].p.dir);
    mark.Some? && truth[i] > mark.value
  }

  ghost function TrueRetransmits(ops: seq<Op>, truth: seq<int>): nat
    requires |truth| == |ops|
  {
    if ops == [] then 0
    else
      var n := |ops| - 1;
      TrueRetransmits(ops[..n], truth[..n]) + One(BelowMark(ops, truth, n))
  }

  function Segments(ops: seq<Op>): nat {
    if ops == [] then 0 else Segments(ops[..|ops| - 1]) + One(Carries(ops[|ops| - 1]))
  }

  /** Data stays within half the number space of the high-water mark. */
  ghost predicate NearMark(ops: seq<Op>, truth: seq<int>, i: nat)
    requires |truth| == |ops| && i < |ops|
  {
    Carries(ops[i]) ==>
      var mark := Mark(ops[..i], truth[..i], ops[i].p.dir);
      mark.Some? ==> -HALF <= truth[i] - mark.value && truth[i] + ops[i].p.payloadLen - mark.value < HALF
  }

  ghost predicate AllNear(ops: seq<Op>, truth: seq<int>)
    requires |truth| == |ops|
  {
    forall i | 0 <= i < |ops| :: NearMark(ops, truth, i)
  }

  // ---- The refinement ------------------------------------------------------------

  function WrapMark(mark: Option<int>): Option<u32> {
    if mark.Some? then Some(Wrap(mark.value)) else None
  }

  /** One data segment moves the wrapped expectation as it moves the unbounded mark. */
  lemma SegmentRefines(mark: Option<int>, start: int, p: PacketMeta)
    requires p.seqNo == Wrap(start) && p.payloadLen > 0
    requires mark.Some? ==> -HALF <= start - mark.value && start + p.payloadLen - mark.value < HALF
    ensures
      var end := start + p.payloadLen;
      ExpectedAfter(WrapMark(mark), p) ==
      WrapMark(Some(if mark.Some? && mark.value >= end then mark.value else end))
    ensures Displacement(WrapMark(mark), p) < 0 <==> mark.Some? && start < mark.value
    ensures Displacement(WrapMark(mark), p) > 0 <==> mark.Some? && start > mark.value
  {
    WrapAddExact(start, p.payloadLen);
    if mark.Some? {
      SeqDiffExact(start, mark.value);
      SeqDiffExact(start + p.payloadLen, mark.value);
    }
  }

  lemma MarkSnoc(ops: seq<Op>, truth: seq<int>, d: Direction)
    requires |truth| == |ops| && ops != []
    ensures
      var n := |ops| - 1;
      var before, after := Mark(ops[..n], truth[..n], d), Mark(ops, truth, d);
      if Anchors(ops[n]) && ops[n].p.dir == d then after == Some(truth[n] + 1)
      else if Carries(ops[n]) && ops[n].p.dir == d then
        var end := truth[n] + ops[n].p.payloadLen;
        after == Some(if before.Some? && before.value >= end then before.value else end)
      else after == before
  {
    var n := |ops| - 1;
    var before := Ends(ops[..n], truth[..n], d);
    if Carries(ops[n]) && ops[n].p.dir == d && !Anchors(ops[n]) {
      var end := truth[n] + ops[n].p.payloadLen;
      assert (before + [end])[..|before|] == before;
    }
  }

  lemma StepExpected(cfg: DetectConfig, f: FlowState, op: Op, d: Direction)
    ensures
      var here := op.Pkt? && op.p.dir == d;
      ApplyOp(cfg, f, op).nextSeq.At(d) ==
      if Anchors(op) && here then Some(WrapAdd(op.p.seqNo, 1))
      else if Carries(op) && here then ExpectedAfter(f.nextSeq.At(d), op.p)
      else f.nextSeq.At(d)
  {
    hide ExpectedAfter, Displacement, DupAcksAfter, RttSample, WrapAdd, WindowCounts, StateAfter, Establishes, BareAck;
    ExpectedWithoutData(f.nextSeq.At(d), op);
  }

  lemma StepCounts(cfg: DetectConfig, f: FlowState, op: Op)
    ensures
      var g := ApplyOp(cfg, f, op);
      && g.dataSegments == f.dataSegments + One(Carries(op))
      && g.retransmits == f.retransmits + One(Carries(op) && Displacement(f.nextSeq.At(op.p.dir), op.p) < 0)
  {
    hide ExpectedAfter, Displacement, DupAcksAfter, RttSample, WrapAdd, WindowCounts, StateAfter, Establishes, BareAck;
    if op.Pkt? {
      ExpectedWithoutData(f.nextSeq.At(op.p.dir), op);
    }
  }

  lemma ExpectedWithoutData(expected: Option<u32>, op: Op)
    ensures op.Pkt? && op.p.payloadLen == 0 ==>
            ExpectedAfter(expected, op.p) == expected && Displacement(expected, op.p) == 0
  {
  }

  lemma FaithfulPrefix(ops: seq<Op>, truth: seq<int>, n: nat)
    requires Faithful(ops, truth) && AllNear(ops, truth) && n <= |ops|
    ensures Faithful(ops[..n], truth[..n]) && AllNear(ops[..n], truth[..n])
  {
    forall i | 0 <= i < n ensures NearMark(ops[..n], truth[..n], i) {
      assert ops[..n][..i] == ops[..i] && truth[..n][..i] == truth[..i];
      assert NearMark(ops, truth, i);
    }
  }

  /** The last operation moves the wrapped expectation of a direction as it moves the mark. */
  lemma MarkStep(cfg: DetectConfig, f: FlowState, ops: seq<Op>, truth: seq<int>, d: Direction)
    requires Faithful(ops, truth) && ops != [] && NearMark(ops, truth, |ops| - 1)
    requires f.nextSeq.At(d) == WrapMark(Mark(ops[..|ops| - 1], truth[..|ops| - 1], d))
    ensures ApplyOp(cfg, f, ops[|ops| - 1]).nextSeq.At(d) == WrapMark(Mark(ops, truth, d))
  {
    hide ApplyOp, Mark, ExpectedAfter, Displacement, WrapAdd;
    var n := |ops| - 1;
    StepExpected(cfg, f, ops[n], d);
    MarkSnoc(ops, truth, d);
    if Carries(ops[n]) && ops[n].p.dir == d {
      SegmentRefines(Mark(ops[..n], truth[..n], d), truth[n], ops[n].p);
    } else if Anchors(ops[n]) {
      WrapAddExact(truth[n], 1);
    }
  }

  /** Over any life, in both directions at once, the stored sequence number is the
      unbounded high-water mark modulo 2^32, and the retransmission counter counts
      exactly the segments that started below it, out of all data segments. */
  lemma {:induction false} SequenceRefinement(cfg: DetectConfig, p0: PacketMeta, ops: seq<Op>, truth: seq<int>)
    requires Faithful(ops, truth) && AllNear(ops, truth)
    ensures forall d :: RunOps(cfg, NewFlow(p0), ops).nextSeq.At(d) == WrapMark(Mark(ops, truth, d))
    ensures RunOps(cfg, NewFlow(p0), ops).retransmits == TrueRetransmits(ops, truth)
    ensures RunOps(cfg, NewFlow(p0), ops).dataSegments == Segments(ops)
  {
    if ops != [] {
      hide ApplyOp, Mark, ExpectedAfter, Displacement, NewFlow;
      var n := |ops| - 1;
      FaithfulPrefix(ops, truth, n);
      SequenceRefinement(cfg, p0, ops[..n], truth[..n]);
      var f := RunOps(cfg, NewFlow(p0), ops[..n]);
      assert NearMark(ops, truth, n);
      forall d ensures ApplyOp(cfg, f, ops[n]).nextSeq.At(d) == WrapMark(Mark(ops, truth, d)) {
        MarkStep(cfg, f, ops, truth, d);
      }
      StepCounts(cfg, f, ops[n]);
      if Carries(ops[n]) {
        SegmentRefines(Mark(ops[..n], truth[..n], ops[n].p.dir), truth[n], ops[n].p);
      }
    }
  }

  /** Each segment is reported as a retransmission exactly when it truly starts below
      the mark, and as out of order exactly when it truly starts above it. */
  lemma SegmentVerdicts(cfg: DetectConfig, p0: PacketMeta, ops: seq<Op>, truth: seq<int>, i: nat)
    requires Faithful(ops, truth) && AllNear(ops, truth) && i < |ops| && ops[i].Pkt?
    ensures DeltaAt(cfg, NewFlow(p0), ops, i).isRetransmit <==> BelowMark(ops, truth, i)
    ensures DeltaAt(cfg, NewFlow(p0), ops, i).isOutOfOrder <==> AboveMark(ops, truth, i)
  {
    FaithfulPrefix(ops, truth, i);
    SequenceRefinement(cfg, p0, ops[..i], truth[..i]);
    assert NearMark(ops, truth, i);
    if Carries(ops[i]) {
      SegmentRefines(Mark(ops[..i], truth[..i], ops[i].p.dir), truth[i], ops[i].p);
    }
  }
}
