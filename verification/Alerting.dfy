/**
 The debounce that spaces host-wide alerts.
 */
module Alerting {
  import opened Types

  /** `last` is the time of the last alert; 0 stands for "none yet". */
  datatype Gate = Gate(last: u64, gap: nat)

  predicate IsReady(g: Gate, now: u64) {
    SatSub(now, g.last) >= g.gap || g.last == 0
  }

  function Consult(g: Gate, now: u64): Gate {
    if IsReady(g, now) then g.(last := now) else g
  }

  class Debounce {
    var lastNs: u64
    const gapNs: nat

    ghost function Model(): Gate
      reads this
    {
      Gate(lastNs, gapNs)
    }

    constructor (gapSecs: nat)
      ensures Model() == Gate(0, gapSecs * NS_PER_SEC)
    {
      lastNs := 0;
      gapNs := gapSecs * NS_PER_SEC;
    }

    method Ready(now: u64) returns (ready: bool)
      modifies this
      ensures ready == IsReady(old(Model()), now)
      ensures Model() == Consult(old(Model()), now)
    {
      if SatSub(now, lastNs) >= gapNs || lastNs == 0 {
        lastNs := now;
        ready := true;
      } else {
        ready := false;
      }
    }
  }

  // ---- Whole runs of a gate --------------------------------------------------------

  function GateOf(gap: nat, calls: seq<u64>): (g: Gate)
    ensures g.gap == gap
  {
    if calls == [] then Gate(0, gap) else Consult(GateOf(gap, calls[..|calls| - 1]), calls[|calls| - 1])
  }

  /** The times at which the gate let an alert through. */
  function AlertTimes(gap: nat, calls: seq<u64>): seq<u64> {
    if calls == [] then []
    else
      var init, now := calls[..|calls| - 1], calls[|calls| - 1];
      if IsReady(GateOf(gap, init), now) then AlertTimes(gap, init) + [now] else AlertTimes(gap, init)
  }

  ghost predicate Spaced(times: seq<u64>, gap: nat) {
    forall i, j | 0 <= i < j < |times| && j == i + 1 :: times[i] + gap <= times[j]
  }

  lemma {:induction false} GateRemembersLast(gap: nat, calls: seq<u64>)
    ensures
      var times := AlertTimes(gap, calls);
      GateOf(gap, calls).last == if times == [] then 0 else times[|times| - 1]
    ensures calls != [] ==> AlertTimes(gap, calls) != []
  {
    if calls != [] {
      GateRemembersLast(gap, calls[..|calls| - 1]);
    }
  }

  /** Once a nonzero alert is remembered, every later alert keeps the distance. */
  lemma {:induction false} StaysSpaced(gap: nat, calls: seq<u64>, n: nat)
    requires gap > 0 && n <= |calls| && GateOf(gap, calls[..n]).last > 0 && Spaced(AlertTimes(gap, calls[..n]), gap)
    ensures Spaced(AlertTimes(gap, calls), gap) && GateOf(gap, calls).last > 0
    ensures AlertTimes(gap, calls[..n]) <= AlertTimes(gap, calls)
    decreases |calls|
  {
    if n == |calls| {
      assert calls[..n] == calls;
    } else {
      var init := calls[..|calls| - 1];
      assert init[..n] == calls[..n];
      StaysSpaced(gap, init, n);
      GateRemembersLast(gap, init);
    }
  }

  lemma FirstCalls(gap: nat, calls: seq<u64>)
    requires |calls| >= 2
    ensures GateOf(gap, calls[..1]) == Gate(calls[0], gap) && AlertTimes(gap, calls[..1]) == [calls[0]]
    ensures calls[0] == 0 ==>
            GateOf(gap, calls[..2]) == Gate(calls[1], gap) && AlertTimes(gap, calls[..2]) == [0, calls[1]]
  {
    assert calls[..1][..0] == [] && calls[..2][..1] == calls[..1];
  }

  lemma {:induction false} AlertsOnlyGrow(gap: nat, calls: seq<u64>, n: nat)
    requires n <= |calls|
    ensures AlertTimes(gap, calls[..n]) <= AlertTimes(gap, calls)
    decreases |calls|
  {
    if n == |calls| {
      assert calls[..n] == calls;
    } else {
      assert calls[..|calls| - 1][..n] == calls[..n];
      AlertsOnlyGrow(gap, calls[..|calls| - 1], n);
    }
  }

  /** Over any run, even with the clock going back, alerts keep the configured gap if
      and only if the run does not open with an alert at time zero followed by a call
      within the gap: zero is also the mark for "never fired". */
  lemma SpacedExactly(gap: nat, calls: seq<u64>)
    requires gap > 0
    ensures Spaced(AlertTimes(gap, calls), gap) <==> |calls| < 2 || calls[0] != 0 || calls[1] >= gap
  {
    if |calls| == 1 {
      assert calls[..0] == [];
      assert AlertTimes(gap, calls) == [calls[0]];
    } else if |calls| >= 2 {
      FirstCalls(gap, calls);
      if calls[0] != 0 {
        StaysSpaced(gap, calls, 1);
      } else if calls[1] >= gap {
        StaysSpaced(gap, calls, 2);
      } else {
        AlertsOnlyGrow(gap, calls, 2);
        var times := AlertTimes(gap, calls);
        assert times[0] == 0 && times[1] == calls[1];
      }
    }
  }

  /** `k` alerts of a spaced run span at least `k - 1` gaps. */
  lemma {:induction false} SpacedSpan(times: seq<u64>, gap: nat, i: nat, j: nat)
    requires Spaced(times, gap) && i <= j < |times|
    ensures times[j] - times[i] >= (j - i) * gap
    decreases j
  {
    if i < j {
      SpacedSpan(times, gap, i, j - 1);
      assert (j - i) * gap == (j - 1 - i) * gap + gap;
    }
  }

  /** A suppressed call comes less than one gap after the last alert. */
  lemma SuppressedIsRecent(gap: nat, calls: seq<u64>, i: nat)
    requires i < |calls| && !IsReady(GateOf(gap, calls[..i]), calls[i])
    ensures
      var times := AlertTimes(gap, calls[..i]);
      times != [] && calls[i] < times[|times| - 1] + gap
  {
    GateRemembersLast(gap, calls[..i]);
  }
}
