/**
 What the trace of one conversation says: the packets and sweeps that met its record,
 the creating packet first. Nothing here mentions a record.
 */
module Traces {
  import opened Types
  import opened Flow

  /** What happens to a record while it is in the table. */
  datatype Op = Pkt(p: PacketMeta) | Tick(now: u64)

  predicate Is(op: Op, kind: Kind) {
    op.Pkt? && InClass(op.p, kind)
  }

  predicate Fins(op: Op) {
    Is(op, OrdinaryKind) && FinBit(op.p)
  }

  predicate AcksIt(op: Op) {
    Is(op, OrdinaryKind) && AckBit(op.p)
  }

  /** The time of the last packet, zero if there is none. */
  function LastSeen(ops: seq<Op>): u64 {
    if ops == [] then 0 else if ops[|ops| - 1].Pkt? then ops[|ops| - 1].p.ts else LastSeen(ops[..|ops| - 1])
  }

  // ---- SYN and SYN-ACK times ---------------------------------------------------------------

  /** The first bare SYN of the trace is at position `i`. */
  predicate FirstSynAt(ops: seq<Op>, i: nat) {
    i < |ops| && Is(ops[i], SynKind) && forall j | 0 <= j < i :: !Is(ops[j], SynKind)
  }

  /** The time of the first bare SYN. */
  function FirstSyn(ops: seq<Op>): Option<u64> {
    if ops == [] then None
    else
      var init, last := FirstSyn(ops[..|ops| - 1]), ops[|ops| - 1];
      if init.None? && Is(last, SynKind) then Some(last.p.ts) else init
  }

  lemma {:induction false} FirstSynExactly(ops: seq<Op>)
    ensures FirstSyn(ops) == None <==> forall j | 0 <= j < |ops| :: !Is(ops[j], SynKind)
    ensures forall i: nat | FirstSynAt(ops, i) :: FirstSyn(ops) == Some(ops[i].p.ts)
  {
    if ops != [] {
      var n := |ops| - 1;
      FirstSynExactly(ops[..n]);
      assert forall j | 0 <= j < n :: ops[..n][j] == ops[j];
      forall i: nat | FirstSynAt(ops, i) ensures FirstSyn(ops) == Some(ops[i].p.ts) {
        assert i < n ==> FirstSynAt(ops[..n], i);
      }
    }
  }

  /** The time of the last SYN-ACK. */
  function LastSynAck(ops: seq<Op>): Option<u64> {
    if ops == [] then None
    else if Is(ops[|ops| - 1], SynAckKind) then Some(ops[|ops| - 1].p.ts)
    else LastSynAck(ops[..|ops| - 1])
  }

  /** The handshake round trip that the last SYN-ACK after a first SYN completed. */
  function LastRtt(ops: seq<Op>): Option<u64> {
    if ops == [] then None
    else
      var init, last := ops[..|ops| - 1], ops[|ops| - 1];
      if Is(last, SynAckKind) && FirstSyn(init).Some? then Some(SatSub(last.p.ts, FirstSyn(init).value))
      else LastRtt(init)
  }

  // ---- The phases of a connection ----------------------------------------------------------

  /** The first SYN has come, and no SYN-ACK, RST or FIN since. */
  ghost predicate AwaitsSynAck(ops: seq<Op>) {
    exists i: nat :: FirstSynAt(ops, i) && forall j | i < j < |ops| :: !Answers(ops[j])
  }

  predicate Answers(op: Op) {
    Is(op, SynAckKind) || Is(op, RstKind) || Fins(op)
  }

  /** A SYN-ACK has come, and no ACK, RST, FIN or first SYN since. */
  ghost predicate AwaitsAck(ops: seq<Op>) {
    exists i | 0 <= i < |ops| :: Is(ops[i], SynAckKind) && forall j | i < j < |ops| :: !Settles(ops, j)
  }

  predicate Settles(ops: seq<Op>, j: nat)
    requires j < |ops|
  {
    Is(ops[j], RstKind) || Fins(ops[j]) || AcksIt(ops[j]) || FirstSynAt(ops, j)
  }

  /** An ACK came while one was awaited. */
  ghost predicate WasEstablished(ops: seq<Op>) {
    exists i | 0 <= i < |ops| :: AcksIt(ops[i]) && AwaitsAck(ops[..i])
  }

  /** A FIN has come, and no SYN-ACK, RST or first SYN since. */
  ghost predicate IsClosing(ops: seq<Op>) {
    exists i | 0 <= i < |ops| :: Fins(ops[i]) && forall j | i < j < |ops| :: !Reopens(ops, j)
  }

  predicate Reopens(ops: seq<Op>, j: nat)
    requires j < |ops|
  {
    Is(ops[j], RstKind) || Is(ops[j], SynAckKind) || FirstSynAt(ops, j)
  }

  /** A RST has come, and no SYN-ACK, FIN or first SYN since. */
  ghost predicate WasReset(ops: seq<Op>) {
    exists i | 0 <= i < |ops| :: Is(ops[i], RstKind) && forall j | i < j < |ops| :: !Revives(ops, j)
  }

  predicate Revives(ops: seq<Op>, j: nat)
    requires j < |ops|
  {
    Is(ops[j], SynAckKind) || Fins(ops[j]) || FirstSynAt(ops, j)
  }

  /** The awaited ACK has come, without a FIN, and no SYN-ACK, RST, FIN or first SYN since. */
  ghost predicate IsEstablished(ops: seq<Op>) {
    exists i | 0 <= i < |ops| ::
      Establishing(ops, i) && forall j | i < j < |ops| :: !Revives(ops, j) && !Is(ops[j], RstKind)
  }

  ghost predicate Establishing(ops: seq<Op>, i: nat)
    requires i < |ops|
  {
    AcksIt(ops[i]) && !Fins(ops[i]) && AwaitsAck(ops[..i])
  }

  // How one more operation changes each of them.

  lemma FirstSynOf(ops: seq<Op>, op: Op)
    ensures FirstSynAt(ops + [op], |ops|) <==> Is(op, SynKind) && FirstSyn(ops).None?
    ensures forall j: nat | j < |ops| :: FirstSynAt(ops + [op], j) == FirstSynAt(ops, j)
  {
    FirstSynExactly(ops);
    var all := ops + [op];
    assert forall j | 0 <= j < |ops| :: all[j] == ops[j];
  }

  lemma SynAckSnoc(ops: seq<Op>, op: Op)
    ensures AwaitsSynAck(ops + [op]) <==>
            (Is(op, SynKind) && FirstSyn(ops).None?) || (AwaitsSynAck(ops) && !Answers(op))
  {
    var all := ops + [op];
    FirstSynOf(ops, op);
    if AwaitsSynAck(all) {
      var i: nat :| FirstSynAt(all, i) && forall j | i < j < |all| :: !Answers(all[j]);
      assert i < |ops| ==> !Answers(all[|ops|]);
      assert forall j | 0 <= j < |ops| :: all[j] == ops[j];
    }
    if AwaitsSynAck(ops) && !Answers(op) {
      var i: nat :| FirstSynAt(ops, i) && forall j | i < j < |ops| :: !Answers(ops[j]);
      assert FirstSynAt(all, i) && forall j | i < j < |all| :: !Answers(all[j]);
    }
    if Is(op, SynKind) && FirstSyn(ops).None? {
      assert FirstSynAt(all, |ops|);
    }
  }

  lemma AckSnoc(ops: seq<Op>, op: Op)
    ensures AwaitsAck(ops + [op]) <==>
            Is(op, SynAckKind) || (AwaitsAck(ops) && !Settles(ops + [op], |ops|))
  {
    var all := ops + [op];
    FirstSynOf(ops, op);
    assert forall j | 0 <= j < |ops| :: all[j] == ops[j];
    if AwaitsAck(all) {
      var i :| 0 <= i < |all| && Is(all[i], SynAckKind) && forall j | i < j < |all| :: !Settles(all, j);
      assert i < |ops| ==> !Settles(all, |ops|);
      assert forall j | i < j < |ops| :: Settles(ops, j) == Settles(all, j);
    }
    if AwaitsAck(ops) && !Settles(all, |ops|) {
      var i :| 0 <= i < |ops| && Is(ops[i], SynAckKind) && forall j | i < j < |ops| :: !Settles(ops, j);
      assert forall j | i < j < |ops| :: Settles(ops, j) == Settles(all, j);
      assert Is(all[i], SynAckKind);
    }
    if Is(op, SynAckKind) {
      assert Is(all[|ops|], SynAckKind);
    }
  }

  lemma ClosingSnoc(ops: seq<Op>, op: Op)
    ensures IsClosing(ops + [op]) <==> Fins(op) || (IsClosing(ops) && !Reopens(ops + [op], |ops|))
  {
    var all := ops + [op];
    FirstSynOf(ops, op);
    assert forall j | 0 <= j < |ops| :: all[j] == ops[j];
    if IsClosing(all) {
      var i :| 0 <= i < |all| && Fins(all[i]) && forall j | i < j < |all| :: !Reopens(all, j);
      assert i < |ops| ==> !Reopens(all, |ops|);
      assert forall j | i < j < |ops| :: Reopens(ops, j) == Reopens(all, j);
    }
    if IsClosing(ops) && !Reopens(all, |ops|) {
      var i :| 0 <= i < |ops| && Fins(ops[i]) && forall j | i < j < |ops| :: !Reopens(ops, j);
      assert forall j | i < j < |ops| :: Reopens(ops, j) == Reopens(all, j);
      assert Fins(all[i]);
    }
    if Fins(op) {
      assert Fins(all[|ops|]);
    }
  }

  lemma EstablishedSnoc(ops: seq<Op>, op: Op)
    ensures WasEstablished(ops + [op]) <==> WasEstablished(ops) || (AwaitsAck(ops) && AcksIt(op))
  {
    hide AwaitsAck;
    var all := ops + [op];
    assert forall j | 0 <= j <= |ops| :: all[..j] == ops[..j];
    assert all[..|ops|] == ops;
    if WasEstablished(ops) {
      var i :| 0 <= i < |ops| && AcksIt(ops[i]) && AwaitsAck(ops[..i]);
      assert AcksIt(all[i]) && AwaitsAck(all[..i]);
    }
    if AwaitsAck(ops) && AcksIt(op) {
      assert AcksIt(all[|ops|]) && AwaitsAck(all[..|ops|]);
    }
  }

  lemma ResetSnoc(ops: seq<Op>, op: Op)
    ensures WasReset(ops + [op]) <==> Is(op, RstKind) || (WasReset(ops) && !Revives(ops + [op], |ops|))
  {
    var all := ops + [op];
    FirstSynOf(ops, op);
    assert forall j | 0 <= j < |ops| :: all[j] == ops[j];
    if WasReset(all) {
      var i :| 0 <= i < |all| && Is(all[i], RstKind) && forall j | i < j < |all| :: !Revives(all, j);
      assert i < |ops| ==> !Revives(all, |ops|);
      assert forall j | i < j < |ops| :: Revives(ops, j) == Revives(all, j);
    }
    if WasReset(ops) && !Revives(all, |ops|) {
      var i :| 0 <= i < |ops| && Is(ops[i], RstKind) && forall j | i < j < |ops| :: !Revives(ops, j);
      assert forall j | i < j < |ops| :: Revives(ops, j) == Revives(all, j);
      assert Is(all[i], RstKind);
    }
    if Is(op, RstKind) {
      assert Is(all[|ops|], RstKind);
    }
  }

  lemma EstablishingBefore(ops: seq<Op>, op: Op, i: nat)
    requires i <= |ops|
    ensures Establishing(ops + [op], i) <==>
            if i < |ops| then Establishing(ops, i) else AcksIt(op) && !Fins(op) && AwaitsAck(ops)
  {
    hide AwaitsAck;
    assert (ops + [op])[..i] == ops[..i];
    assert ops[..|ops|] == ops;
  }

  lemma IsEstablishedSnoc(ops: seq<Op>, op: Op)
    ensures
      var all, n := ops + [op], |ops|;
      IsEstablished(all) <==>
      (AcksIt(op) && !Fins(op) && AwaitsAck(ops)) || (IsEstablished(ops) && !Revives(all, n) && !Is(op, RstKind))
  {
    hide AwaitsAck, Establishing, AcksIt, Fins;
    var all, n := ops + [op], |ops|;
    FirstSynOf(ops, op);
    assert forall j | 0 <= j < n :: all[j] == ops[j] && Revives(ops, j) == Revives(all, j);
    EstablishingBefore(ops, op, n);
    if IsEstablished(all) {
      var i :| 0 <= i < |all| && Establishing(all, i) &&
               forall j | i < j < |all| :: !Revives(all, j) && !Is(all[j], RstKind);
      EstablishingBefore(ops, op, i);
      assert i < n ==> !Revives(all, n) && !Is(all[n], RstKind);
    }
    if IsEstablished(ops) && !Revives(all, n) && !Is(op, RstKind) {
      var i :| 0 <= i < n && Establishing(ops, i) && forall j | i < j < n :: !Revives(ops, j) && !Is(ops[j], RstKind);
      EstablishingBefore(ops, op, i);
      assert Establishing(all, i);
    }
    if Establishing(all, n) {
      assert IsEstablished(all);
    }
  }

  // ---- Unanswered SYNs -----------------------------------------------------------------------

  /** The first SYN has waited longer than `timeout` for its answer. */
  ghost predicate Overdue(ops: seq<Op>, timeout: nat, now: u64) {
    AwaitsSynAck(ops) && FirstSyn(ops).Some? && SatSub(now, FirstSyn(ops).value) > timeout
  }

  /** Some sweep of the trace found it so. */
  ghost predicate WasOverdue(ops: seq<Op>, timeout: nat) {
    exists i | 0 <= i < |ops| :: ops[i].Tick? && Overdue(ops[..i], timeout, ops[i].now)
  }

  lemma OverdueSnoc(ops: seq<Op>, op: Op, timeout: nat)
    ensures WasOverdue(ops + [op], timeout) <==>
            WasOverdue(ops, timeout) || (op.Tick? && Overdue(ops, timeout, op.now))
  {
    hide Overdue;
    var all := ops + [op];
    assert forall j | 0 <= j <= |ops| :: all[..j] == ops[..j];
    assert all[..|ops|] == ops;
    if WasOverdue(ops, timeout) {
      var i :| 0 <= i < |ops| && ops[i].Tick? && Overdue(ops[..i], timeout, ops[i].now);
      assert all[i].Tick? && Overdue(all[..i], timeout, all[i].now);
    }
    if op.Tick? && Overdue(ops, timeout, op.now) {
      assert all[|ops|].Tick? && Overdue(all[..|ops|], timeout, all[|ops|].now);
    }
  }

  // ---- Half-open conversations -----------------------------------------------------------------

  /** The first SYN has come, and since then no RST, no FIN, no ACK that was awaited, and no sweep
      that found the SYN overdue. */
  ghost predicate HalfOpen(ops: seq<Op>, timeout: nat) {
    exists i: nat :: FirstSynAt(ops, i) && forall j | i < j < |ops| :: !Releases(ops, j, timeout)
  }

  ghost predicate Releases(ops: seq<Op>, j: nat, timeout: nat)
    requires j < |ops|
  {
    || Is(ops[j], RstKind) || Fins(ops[j]) || (AcksIt(ops[j]) && AwaitsAck(ops[..j]))
    || (ops[j].Tick? && Overdue(ops[..j], timeout, ops[j].now))
  }

  lemma ReleasesEarlier(ops: seq<Op>, op: Op, j: nat, timeout: nat)
    requires j < |ops|
    ensures Releases(ops + [op], j, timeout) == Releases(ops, j, timeout)
  {
    hide AwaitsAck, Overdue;
    assert (ops + [op])[..j] == ops[..j];
  }

  lemma HalfOpenSnoc(ops: seq<Op>, op: Op, timeout: nat)
    ensures
      var all := ops + [op];
      HalfOpen(all, timeout) <==>
      (Is(op, SynKind) && FirstSyn(ops).None?) || (HalfOpen(ops, timeout) && !Releases(all, |ops|, timeout))
  {
    hide Releases;
    var all, n := ops + [op], |ops|;
    FirstSynOf(ops, op);
    forall j | 0 <= j < n ensures Releases(all, j, timeout) == Releases(ops, j, timeout) {
      ReleasesEarlier(ops, op, j, timeout);
    }
    if HalfOpen(all, timeout) {
      var i: nat :| FirstSynAt(all, i) && forall j | i < j < |all| :: !Releases(all, j, timeout);
      assert i < n ==> !Releases(all, n, timeout) && FirstSynAt(ops, i);
    }
    if HalfOpen(ops, timeout) && !Releases(all, n, timeout) {
      var i: nat :| FirstSynAt(ops, i) && forall j | i < j < n :: !Releases(ops, j, timeout);
      assert FirstSynAt(all, i);
    }
    if Is(op, SynKind) && FirstSyn(ops).None? {
      assert FirstSynAt(all, n);
    }
  }

  // ---- Windows ---------------------------------------------------------------------------------

  /** The packet at `i` shows a window of direction `d`: an ordinary segment of a connection that
      was established or is closing, the segment included. */
  ghost predicate ShowsWindow(ops: seq<Op>, i: nat, d: Direction)
    requires i < |ops|
  {
    Is(ops[i], OrdinaryKind) && ops[i].p.dir == d && (WasEstablished(ops[..i + 1]) || IsClosing(ops[..i + 1]))
  }

  /** The window shown at `i` is zero, and the last one shown. */
  ghost predicate StalledAt(ops: seq<Op>, i: nat, d: Direction)
    requires i < |ops|
  {
    ShowsWindow(ops, i, d) && ops[i].p.window == 0 && forall j | i < j < |ops| :: !ShowsWindow(ops, j, d)
  }

  /** The last window that direction `d` showed was zero. */
  ghost predicate Stalled(ops: seq<Op>, d: Direction) {
    exists i | 0 <= i < |ops| :: StalledAt(ops, i, d)
  }

  lemma ShowsWindowEarlier(ops: seq<Op>, n: nat, i: nat, d: Direction)
    requires i < n <= |ops|
    ensures ShowsWindow(ops[..n], i, d) == ShowsWindow(ops, i, d)
  {
    assert ops[..n][..i + 1] == ops[..i + 1];
  }

  lemma StalledAtSnoc(ops: seq<Op>, op: Op, i: nat, d: Direction)
    requires i < |ops|
    ensures StalledAt(ops + [op], i, d) <==> StalledAt(ops, i, d) && !ShowsWindow(ops + [op], |ops|, d)
  {
    hide WasEstablished, IsClosing, InClass;
    var all, n := ops + [op], |ops|;
    assert all[..n] == ops;
    forall j | 0 <= j < n ensures ShowsWindow(ops, j, d) == ShowsWindow(all, j, d) {
      ShowsWindowEarlier(all, n, j, d);
    }
  }

  lemma StalledSnoc(ops: seq<Op>, op: Op, d: Direction)
    ensures
      var all := ops + [op];
      Stalled(all, d) <==> if ShowsWindow(all, |ops|, d) then op.p.window == 0 else Stalled(ops, d)
  {
    hide ShowsWindow, StalledAt;
    var all, n := ops + [op], |ops|;
    forall i | 0 <= i < n ensures StalledAt(all, i, d) <==> StalledAt(ops, i, d) && !ShowsWindow(all, n, d) {
      StalledAtSnoc(ops, op, i, d);
    }
    StalledAtLast(all, d);
    if Stalled(ops, d) && !ShowsWindow(all, n, d) {
      var i :| 0 <= i < n && StalledAt(ops, i, d);
      assert StalledAt(all, i, d);
    }
    assert StalledAt(all, n, d) ==> Stalled(all, d);
  }

  lemma StalledAtLast(ops: seq<Op>, d: Direction)
    requires ops != []
    ensures
      var n := |ops| - 1;
      StalledAt(ops, n, d) <==> ShowsWindow(ops, n, d) && ops[n].Pkt? && ops[n].p.window == 0
    ensures ShowsWindow(ops, |ops| - 1, d) ==> ops[|ops| - 1].Pkt?
  {
    hide WasEstablished, IsClosing;
  }
}
