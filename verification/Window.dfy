/**
 The rolling event rate: a ring of per-second buckets that stands for a count over
 the whole history of recorded events.
 */
module Window {
  import opened Types

  const NO_EPOCH: u64 := 0xFFFF_FFFF_FFFF_FFFF

  datatype Ring = Ring(buckets: seq<nat>, epoch: seq<u64>) {
    ghost predicate Valid() {
      |buckets| == |epoch| > 0
    }
  }

  function SecOf(t: u64): u64 {
    t / NS_PER_SEC
  }

  function WindowStart(now: u64, w: nat): nat
    requires w > 0
  {
    SatSub(SecOf(now), w - 1)
  }

  /** A ring has at least one bucket. */
  function Width(windowSecs: u64): (w: nat)
    ensures w > 0
  {
    if windowSecs < 1 then 1 else windowSecs
  }

  function NewRing(windowSecs: u64): (r: Ring)
    ensures r.Valid() && |r.buckets| == Width(windowSecs)
  {
    Ring(seq(Width(windowSecs), _ => 0), seq(Width(windowSecs), _ => NO_EPOCH))
  }

  function RecordAt(r: Ring, now: u64): (r': Ring)
    requires r.Valid()
    ensures r'.Valid() && |r'.buckets| == |r.buckets|
  {
    var sec := SecOf(now);
    var i := sec % |r.buckets|;
    Ring(r.buckets[i := (if r.epoch[i] == sec then r.buckets[i] else 0) + 1], r.epoch[i := sec])
  }

  /** What bucket `i` adds to a window. */
  function Share(r: Ring, i: nat, lo: nat, hi: nat): nat
    requires r.Valid() && i < |r.buckets|
  {
    if r.epoch[i] != NO_EPOCH && lo <= r.epoch[i] <= hi then r.buckets[i] else 0
  }

  function SumShares(r: Ring, n: nat, lo: nat, hi: nat): nat
    requires r.Valid() && n <= |r.buckets|
  {
    if n == 0 then 0 else SumShares(r, n - 1, lo, hi) + Share(r, n - 1, lo, hi)
  }

  function CountIn(r: Ring, now: u64): nat
    requires r.Valid()
  {
    SumShares(r, |r.buckets|, WindowStart(now, |r.buckets|), SecOf(now))
  }

  function RateIn(r: Ring, now: u64): (rate: real)
    requires r.Valid()
    ensures rate * |r.buckets| as real == CountIn(r, now) as real
  {
    CountIn(r, now) as real / |r.buckets| as real
  }

  /** The rolling counter itself, updated in place. */
  class RollingRate {
    const windowSecs: nat
    const buckets: array<nat>
    const epoch: array<u64>

    ghost predicate Valid() {
      windowSecs == buckets.Length == epoch.Length > 0 && buckets as object != epoch as object
    }

    ghost function Model(): Ring
      requires Valid()
      reads buckets, epoch
    {
      Ring(buckets[..], epoch[..])
    }

    constructor (window: u64)
      ensures Valid() && fresh(buckets) && fresh(epoch)
      ensures Model() == NewRing(window)
    {
      var w: nat := if window < 1 then 1 else window;
      windowSecs := w;
      buckets := new nat[w](_ => 0);
      epoch := new u64[w](_ => NO_EPOCH);
      new;
      assert buckets[..] == NewRing(window).buckets && epoch[..] == NewRing(window).epoch;
    }

    method Record(now: u64)
      requires Valid()
      modifies buckets, epoch
      ensures Model() == RecordAt(old(Model()), now)
    {
      var sec := now / NS_PER_SEC;
      var i := sec % windowSecs;
      if epoch[i] != sec {
        epoch[i] := sec;
        buckets[i] := 0;
      }
      buckets[i] := buckets[i] + 1;
    }

    method CountWindow(now: u64) returns (total: nat)
      requires Valid()
      ensures total == CountIn(Model(), now)
    {
      var sec := now / NS_PER_SEC;
      var lo := SatSub(sec, windowSecs - 1);
      total := 0;
      for i := 0 to buckets.Length
        invariant total == SumShares(Model(), i, lo, sec)
      {
        var e := epoch[i];
        if e != NO_EPOCH && e >= lo && e <= sec {
          total := total + buckets[i];
        }
      }
    }

    method PerSec(now: u64) returns (rate: real)
      requires Valid()
      ensures rate == RateIn(Model(), now)
    {
      var n := CountWindow(now);
      rate := n as real / windowSecs as real;
    }
  }

  // ---- The reference: counting the history ---------------------------------------

  /** The ring after every event of a history. */
  function RingOf(window: u64, h: seq<u64>): (r: Ring)
    ensures r.Valid() && |r.buckets| == Width(window)
  {
    if h == [] then NewRing(window) else RecordAt(RingOf(window, h[..|h| - 1]), h[|h| - 1])
  }

  /** The time lies in the seconds from `lo` to `hi`, both included. */
  predicate Within(t: u64, lo: nat, hi: nat) {
    lo * 1_000_000_000 <= t < (hi + 1) * 1_000_000_000
  }

  lemma WithinBySecond(t: u64, lo: nat, hi: nat)
    ensures Within(t, lo, hi) <==> lo <= SecOf(t) <= hi
  {
  }

  function Count(h: seq<u64>, lo: nat, hi: nat): nat {
    if h == [] then 0 else Count(h[..|h| - 1], lo, hi) + if Within(h[|h| - 1], lo, hi) then 1 else 0
  }

  /** The seconds of the events that fall into bucket `i` of `w`, in order. */
  function Slot(h: seq<u64>, w: nat, i: nat): seq<u64>
    requires w > 0
  {
    if h == [] then []
    else
      var init, sec := Slot(h[..|h| - 1], w, i), SecOf(h[|h| - 1]);
      if sec % w == i then init + [sec] else init
  }

  function CountSecs(secs: seq<u64>, lo: nat, hi: nat): nat {
    if secs == [] then 0
    else CountSecs(secs[..|secs| - 1], lo, hi) + if lo <= secs[|secs| - 1] <= hi then 1 else 0
  }

  /** A second of the window was followed by a different second. */
  ghost predicate Lost(secs: seq<u64>, lo: nat, hi: nat) {
    exists a, b | 0 <= a < b < |secs| :: lo <= secs[a] <= hi && secs[a] != secs[b]
  }

  ghost predicate SlotLost(h: seq<u64>, w: nat, i: nat, lo: nat, hi: nat)
    requires w > 0
  {
    Lost(Slot(h, w, i), lo, hi)
  }

  /** The two times fall into one bucket of `w`, but into different seconds. */
  predicate Collide(t: u64, u: u64, w: nat)
    requires w > 0
  {
    t / 1_000_000_000 % w == u / 1_000_000_000 % w && t / 1_000_000_000 != u / 1_000_000_000
  }

  /** An event of the window was followed by one of another second that takes over its bucket. */
  ghost predicate Overwritten(h: seq<u64>, w: nat, lo: nat, hi: nat)
    requires w > 0
  {
    exists a, b | 0 <= a < b < |h| :: Within(h[a], lo, hi) && Collide(h[a], h[b], w)
  }

  // ---- One bucket against its events ------------------------------------------------

  datatype Cell = Cell(epoch: u64, count: nat)

  function CellOf(secs: seq<u64>): Cell {
    if secs == [] then Cell(NO_EPOCH, 0)
    else
      var c, sec := CellOf(secs[..|secs| - 1]), secs[|secs| - 1];
      Cell(sec, (if c.epoch == sec then c.count else 0) + 1)
  }

  lemma CellSnoc(secs: seq<u64>, sec: u64)
    ensures CellOf(secs + [sec]) == Cell(sec, (if CellOf(secs).epoch == sec then CellOf(secs).count else 0) + 1)
  {
    assert (secs + [sec])[..|secs|] == secs;
  }

  lemma {:induction false} RingIsCells(window: u64, h: seq<u64>, i: nat)
    requires i < Width(window)
    ensures
      var r := RingOf(window, h);
      Cell(r.epoch[i], r.buckets[i]) == CellOf(Slot(h, |r.buckets|, i))
  {
    if h != [] {
      var n, w := |h| - 1, Width(window);
      RingIsCells(window, h[..n], i);
      CellSnoc(Slot(h[..n], w, i), SecOf(h[n]));
    }
  }

  function CellShare(c: Cell, lo: nat, hi: nat): nat {
    if c.epoch != NO_EPOCH && lo <= c.epoch <= hi then c.count else 0
  }

  /** The events of one bucket: real seconds, at most one of which lies in the window. */
  ghost predicate OneSecond(secs: seq<u64>, lo: nat, hi: nat) {
    && (forall a | 0 <= a < |secs| :: secs[a] != NO_EPOCH)
    && (forall a, b | 0 <= a < |secs| && 0 <= b < |secs| ::
          lo <= secs[a] <= hi && lo <= secs[b] <= hi ==> secs[a] == secs[b])
  }

  lemma {:induction false} CountHasWitness(secs: seq<u64>, lo: nat, hi: nat)
    ensures CountSecs(secs, lo, hi) > 0 <==> exists a | 0 <= a < |secs| :: lo <= secs[a] <= hi
  {
    if secs != [] {
      var n := |secs| - 1;
      CountHasWitness(secs[..n], lo, hi);
      assert forall a | 0 <= a < n :: secs[..n][a] == secs[a];
    }
  }

  lemma LostSnoc(secs: seq<u64>, lo: nat, hi: nat)
    requires secs != [] && OneSecond(secs, lo, hi)
    ensures
      var n := |secs| - 1;
      Lost(secs, lo, hi) <==>
      Lost(secs[..n], lo, hi) || (!(lo <= secs[n] <= hi) && CountSecs(secs[..n], lo, hi) > 0)
  {
    var n := |secs| - 1;
    assert forall a | 0 <= a < n :: secs[..n][a] == secs[a];
    CountHasWitness(secs[..n], lo, hi);
  }

  lemma OneSecondBefore(secs: seq<u64>, lo: nat, hi: nat)
    requires secs != [] && OneSecond(secs, lo, hi)
    ensures OneSecond(secs[..|secs| - 1], lo, hi) && secs[|secs| - 1] != NO_EPOCH
  {
    var n := |secs| - 1;
    assert forall a | 0 <= a < n :: secs[..n][a] == secs[a];
  }

  /** If the bucket was taken over since an event of the window, that event is lost. */
  lemma TakenOver(secs: seq<u64>, lo: nat, hi: nat)
    requires secs != [] && OneSecond(secs, lo, hi)
    ensures
      var n := |secs| - 1;
      lo <= secs[n] <= hi && CellOf(secs[..n]).epoch != secs[n] && CountSecs(secs[..n], lo, hi) > 0 ==>
      Lost(secs[..n], lo, hi)
  {
    var n := |secs| - 1;
    var init, sec := secs[..n], secs[n];
    CountHasWitness(init, lo, hi);
    if lo <= sec <= hi && CellOf(init).epoch != sec && CountSecs(init, lo, hi) > 0 {
      var a :| 0 <= a < n && lo <= init[a] <= hi;
      assert init[a] == secs[a] && init[n - 1] == secs[n - 1];
      assert init[a] == sec && init[n - 1] != sec;
    }
  }

  /** A bucket never reports more than the window holds of it, and reports exactly that
      much if and only if nothing was lost. */
  lemma {:induction false} CellVersusCount(secs: seq<u64>, lo: nat, hi: nat)
    requires OneSecond(secs, lo, hi)
    ensures CellShare(CellOf(secs), lo, hi) <= CountSecs(secs, lo, hi)
    ensures CellShare(CellOf(secs), lo, hi) == CountSecs(secs, lo, hi) <==> !Lost(secs, lo, hi)
  {
    if secs != [] {
      hide OneSecond, Lost;
      OneSecondBefore(secs, lo, hi);
      CellVersusCount(secs[..|secs| - 1], lo, hi);
      LostSnoc(secs, lo, hi);
      TakenOver(secs, lo, hi);
    }
  }

  // ---- All buckets together ------------------------------------------------------------

  /** Within one window a bucket holds one second. */
  lemma SameSecond(x: nat, y: nat, w: nat)
    requires w > 0 && x <= y < x + w && x % w == y % w
    ensures x == y
  {
    var q := y / w - x / w;
    assert y - x == w * q;
    assert q > 0 ==> w * q >= w;
    assert q < 0 ==> w * q < 0;
  }

  lemma {:induction false} SlotIsOneSecond(h: seq<u64>, w: nat, i: nat, lo: nat, hi: nat)
    requires w > 0 && hi < lo + w
    ensures OneSecond(Slot(h, w, i), lo, hi)
    ensures forall a | 0 <= a < |Slot(h, w, i)| :: Slot(h, w, i)[a] % w == i
  {
    if h != [] {
      SlotIsOneSecond(h[..|h| - 1], w, i, lo, hi);
      var secs := Slot(h, w, i);
      forall a, b | 0 <= a < |secs| && 0 <= b < |secs| && lo <= secs[a] <= secs[b] <= hi
        ensures secs[a] == secs[b]
      {
        SameSecond(secs[a], secs[b], w);
      }
    }
  }

  function SumSlots(h: seq<u64>, w: nat, n: nat, lo: nat, hi: nat): nat
    requires w > 0
  {
    if n == 0 then 0 else SumSlots(h, w, n - 1, lo, hi) + CountSecs(Slot(h, w, n - 1), lo, hi)
  }

  lemma CountSnoc(secs: seq<u64>, sec: u64, lo: nat, hi: nat)
    ensures CountSecs(secs + [sec], lo, hi) == CountSecs(secs, lo, hi) + if lo <= sec <= hi then 1 else 0
  {
    assert (secs + [sec])[..|secs|] == secs;
  }

  lemma {:induction false} SumSlotsSnoc(h: seq<u64>, w: nat, n: nat, lo: nat, hi: nat)
    requires w > 0 && h != []
    ensures
      var t := h[|h| - 1];
      SumSlots(h, w, n, lo, hi) ==
      SumSlots(h[..|h| - 1], w, n, lo, hi) + if Within(t, lo, hi) && SecOf(t) % w < n then 1 else 0
  {
    if n > 0 {
      SumSlotsSnoc(h, w, n - 1, lo, hi);
      CountSnoc(Slot(h[..|h| - 1], w, n - 1), SecOf(h[|h| - 1]), lo, hi);
    }
  }

  /** The buckets partition the history. */
  lemma {:induction false} SlotsPartition(h: seq<u64>, w: nat, lo: nat, hi: nat)
    requires w > 0
    ensures SumSlots(h, w, w, lo, hi) == Count(h, lo, hi)
  {
    if h == [] {
      EmptySlots(w, w, lo, hi);
    } else {
      SlotsPartition(h[..|h| - 1], w, lo, hi);
      SumSlotsSnoc(h, w, w, lo, hi);
    }
  }

  lemma {:induction false} EmptySlots(w: nat, n: nat, lo: nat, hi: nat)
    requires w > 0
    ensures SumSlots([], w, n, lo, hi) == 0
  {
    if n > 0 {
      EmptySlots(w, n - 1, lo, hi);
    }
  }

  lemma BucketVersusSlot(window: u64, h: seq<u64>, i: nat, lo: nat, hi: nat)
    requires i < Width(window) && hi < lo + Width(window)
    ensures
      var share, secs := Share(RingOf(window, h), i, lo, hi), Slot(h, Width(window), i);
      share <= CountSecs(secs, lo, hi) && (share == CountSecs(secs, lo, hi) <==> !Lost(secs, lo, hi))
  {
    hide Slot, RingOf, NewRing, CellOf, CountSecs, Lost;
    var secs := Slot(h, Width(window), i);
    RingIsCells(window, h, i);
    SlotIsOneSecond(h, Width(window), i, lo, hi);
    CellVersusCount(secs, lo, hi);
  }

  /** Some one of the first `n` buckets lost an event. */
  ghost predicate LostBelow(h: seq<u64>, w: nat, n: nat, lo: nat, hi: nat)
    requires w > 0
  {
    n > 0 && (LostBelow(h, w, n - 1, lo, hi) || SlotLost(h, w, n - 1, lo, hi))
  }

  lemma {:induction false} LostBelowMeans(h: seq<u64>, w: nat, n: nat, lo: nat, hi: nat)
    requires w > 0
    ensures LostBelow(h, w, n, lo, hi) <==> exists i: nat | i < n :: SlotLost(h, w, i, lo, hi)
  {
    if n > 0 {
      LostBelowMeans(h, w, n - 1, lo, hi);
    }
  }

  /** An event of the window falls into bucket `i`, in a second other than `sec`. */
  ghost predicate HasOther(h: seq<u64>, w: nat, i: nat, lo: nat, hi: nat, sec: u64)
    requires w > 0
  {
    exists a | 0 <= a < |h| :: Within(h[a], lo, hi) && SecOf(h[a]) % w == i && SecOf(h[a]) != sec
  }

  lemma {:induction false} SlotHas(h: seq<u64>, w: nat, i: nat, x: u64)
    requires w > 0
    ensures x in Slot(h, w, i) <==> x % w == i && exists a | 0 <= a < |h| :: SecOf(h[a]) == x
  {
    if h != [] {
      hide SecOf;
      var n := |h| - 1;
      SlotHas(h[..n], w, i, x);
      assert forall a | 0 <= a < n :: h[..n][a] == h[a];
    }
  }

  lemma SlotHasOther(h: seq<u64>, w: nat, i: nat, lo: nat, hi: nat, sec: u64)
    requires w > 0
    ensures HasOther(h, w, i, lo, hi, sec) <==> exists x | x in Slot(h, w, i) :: lo <= x <= hi && x != sec
  {
    hide Slot, SecOf, Within;
    if HasOther(h, w, i, lo, hi, sec) {
      var a :| 0 <= a < |h| && Within(h[a], lo, hi) && SecOf(h[a]) % w == i && SecOf(h[a]) != sec;
      WithinBySecond(h[a], lo, hi);
      SlotHas(h, w, i, SecOf(h[a]));
    }
    if x :| x in Slot(h, w, i) && lo <= x <= hi && x != sec {
      SlotHas(h, w, i, x);
      var a :| 0 <= a < |h| && SecOf(h[a]) == x;
      WithinBySecond(h[a], lo, hi);
    }
  }

  lemma LostAfter(secs: seq<u64>, sec: u64, lo: nat, hi: nat)
    ensures Lost(secs + [sec], lo, hi) <==>
            Lost(secs, lo, hi) || exists x | x in secs :: lo <= x <= hi && x != sec
  {
    var all := secs + [sec];
    assert all[|secs|] == sec;
    assert forall c | 0 <= c < |secs| :: all[c] == secs[c];
    if Lost(all, lo, hi) {
      var a, b :| 0 <= a < b < |all| && lo <= all[a] <= hi && all[a] != all[b];
      assert all[a] == secs[a] && secs[a] in secs;
      assert b < |secs| ==> all[b] == secs[b];
    }
    if Lost(secs, lo, hi) {
      var a, b :| 0 <= a < b < |secs| && lo <= secs[a] <= hi && secs[a] != secs[b];
      assert lo <= all[a] <= hi && all[a] != all[b];
    }
    if x :| x in secs && lo <= x <= hi && x != sec {
      var c :| 0 <= c < |secs| && secs[c] == x;
      assert lo <= all[c] <= hi && all[c] != all[|secs|];
    }
  }

  ghost predicate OverwrittenIn(h: seq<u64>, w: nat, i: nat, lo: nat, hi: nat)
    requires w > 0
  {
    exists a, b | 0 <= a < b < |h| ::
      Within(h[a], lo, hi) && SecOf(h[a]) % w == i && SecOf(h[b]) % w == i && SecOf(h[a]) != SecOf(h[b])
  }

  lemma OverwrittenSnoc(h: seq<u64>, w: nat, i: nat, lo: nat, hi: nat)
    requires w > 0 && h != []
    ensures
      var n := |h| - 1;
      OverwrittenIn(h, w, i, lo, hi) <==>
      OverwrittenIn(h[..n], w, i, lo, hi) || (SecOf(h[n]) % w == i && HasOther(h[..n], w, i, lo, hi, SecOf(h[n])))
  {
    hide Within, SecOf;
    var n := |h| - 1;
    var init := h[..n];
    assert forall a | 0 <= a < n :: init[a] == h[a];
    if OverwrittenIn(h, w, i, lo, hi) {
      var a, b :| 0 <= a < b < |h| && Within(h[a], lo, hi) && SecOf(h[a]) % w == i && SecOf(h[b]) % w == i &&
                  SecOf(h[a]) != SecOf(h[b]);
      assert init[a] == h[a] && (b < n ==> init[b] == h[b]);
    }
    if OverwrittenIn(init, w, i, lo, hi) {
      var a, b :| 0 <= a < b < n && Within(init[a], lo, hi) && SecOf(init[a]) % w == i && SecOf(init[b]) % w == i &&
                  SecOf(init[a]) != SecOf(init[b]);
      assert h[a] == init[a] && h[b] == init[b];
    }
    if SecOf(h[n]) % w == i && HasOther(init, w, i, lo, hi, SecOf(h[n])) {
      var a :| 0 <= a < n && Within(init[a], lo, hi) && SecOf(init[a]) % w == i && SecOf(init[a]) != SecOf(h[n]);
      assert h[a] == init[a];
    }
  }

  lemma SlotSnoc(h: seq<u64>, w: nat, i: nat)
    requires w > 0 && h != []
    ensures
      var n := |h| - 1;
      Slot(h, w, i) == Slot(h[..n], w, i) + if SecOf(h[n]) % w == i then [SecOf(h[n])] else []
  {
  }

  lemma NothingLost(w: nat, i: nat, lo: nat, hi: nat)
    requires w > 0
    ensures !SlotLost([], w, i, lo, hi) && !OverwrittenIn([], w, i, lo, hi)
  {
  }

  lemma {:induction false} SlotLostMeans(h: seq<u64>, w: nat, i: nat, lo: nat, hi: nat)
    requires w > 0
    ensures SlotLost(h, w, i, lo, hi) <==> OverwrittenIn(h, w, i, lo, hi)
  {
    hide Slot, Lost, OverwrittenIn, HasOther, SecOf;
    if h == [] {
      NothingLost(w, i, lo, hi);
    } else {
      var n := |h| - 1;
      SlotLostMeans(h[..n], w, i, lo, hi);
      OverwrittenSnoc(h, w, i, lo, hi);
      SlotSnoc(h, w, i);
      SlotHasOther(h[..n], w, i, lo, hi, SecOf(h[n]));
      LostAfter(Slot(h[..n], w, i), SecOf(h[n]), lo, hi);
      assert Slot(h[..n], w, i) + [] == Slot(h[..n], w, i);
    }
  }

  /** A bucket lost an event exactly if an event of the window was overwritten. */
  lemma LostMeansOverwritten(h: seq<u64>, w: nat, lo: nat, hi: nat)
    requires w > 0
    ensures (exists i: nat | i < w :: SlotLost(h, w, i, lo, hi)) <==> Overwritten(h, w, lo, hi)
  {
    hide Within, SlotLost;
    if i: nat :| i < w && SlotLost(h, w, i, lo, hi) {
      SlotLostMeans(h, w, i, lo, hi);
      var a, b :| 0 <= a < b < |h| && Within(h[a], lo, hi) && SecOf(h[a]) % w == i && SecOf(h[b]) % w == i &&
                  SecOf(h[a]) != SecOf(h[b]);
      assert Collide(h[a], h[b], w);
    }
    if Overwritten(h, w, lo, hi) {
      var a, b :| 0 <= a < b < |h| && Within(h[a], lo, hi) && Collide(h[a], h[b], w);
      var i: nat := SecOf(h[a]) % w;
      assert SecOf(h[b]) % w == i && SecOf(h[a]) != SecOf(h[b]);
      SlotLostMeans(h, w, i, lo, hi);
      assert OverwrittenIn(h, w, i, lo, hi);
    }
  }

  lemma {:induction false} SharesVersusSlots(window: u64, h: seq<u64>, n: nat, lo: nat, hi: nat)
    requires n <= Width(window) && hi < lo + Width(window)
    ensures
      var w := Width(window);
      var shares, total := SumShares(RingOf(window, h), n, lo, hi), SumSlots(h, w, n, lo, hi);
      shares <= total && (shares == total <==> !LostBelow(h, w, n, lo, hi))
  {
    hide RingOf, NewRing, Slot, CountSecs, Share, Lost, SumShares, SumSlots, LostBelow;
    OneMoreBucket(window, h, n, lo, hi);
    if n > 0 {
      SharesVersusSlots(window, h, n - 1, lo, hi);
      BucketVersusSlot(window, h, n - 1, lo, hi);
    }
  }

  lemma OneMoreBucket(window: u64, h: seq<u64>, n: nat, lo: nat, hi: nat)
    requires n <= Width(window)
    ensures
      var w, r := Width(window), RingOf(window, h);
      if n == 0 then SumShares(r, 0, lo, hi) == SumSlots(h, w, 0, lo, hi) == 0 && !LostBelow(h, w, 0, lo, hi)
      else
        && SumShares(r, n, lo, hi) == SumShares(r, n - 1, lo, hi) + Share(r, n - 1, lo, hi)
        && SumSlots(h, w, n, lo, hi) == SumSlots(h, w, n - 1, lo, hi) + CountSecs(Slot(h, w, n - 1), lo, hi)
        && (LostBelow(h, w, n, lo, hi) <==>
              LostBelow(h, w, n - 1, lo, hi) || Lost(Slot(h, w, n - 1), lo, hi))
  {
    hide RingOf, NewRing, Slot, CountSecs, Share, Lost;
  }

  /** The ring refines the history: it never over-reports, in whatever order the
      timestamps come, and reports the exact count if and only if no event of the
      window was overwritten. */
  lemma RingRefinesHistory(window: u64, h: seq<u64>, now: u64)
    ensures
      var w: nat := if window < 1 then 1 else window;
      var hi := now / 1_000_000_000;
      var lo := SatSub(hi, w - 1);
      CountIn(RingOf(window, h), now) <= Count(h, lo, hi) &&
      (CountIn(RingOf(window, h), now) == Count(h, lo, hi) <==> !Overwritten(h, w, lo, hi))
  {
    var w := Width(window);
    var lo, hi := WindowStart(now, w), SecOf(now);
    SharesVersusSlots(window, h, w, lo, hi);
    LostBelowMeans(h, w, w, lo, hi);
    LostMeansOverwritten(h, w, lo, hi);
    SlotsPartition(h, w, lo, hi);
  }

  // ---- Ordered time ----------------------------------------------------------------------

  ghost predicate Ordered(h: seq<u64>) {
    forall a, b | 0 <= a <= b < |h| :: h[a] <= h[b]
  }

  lemma {:induction false} OrderedSlot(h: seq<u64>, w: nat, i: nat)
    requires w > 0 && Ordered(h)
    ensures Ordered(Slot(h, w, i))
    ensures forall a | 0 <= a < |Slot(h, w, i)| :: h != [] && Slot(h, w, i)[a] <= SecOf(h[|h| - 1])
  {
    if h != [] {
      var n := |h| - 1;
      OrderedSlot(h[..n], w, i);
      if n > 0 {
        assert h[n - 1] <= h[n];
      }
    }
  }

  /** With timestamps that never go back, the reported count is the count of the history. */
  lemma OrderedTimeIsExact(window: u64, h: seq<u64>, now: u64)
    requires Ordered(h) && (h == [] || h[|h| - 1] <= now)
    ensures
      var w: nat := if window < 1 then 1 else window;
      var hi := now / 1_000_000_000;
      CountIn(RingOf(window, h), now) == Count(h, SatSub(hi, w - 1), hi)
  {
    var w := Width(window);
    var lo, hi := WindowStart(now, w), SecOf(now);
    forall i: nat | i < w ensures !SlotLost(h, w, i, lo, hi) {
      OrderedSlot(h, w, i);
      SlotIsOneSecond(h, w, i, lo, hi);
      if h != [] {
        assert SecOf(h[|h| - 1]) <= SecOf(now);
      }
    }
    LostMeansOverwritten(h, w, lo, hi);
    RingRefinesHistory(window, h, now);
  }

  /** Time running back loses events: two resets of second 1 around one of second 0
      leave a one-second ring that reports one event where the history holds two. */
  lemma BackwardsTimeLoses()
    ensures
      var h := [1_000_000_000, 0, 1_000_000_000];
      CountIn(RingOf(1, h), 1_000_000_000) == 1 && Count(h, 1, 1) == 2
  {
    var h: seq<u64> := [1_000_000_000, 0, 1_000_000_000];
    assert h[..2] == [1_000_000_000, 0] && h[..2][..1] == [1_000_000_000] && h[..1][..0] == [];
    assert RingOf(1, h[..1]) == Ring([1], [1]);
    assert RingOf(1, h[..2]) == Ring([1], [0]);
    assert RingOf(1, h) == Ring([1], [1]);
    assert SumShares(RingOf(1, h), 1, 1, 1) == SumShares(RingOf(1, h), 0, 1, 1) + 1;
    assert Count(h[..1], 1, 1) == 1 && Count(h[..2], 1, 1) == 1;
  }
}
