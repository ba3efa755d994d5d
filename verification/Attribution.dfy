/**
 Pod attribution: CIDR masks mean aligned address blocks.
 */
module Attribution {
  import opened Types

  // ---- Machine words --------------------------------------------------------------------

  function Pow2(n: nat): (p: nat)
    ensures p > 0
  {
    if n == 0 then 1 else 2 * Pow2(n - 1)
  }

  /** Bitwise conjunction. */
  function And(x: nat, y: nat): nat
    decreases x
  {
    if x == 0 then 0 else 2 * And(x / 2, y / 2) + (if x % 2 == 1 && y % 2 == 1 then 1 else 0)
  }

  /** All ones of a `width`-bit word, shifted left, the bits beyond the word dropped. */
  function OnesShifted(width: nat, shift: nat): nat {
    (Pow2(width) - 1) * Pow2(shift) % Pow2(width)
  }

  function Mask(width: nat, prefix: nat): nat
    requires prefix <= width
  {
    if prefix == 0 then 0 else OnesShifted(width, width - prefix)
  }

  predicate MaskedEqual(width: nat, prefix: nat, net: nat, addr: nat)
    requires prefix <= width
  {
    And(net, Mask(width, prefix)) == And(addr, Mask(width, prefix))
  }

  predicate CidrContains(net: IpAddr, prefix: u32, ip: IpAddr) {
    match (net, ip)
    case (V4(n), V4(a)) => prefix <= 32 && MaskedEqual(32, prefix, n, a)
    case (V6(n), V6(a)) => prefix <= 128 && MaskedEqual(128, prefix, n, a)
    case _ => false
  }

  // ---- The number that is left of a word --------------------------------------------------

  /** The word without its `k` low bits. */
  function High(x: nat, k: nat): nat {
    if k == 0 then x else High(x / 2, k - 1)
  }

  lemma MulDouble(q: nat, p: nat)
    ensures q * (2 * p) == 2 * (q * p)
  {
  }

  lemma MulStep(q: nat, h: nat, p: nat)
    requires q < h
    ensures q * p + p <= h * p
  {
    var d := h - q - 1;
    assert h * p == (q + 1 + d) * p == q * p + p + d * p;
  }

  lemma {:induction false} HighBounds(x: nat, k: nat)
    ensures High(x, k) * Pow2(k) <= x < High(x, k) * Pow2(k) + Pow2(k)
  {
    if k == 0 {
      assert Pow2(0) == 1;
    } else {
      var q, p := High(x / 2, k - 1), Pow2(k - 1);
      HighBounds(x / 2, k - 1);
      assert High(x, k) == q && Pow2(k) == 2 * p;
      MulDouble(q, p);
      Halves(x, q * p, p);
    }
  }

  lemma Halves(x: nat, m: nat, p: nat)
    requires m <= x / 2 < m + p
    ensures 2 * m <= x < 2 * m + 2 * p
  {
  }

  lemma QuotientIsUnique(x: nat, p: nat, q: nat, h: nat)
    requires q * p <= x < q * p + p && h * p <= x < h * p + p
    ensures q == h
  {
    if q < h {
      MulStep(q, h, p);
    } else if h < q {
      MulStep(h, q, p);
    }
  }

  lemma HighIsUnique(x: nat, k: nat, q: nat)
    requires q * Pow2(k) <= x < q * Pow2(k) + Pow2(k)
    ensures q == High(x, k)
  {
    HighBounds(x, k);
    QuotientIsUnique(x, Pow2(k), q, High(x, k));
  }

  lemma {:induction false} HighTwice(x: nat, j: nat, k: nat)
    ensures High(x, j + k) == High(High(x, j), k)
  {
    if j > 0 {
      HighTwice(x / 2, j - 1, k);
    }
  }

  // ---- Masks -------------------------------------------------------------------------------

  lemma {:induction false} Pow2Grows(a: nat, b: nat)
    requires a <= b
    ensures Pow2(a) <= Pow2(b)
    decreases b
  {
    if a < b {
      Pow2Grows(a, b - 1);
    }
  }

  /** The shifted word is the ones above the shift. */
  lemma OnesShiftedIs(width: nat, shift: nat)
    requires shift < width
    ensures OnesShifted(width, shift) == Pow2(width) - Pow2(shift)
  {
    Pow2Grows(shift, width);
    OnesTimes(Pow2(width), Pow2(shift));
    ModOfMultiple(Pow2(shift) - 1, Pow2(width) - Pow2(shift), Pow2(width));
  }

  lemma OnesTimes(w: nat, s: nat)
    requires 0 < s && 0 < w
    ensures (w - 1) * s == w * (s - 1) + (w - s)
  {
    assert (w - 1) * s == w * s - s;
    assert w * (s - 1) == w * s - w;
  }

  lemma ModOfMultiple(q: nat, r: nat, m: nat)
    requires r < m
    ensures (m * q + r) % m == r
  {
    var x := m * q + r;
    var h := x / m;
    QuotientBounds(x, m);
    MulCommutes(m, q);
    QuotientIsUnique(x, m, q, h);
  }

  lemma {:induction false} AndOnes(x: nat, w: nat)
    requires x < Pow2(w)
    ensures And(x, Pow2(w) - 1) == x
    decreases w
  {
    if x > 0 {
      assert (Pow2(w) - 1) / 2 == Pow2(w - 1) - 1;
      AndOnes(x / 2, w - 1);
    }
  }

  /** Masking with the ones above bit `k` clears the `k` low bits. */
  lemma {:induction false} AndHigh(x: nat, w: nat, k: nat, mask: nat)
    requires k <= w && x < Pow2(w) && mask == Pow2(w) - Pow2(k)
    ensures And(x, mask) == High(x, k) * Pow2(k)
    decreases k
  {
    if k == 0 {
      AndOnes(x, w);
    } else {
      Pow2Grows(k - 1, w - 1);
      var m, q, p := Pow2(w - 1) - Pow2(k - 1), High(x / 2, k - 1), Pow2(k - 1);
      assert mask == 2 * m && Pow2(k) == 2 * p && High(x, k) == q;
      AndEven(x, m);
      AndHigh(x / 2, w - 1, k - 1, m);
      MulDouble(q, p);
    }
  }

  lemma AndEven(x: nat, m: nat)
    ensures And(x, 2 * m) == 2 * And(x / 2, m)
  {
    assert 2 * m / 2 == m && 2 * m % 2 == 0;
  }

  lemma {:induction false} AndZero(x: nat)
    ensures And(x, 0) == 0
  {
    if x > 0 {
      AndZero(x / 2);
    }
  }

  lemma HighOfWord(x: nat, w: nat)
    requires x < Pow2(w)
    ensures High(x, w) == 0
  {
    HighIsUnique(x, w, 0);
  }

  lemma MaskClearsLow(x: nat, width: nat, prefix: nat)
    requires prefix <= width && x < Pow2(width)
    ensures And(x, Mask(width, prefix)) == High(x, width - prefix) * Pow2(width - prefix)
  {
    if prefix == 0 {
      AndZero(x);
      HighOfWord(x, width);
    } else {
      OnesShiftedIs(width, width - prefix);
      AndHigh(x, width, width - prefix, Mask(width, prefix));
    }
  }

  // ---- Blocks --------------------------------------------------------------------------------

  /** The aligned block of size 2^(width - prefix) around the network address. */
  ghost predicate InBlock(width: nat, prefix: nat, net: nat, addr: nat)
    requires prefix <= width
  {
    var size := Pow2(width - prefix);
    var base := net / size * size;
    base <= addr < base + size
  }

  lemma HighIsQuotient(x: nat, k: nat)
    ensures High(x, k) == x / Pow2(k)
  {
    hide *;
    QuotientBounds(x, Pow2(k));
    HighBounds(x, k);
    QuotientIsUnique(x, Pow2(k), x / Pow2(k), High(x, k));
  }

  lemma QuotientBounds(x: nat, p: nat)
    requires p > 0
    ensures x / p * p <= x < x / p * p + p
  {
    var q := x / p;
    assert x == p * q + x % p;
    MulCommutes(p, q);
  }

  lemma MulCommutes(a: nat, b: nat)
    ensures a * b == b * a
  {
  }

  /** For any word width, the masked addresses are equal exactly when the address lies in
      the aligned block around the network. */
  lemma MaskMeansBlock(width: nat, prefix: nat, net: nat, addr: nat)
    requires prefix <= width && net < Pow2(width) && addr < Pow2(width)
    ensures MaskedEqual(width, prefix, net, addr) <==> InBlock(width, prefix, net, addr)
  {
    var k := width - prefix;
    var p := Pow2(k);
    MaskClearsLow(net, width, prefix);
    MaskClearsLow(addr, width, prefix);
    HighIsQuotient(net, k);
    HighBounds(addr, k);
    if InBlock(width, prefix, net, addr) {
      HighIsUnique(addr, k, High(net, k));
    }
  }

  /** Two blocks of one family are nested or disjoint: if they share an address, the longer
      prefix lies inside the shorter. */
  lemma BlocksNest(width: nat, outer: nat, net1: nat, inner: nat, net2: nat, shared: nat, addr: nat)
    requires outer <= inner <= width
    requires InBlock(width, outer, net1, shared) && InBlock(width, inner, net2, shared)
    requires InBlock(width, inner, net2, addr)
    ensures InBlock(width, outer, net1, addr)
  {
    var k, j := width - inner, inner - outer;
    HighIsQuotient(net1, width - outer);
    HighIsQuotient(net2, k);
    HighIsUnique(shared, width - outer, High(net1, width - outer));
    HighIsUnique(shared, k, High(net2, k));
    HighIsUnique(addr, k, High(net2, k));
    HighTwice(shared, k, j);
    HighTwice(addr, k, j);
    HighBounds(addr, width - outer);
  }

  lemma WordSizes()
    ensures Pow2(32) == 0x1_0000_0000 && Pow2(128) == 0x1_0000_0000_0000_0000_0000_0000_0000_0000
  {
    assert Pow2(8) == 256;
    Doubling(8, 8, 0x100, 0x100);
    Doubling(16, 16, 0x1_0000, 0x1_0000);
    Doubling(32, 32, 0x1_0000_0000, 0x1_0000_0000);
    Doubling(64, 64, 0x1_0000_0000_0000_0000, 0x1_0000_0000_0000_0000);
  }

  lemma {:induction false} Doubling(a: nat, b: nat, x: nat, y: nat)
    requires x == Pow2(a) && y == Pow2(b)
    ensures Pow2(a + b) == x * y
    decreases a
  {
    if a == 0 {
      assert x == 1;
    } else {
      var h := Pow2(a - 1);
      Doubling(a - 1, b, h, y);
      assert Pow2(a + b) == 2 * Pow2(a - 1 + b);
      MulDouble(y, h);
      assert x * y == y * (2 * h) && h * y == y * h;
    }
  }

  /** What containment means for both address families; a prefix beyond the width, or the
      other family, contains nothing. */
  ghost predicate Inside(net: IpAddr, prefix: u32, ip: IpAddr) {
    match (net, ip)
    case (V4(n), V4(a)) => prefix <= 32 && InBlock(32, prefix, n, a)
    case (V6(n), V6(a)) => prefix <= 128 && InBlock(128, prefix, n, a)
    case _ => false
  }

  lemma CidrMeansBlock(net: IpAddr, prefix: u32, ip: IpAddr)
    ensures CidrContains(net, prefix, ip) <==> Inside(net, prefix, ip)
  {
    WordSizes();
    match (net, ip) {
      case (V4(n), V4(a)) =>
        if prefix <= 32 {
          MaskMeansBlock(32, prefix, n, a);
        }
      case (V6(n), V6(a)) =>
        if prefix <= 128 {
          MaskMeansBlock(128, prefix, n, a);
        }
      case _ =>
    }
  }

  // ---- The pod matcher -------------------------------------------------------------------------

  datatype Cidr = Cidr(net: IpAddr, prefix: u32)

  predicate Contains(cidrs: seq<Cidr>, ip: IpAddr) {
    exists i | 0 <= i < |cidrs| :: CidrContains(cidrs[i].net, cidrs[i].prefix, ip)
  }

  ghost predicate InsideAny(cidrs: seq<Cidr>, ip: IpAddr) {
    exists i | 0 <= i < |cidrs| :: Inside(cidrs[i].net, cidrs[i].prefix, ip)
  }

  lemma ContainsMeansInside(cidrs: seq<Cidr>, ip: IpAddr)
    ensures Contains(cidrs, ip) <==> InsideAny(cidrs, ip)
  {
    forall i | 0 <= i < |cidrs|
      ensures CidrContains(cidrs[i].net, cidrs[i].prefix, ip) <==> Inside(cidrs[i].net, cidrs[i].prefix, ip)
    {
      CidrMeansBlock(cidrs[i].net, cidrs[i].prefix, ip);
    }
  }

  /** The flow's endpoint inside a pod block, the low one first; none exactly when both
      endpoints lie outside every block. */
  method LocalPodIp(cidrs: seq<Cidr>, key: FlowKey) returns (r: Option<IpAddr>)
    ensures r == None <==> !InsideAny(cidrs, key.low.ip) && !InsideAny(cidrs, key.high.ip)
    ensures r.Some? ==> r.value == if InsideAny(cidrs, key.low.ip) then key.low.ip else key.high.ip
  {
    hide Contains, InsideAny;
    ContainsMeansInside(cidrs, key.low.ip);
    ContainsMeansInside(cidrs, key.high.ip);
    var endpoints := [key.low, key.high];
    for i := 0 to |endpoints|
      invariant i > 0 ==> !Contains(cidrs, key.low.ip)
      invariant i > 1 ==> !Contains(cidrs, key.high.ip)
    {
      if Contains(cidrs, endpoints[i].ip) {
        return Some(endpoints[i].ip);
      }
    }
    return None;
  }
}
