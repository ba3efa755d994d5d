/**
 Big-endian fields in byte sequences, and their layout.
 */
module Wire {
  import opened Types

  function U16(b: seq<u8>, i: nat): u16
    requires i + 2 <= |b|
  {
    var hi: int, lo: int := b[i], b[i + 1];
    hi * 0x100 + lo
  }

  function U32(b: seq<u8>, i: nat): u32
    requires i + 4 <= |b|
  {
    var hi: int, lo: int := U16(b, i), U16(b, i + 2);
    hi * 0x1_0000 + lo
  }

  function U64(b: seq<u8>, i: nat): u64
    requires i + 8 <= |b|
  {
    var hi: int, lo: int := U32(b, i), U32(b, i + 4);
    hi * 0x1_0000_0000 + lo
  }

  function U128(b: seq<u8>, i: nat): u128
    requires i + 16 <= |b|
  {
    var hi: int, lo: int := U64(b, i), U64(b, i + 8);
    hi * 0x1_0000_0000_0000_0000 + lo
  }

  function Bytes16(x: u16): (r: seq<u8>)
    ensures |r| == 2 && U16(r, 0) == x
  {
    [x / 0x100, x % 0x100]
  }

  function Bytes32(x: u32): (r: seq<u8>)
    ensures |r| == 4 && U32(r, 0) == x
  {
    Bytes16(x / 0x1_0000) + Bytes16(x % 0x1_0000)
  }

  function Bytes64(x: u64): (r: seq<u8>)
    ensures |r| == 8 && U64(r, 0) == x
  {
    var hi, lo := Bytes32(x / 0x1_0000_0000), Bytes32(x % 0x1_0000_0000);
    Shift32(hi + lo, 0, hi);
    Shift32(hi + lo, 4, lo);
    hi + lo
  }

  function Bytes128(x: u128): (r: seq<u8>)
    ensures |r| == 16 && U128(r, 0) == x
  {
    var hi, lo := Bytes64(x / 0x1_0000_0000_0000_0000), Bytes64(x % 0x1_0000_0000_0000_0000);
    Shift64(hi + lo, 0, hi);
    Shift64(hi + lo, 8, lo);
    hi + lo
  }

  // ---- Network byte order --------------------------------------------------------------------

  /** The number whose base-256 digits are the bytes, the most significant first. */
  function Number(b: seq<u8>): nat {
    if b == [] then 0
    else
      var low: nat := b[|b| - 1];
      0x100 * Number(b[..|b| - 1]) + low
  }

  lemma NumberSnoc(b: seq<u8>, x: u8)
    ensures Number(b + [x]) == 0x100 * Number(b) + x as int
  {
    assert (b + [x])[..|b|] == b;
  }

  lemma TwoBytes(a: seq<u8>, b: seq<u8>)
    requires |b| == 2
    ensures Number(a + b) == 0x1_0000 * Number(a) + U16(b, 0)
  {
    assert a + b == (a + [b[0]]) + [b[1]];
    NumberSnoc(a, b[0]);
    NumberSnoc(a + [b[0]], b[1]);
  }

  lemma FourBytes(a: seq<u8>, b: seq<u8>)
    requires |b| == 4
    ensures Number(a + b) == 0x1_0000_0000 * Number(a) + U32(b, 0)
  {
    assert a + b == (a + b[..2]) + b[2..];
    TwoBytes(a, b[..2]);
    TwoBytes(a + b[..2], b[2..]);
  }

  lemma EightBytes(a: seq<u8>, b: seq<u8>)
    requires |b| == 8
    ensures Number(a + b) == 0x1_0000_0000_0000_0000 * Number(a) + U64(b, 0)
  {
    assert a + b == (a + b[..4]) + b[4..];
    FourBytes(a, b[..4]);
    FourBytes(a + b[..4], b[4..]);
    Shift32(b, 0, b[..4]);
    Shift32(b, 4, b[4..]);
  }

  /** Fields are read in network byte order. */
  lemma NetworkOrder(b: seq<u8>, i: nat)
    ensures i + 2 <= |b| ==> U16(b, i) == Number(b[i..i + 2])
    ensures i + 4 <= |b| ==> U32(b, i) == Number(b[i..i + 4])
    ensures i + 16 <= |b| ==> U128(b, i) == Number(b[i..i + 16])
  {
    hide U32, U128;
    if i + 2 <= |b| {
      TwoBytes([], b[i..i + 2]);
      assert [] + b[i..i + 2] == b[i..i + 2];
      Shift16(b, i, b[i..i + 2]);
    }
    if i + 4 <= |b| {
      FourBytes([], b[i..i + 4]);
      assert [] + b[i..i + 4] == b[i..i + 4];
      Shift32(b, i, b[i..i + 4]);
    }
    if i + 16 <= |b| {
      SixteenBytes(b[i..i + 16]);
      Shift128(b, i, b[i..i + 16]);
    }
  }

  lemma SixteenBytes(w: seq<u8>)
    requires |w| == 16
    ensures U128(w, 0) == Number(w)
  {
    hide U64, Number;
    EightBytes([], w[..8]);
    EightBytes(w[..8], w[8..]);
    assert [] + w[..8] == w[..8] && w[..8] + w[8..] == w;
    Shift64(w, 0, w[..8]);
    Shift64(w, 8, w[8..]);
    assert Number([]) == 0 by { NothingIsZero(); }
  }

  lemma NothingIsZero()
    ensures Number([]) == 0
  {
  }

  /** `s` holds the bytes `part` at offset `i`. */
  predicate Holds(s: seq<u8>, i: nat, part: seq<u8>) {
    i + |part| <= |s| && s[i..i + |part|] == part
  }

  lemma Placed(before: seq<u8>, part: seq<u8>, after: seq<u8>)
    ensures Holds(before + part + after, |before|, part)
  {
  }

  lemma Starts(part: seq<u8>, after: seq<u8>)
    ensures Holds(part + after, 0, part) && (part + after)[|part|..] == after
  {
  }

  lemma HoldsPart(s: seq<u8>, i: nat, part: seq<u8>, from: nat, to: nat)
    requires Holds(s, i, part) && from <= to <= |part|
    ensures Holds(s, i + from, part[from..to])
  {
    var window := s[i..i + |part|];
    forall k | 0 <= k < to - from ensures s[i + from..i + to][k] == window[from..to][k] {
      assert window[from + k] == s[i + (from + k)];
    }
  }

  lemma Prefixed(a: seq<u8>, b: seq<u8>, c: seq<u8>, d: seq<u8>)
    ensures Holds(a + b + c + d, 0, a) && (a + b + c + d)[|a| + |b|..] == c + d
  {
    assert a + b + c + d == a + (b + c + d);
  }

  lemma ChainParts(d: seq<u8>, at: nat, head: seq<u8>, rest: seq<u8>)
    requires Holds(d, at, head + rest)
    ensures Holds(d, at, head) && Holds(d, at + |head|, rest)
  {
    var chain := head + rest;
    assert chain[0..|head|] == head && chain[|head|..|chain|] == rest;
    HoldsPart(d, at, chain, 0, |head|);
    HoldsPart(d, at, chain, |head|, |chain|);
  }

  lemma FourParts(a: seq<u8>, b: seq<u8>, c: seq<u8>, d: seq<u8>)
    ensures Holds(a + b + c + d, 0, a) && Holds(a + b + c + d, |a|, b)
    ensures Holds(a + b + c + d, |a| + |b|, c) && Holds(a + b + c + d, |a| + |b| + |c|, d)
  {
    assert a + b + c + d == a + b + (c + d);
  }

  lemma Shift16(s: seq<u8>, i: nat, part: seq<u8>)
    requires |part| == 2 && Holds(s, i, part)
    ensures U16(s, i) == U16(part, 0)
  {
    assert part[0] == s[i] && part[1] == s[i + 1];
  }

  lemma Shift32(s: seq<u8>, i: nat, part: seq<u8>)
    requires |part| == 4 && Holds(s, i, part)
    ensures U32(s, i) == U32(part, 0)
  {
    assert part[0] == s[i] && part[1] == s[i + 1] && part[2] == s[i + 2] && part[3] == s[i + 3];
  }

  lemma Shift64(s: seq<u8>, i: nat, part: seq<u8>)
    requires |part| == 8 && Holds(s, i, part)
    ensures U64(s, i) == U64(part, 0)
  {
    HoldsPart(s, i, part, 0, 4);
    HoldsPart(s, i, part, 4, 8);
    Shift32(s, i, part[0..4]);
    Shift32(s, i + 4, part[4..8]);
    Shift32(part, 0, part[0..4]);
    Shift32(part, 4, part[4..8]);
  }

  lemma Shift128(s: seq<u8>, i: nat, part: seq<u8>)
    requires |part| == 16 && Holds(s, i, part)
    ensures U128(s, i) == U128(part, 0)
  {
    HoldsPart(s, i, part, 0, 8);
    HoldsPart(s, i, part, 8, 16);
    Shift64(s, i, part[0..8]);
    Shift64(s, i + 8, part[8..16]);
    Shift64(part, 0, part[0..8]);
    Shift64(part, 8, part[8..16]);
  }
}
