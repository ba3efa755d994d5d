/**
 The layouts of the standards (section 3.1 of RFC 791, section 4 of RFC 8200,
 section 3.1 of RFC 9293, RFC 768) as an encoder, and the proof that the decoder
 recovers every field of every packet so laid out.
 */
module Layout {
  import opened Types
  import opened Wire
  import opened Parse

  // ---- Transport segments ---------------------------------------------------------------

  type u4 = x: int | 0 <= x < 16

  datatype Segment =
    | TcpSegment(sport: u16, dport: u16, seqNo: u32, ack: u32, reserved: u4, control: u8, window: u16,
                 checksum: u16, urgent: u16, options: seq<u8>, payload: seq<u8>)
    | UdpSegment(sport: u16, dport: u16, checksum: u16, payload: seq<u8>)
  {
    ghost predicate WellFormed() {
      if TcpSegment? then |options| % 4 == 0 && |options| <= 40 else |payload| + 8 < 0x1_0000
    }

    function Proto(): u8 {
      if TcpSegment? then 6 else 17
    }
  }

  function TcpHeader(s: Segment): (h: seq<u8>)
    requires s.TcpSegment? && s.WellFormed()
    ensures |h| == 20
  {
    var ports := Bytes16(s.sport) + Bytes16(s.dport);
    var words := (5 + |s.options| / 4) * 16 + s.reserved;
    ports + Bytes32(s.seqNo) + Bytes32(s.ack) + ([words, s.control] + Bytes16(s.window)) +
    (Bytes16(s.checksum) + Bytes16(s.urgent))
  }

  function UdpHeader(s: Segment): (h: seq<u8>)
    requires s.UdpSegment? && s.WellFormed()
    ensures |h| == 8
  {
    Bytes16(s.sport) + Bytes16(s.dport) + Bytes16(|s.payload| + 8) + Bytes16(s.checksum)
  }

  function EncodeSegment(s: Segment): (b: seq<u8>)
    requires s.WellFormed()
    ensures |b| == |s.payload| + if s.TcpSegment? then 20 + |s.options| else 8
  {
    if s.TcpSegment? then TcpHeader(s) + s.options + s.payload else UdpHeader(s) + s.payload
  }

  /** The record that a segment between two addresses stands for. */
  function MetaOf(s: Segment, src: IpAddr, dst: IpAddr, ttl: u8, ts: u64, iface: u32): PacketMeta
    requires s.WellFormed() && |s.payload| < 0x1_0000
  {
    var proto := if s.TcpSegment? then Tcp else Udp;
    var (key, dir) := Canonical(Endpoint(src, s.sport), Endpoint(dst, s.dport), proto);
    if s.TcpSegment? then
      PacketMeta(ts, key, dir, Tcp, TcpFlags(s.control % 64), s.seqNo, s.ack, s.window, |s.payload|, ttl, iface)
    else
      PacketMeta(ts, key, dir, Udp, TcpFlags(0), 0, 0, 0, |s.payload|, ttl, iface)
  }

  // Reading a field of a header `h` that lies at offset `at` of the packet `b`.

  lemma Field16(b: seq<u8>, at: nat, h: seq<u8>, i: nat, x: u16)
    requires Holds(b, at, h) && Holds(h, i, Bytes16(x))
    ensures U16(b, at + i) == x
  {
    hide Bytes16, U16;
    HoldsPart(b, at, h, i, i + 2);
    Shift16(b, at + i, Bytes16(x));
  }

  lemma Field32(b: seq<u8>, at: nat, h: seq<u8>, i: nat, x: u32)
    requires Holds(b, at, h) && Holds(h, i, Bytes32(x))
    ensures U32(b, at + i) == x
  {
    hide Bytes32, U32;
    HoldsPart(b, at, h, i, i + 4);
    Shift32(b, at + i, Bytes32(x));
  }

  lemma Field128(b: seq<u8>, at: nat, h: seq<u8>, i: nat, x: u128)
    requires Holds(b, at, h) && Holds(h, i, Bytes128(x))
    ensures U128(b, at + i) == x
  {
    hide Bytes128, U128;
    HoldsPart(b, at, h, i, i + 16);
    Shift128(b, at + i, Bytes128(x));
  }

  lemma FieldByte(b: seq<u8>, at: nat, h: seq<u8>, i: nat)
    requires Holds(b, at, h) && i < |h|
    ensures b[at + i] == h[i]
  {
    assert b[at + i] == b[at..at + |h|][i];
  }

  lemma TcpHeaderFields(s: Segment, b: seq<u8>)
    requires s.TcpSegment? && s.WellFormed() && Holds(b, 0, TcpHeader(s))
    ensures U16(b, 0) == s.sport && U16(b, 2) == s.dport && U32(b, 4) == s.seqNo && U32(b, 8) == s.ack
    ensures b[12] / 16 * 4 == 20 + |s.options| && b[13] == s.control && U16(b, 14) == s.window
  {
    var h := TcpHeader(s);
    Field16(b, 0, h, 0, s.sport);
    Field16(b, 0, h, 2, s.dport);
    Field32(b, 0, h, 4, s.seqNo);
    Field32(b, 0, h, 8, s.ack);
    FieldByte(b, 0, h, 12);
    FieldByte(b, 0, h, 13);
    Field16(b, 0, h, 14, s.window);
  }

  lemma UdpHeaderFields(s: Segment, b: seq<u8>)
    requires s.UdpSegment? && s.WellFormed() && Holds(b, 0, UdpHeader(s))
    ensures U16(b, 0) == s.sport && U16(b, 2) == s.dport && U16(b, 4) == |s.payload| + 8
  {
    var h := UdpHeader(s);
    Field16(b, 0, h, 0, s.sport);
    Field16(b, 0, h, 2, s.dport);
    Field16(b, 0, h, 4, |s.payload| + 8);
  }

  lemma DecodeTcp(s: Segment, b: seq<u8>, src: IpAddr, dst: IpAddr, ttl: u8, ts: u64, iface: u32)
    requires s.TcpSegment? && s.WellFormed() && |EncodeSegment(s)| < 0x1_0000 && Holds(b, 0, TcpHeader(s))
    ensures Transport(6, src, dst, ttl, b, |EncodeSegment(s)|, ts, iface) ==
            Some(MetaOf(s, src, dst, ttl, ts, iface))
  {
    TcpHeaderFields(s, b);
  }

  lemma DecodeUdp(s: Segment, b: seq<u8>, src: IpAddr, dst: IpAddr, ttl: u8, ts: u64, iface: u32)
    requires s.UdpSegment? && s.WellFormed() && |EncodeSegment(s)| < 0x1_0000 && Holds(b, 0, UdpHeader(s))
    ensures Transport(17, src, dst, ttl, b, |EncodeSegment(s)|, ts, iface) ==
            Some(MetaOf(s, src, dst, ttl, ts, iface))
  {
    UdpHeaderFields(s, b);
  }

  /** A segment is decoded to its record, whatever bytes trail it in the capture. */
  lemma DecodeSegment(s: Segment, trailer: seq<u8>, src: IpAddr, dst: IpAddr, ttl: u8, ts: u64, iface: u32)
    requires s.WellFormed() && |EncodeSegment(s)| < 0x1_0000
    ensures Transport(s.Proto(), src, dst, ttl, EncodeSegment(s) + trailer, |EncodeSegment(s)|, ts, iface) ==
            Some(MetaOf(s, src, dst, ttl, ts, iface))
  {
    var b := EncodeSegment(s) + trailer;
    if s.TcpSegment? {
      Prefixed(TcpHeader(s), s.options, s.payload, trailer);
      DecodeTcp(s, b, src, dst, ttl, ts, iface);
    } else {
      Prefixed(UdpHeader(s), s.payload, trailer, []);
      assert UdpHeader(s) + s.payload + trailer + [] == b;
      DecodeUdp(s, b, src, dst, ttl, ts, iface);
    }
  }

  // ---- IPv4 ---------------------------------------------------------------------------------

  /** Everything IPv4 carries besides the segment; `fragment` is the whole flags-and-offset field. */
  datatype Ipv4 = Ipv4(tos: u8, id: u16, fragment: u16, ttl: u8, checksum: u16, src: u32, dst: u32, options: seq<u8>) {
    ghost predicate WellFormed(s: Segment) {
      s.WellFormed() && |options| % 4 == 0 && |options| <= 40 && 20 + |options| + |EncodeSegment(s)| < 0x1_0000
    }
  }

  function Ipv4Header(ip: Ipv4, s: Segment): (h: seq<u8>)
    requires ip.WellFormed(s)
    ensures |h| == 20
  {
    var ihl := |ip.options| / 4 + 5;
    ([0x40 + ihl, ip.tos] + Bytes16(20 + |ip.options| + |EncodeSegment(s)|)) +
    (Bytes16(ip.id) + Bytes16(ip.fragment)) + ([ip.ttl, s.Proto()] + Bytes16(ip.checksum)) +
    Bytes32(ip.src) + Bytes32(ip.dst)
  }

  function EncodeIpv4(ip: Ipv4, s: Segment): (b: seq<u8>)
    requires ip.WellFormed(s)
    ensures |b| == 20 + |ip.options| + |EncodeSegment(s)|
  {
    Ipv4Header(ip, s) + ip.options + EncodeSegment(s)
  }

  lemma FiveParts(b: seq<u8>, v: seq<u8>, w: seq<u8>, x: seq<u8>, y: seq<u8>, z: seq<u8>)
    requires Holds(b, 0, v + w + x + y + z)
    ensures Holds(b, 0, v) && Holds(b, |v| + |w|, x)
    ensures Holds(b, |v| + |w| + |x|, y) && Holds(b, |v| + |w| + |x| + |y|, z)
  {
    ChainParts(b, 0, v + w + x + y, z);
    ChainParts(b, 0, v + w + x, y);
    ChainParts(b, 0, v + w, x);
    ChainParts(b, 0, v, w);
  }

  lemma Ipv4HeaderFields(ip: Ipv4, s: Segment, b: seq<u8>)
    requires ip.WellFormed(s) && Holds(b, 0, Ipv4Header(ip, s))
    ensures b[0] == 0x45 + |ip.options| / 4 && U16(b, 2) == |EncodeIpv4(ip, s)| && b[8] == ip.ttl && b[9] == s.Proto()
    ensures U32(b, 12) == ip.src && U32(b, 16) == ip.dst
  {
    hide Bytes16, Bytes32, EncodeSegment, EncodeIpv4;
    var total := Bytes16(20 + |ip.options| + |EncodeSegment(s)|);
    var first, last := [0x40 + (|ip.options| / 4 + 5), ip.tos], [ip.ttl, s.Proto()];
    FiveParts(b, first + total, Bytes16(ip.id) + Bytes16(ip.fragment), last + Bytes16(ip.checksum),
              Bytes32(ip.src), Bytes32(ip.dst));
    ChainParts(b, 0, first, total);
    ChainParts(b, 8, last, Bytes16(ip.checksum));
    FieldByte(b, 0, first, 0);
    FieldByte(b, 8, last, 0);
    FieldByte(b, 8, last, 1);
    Shift16(b, 2, total);
    Shift32(b, 12, Bytes32(ip.src));
    Shift32(b, 16, Bytes32(ip.dst));
  }

  /** The decoder on a fully captured packet with known header fields. */
  lemma Ipv4ByFields(b: seq<u8>, ihl: nat, total: u16, ts: u64, iface: u32)
    requires 20 <= ihl <= total <= |b| && b[0] % 16 * 4 == ihl && U16(b, 2) == total
    ensures Ipv4Packet(b, ts, iface) ==
            Transport(b[9], V4(U32(b, 12)), V4(U32(b, 16)), b[8], b[ihl..], total - ihl, ts, iface)
  {
  }

  lemma DecodeIpv4Header(ip: Ipv4, s: Segment, b: seq<u8>, ts: u64, iface: u32)
    requires ip.WellFormed(s) && Holds(b, 0, Ipv4Header(ip, s)) && |b| >= |EncodeIpv4(ip, s)|
    ensures Ipv4Packet(b, ts, iface) ==
            Transport(s.Proto(), V4(ip.src), V4(ip.dst), ip.ttl, b[20 + |ip.options|..], |EncodeSegment(s)|, ts, iface)
  {
    hide Ipv4Packet, Transport, Ipv4Header, EncodeSegment, EncodeIpv4, Holds;
    Ipv4HeaderFields(ip, s, b);
    Ipv4ByFields(b, 20 + |ip.options|, 20 + |ip.options| + |EncodeSegment(s)|, ts, iface);
  }

  lemma DecodeIpv4(ip: Ipv4, s: Segment, trailer: seq<u8>, ts: u64, iface: u32)
    requires ip.WellFormed(s)
    ensures Ipv4Packet(EncodeIpv4(ip, s) + trailer, ts, iface) ==
            Some(MetaOf(s, V4(ip.src), V4(ip.dst), ip.ttl, ts, iface))
  {
    Prefixed(Ipv4Header(ip, s), ip.options, EncodeSegment(s), trailer);
    DecodeIpv4Header(ip, s, EncodeIpv4(ip, s) + trailer, ts, iface);
    DecodeSegment(s, trailer, V4(ip.src), V4(ip.dst), ip.ttl, ts, iface);
  }

  // ---- IPv6 ---------------------------------------------------------------------------------

  /** An extension header: options, routing or authentication with its length byte, or a
      fragment header, `rest` being all its bytes but the first. */
  datatype Extension = Options(kind: u8, lengthByte: u8, body: seq<u8>) | Fragment(rest: seq<u8>) {
    ghost predicate WellFormed() {
      if Options? then kind in [0, 43, 51, 60] && |body| + 2 == StandardSpan(kind, lengthByte) else |rest| == 7
    }

    function Number(): u8 {
      if Options? then kind else 44
    }
  }

  /** The span of a header by the standards: section 4.2 of RFC 8200, and section 2.2 of
      RFC 4302 for the authentication header. */
  function StandardSpan(kind: u8, lengthByte: u8): nat {
    if kind == 51 then (lengthByte + 2) * 4 else (lengthByte + 1) * 8
  }

  function EncodeExtension(x: Extension, next: u8): seq<u8> {
    if x.Options? then [next, x.lengthByte] + x.body else [next] + x.rest
  }

  function FirstOf(xs: seq<Extension>, proto: u8): u8 {
    if xs == [] then proto else xs[0].Number()
  }

  function EncodeChain(xs: seq<Extension>, proto: u8): seq<u8> {
    if xs == [] then [] else EncodeExtension(xs[0], FirstOf(xs[1..], proto)) + EncodeChain(xs[1..], proto)
  }

  /** The decoder gives this header its standard span. */
  predicate SpanAgrees(x: Extension, next: u8) {
    x.Options? ==> SpanOf(next, x.lengthByte) == StandardSpan(x.kind, x.lengthByte)
  }

  /** Exactly when that is so: the decoder tells an authentication header by the number of
      the header after it, so the header must be one just if its successor is, unless its
      length byte is zero and the two rules coincide. */
  lemma SpanAgreesExactly(x: Extension, next: u8)
    ensures SpanAgrees(x, next) <==> x.Fragment? || x.lengthByte == 0 || (x.kind == 51 <==> next == 51)
  {
  }

  /** Every header of the chain is laid out by the standards. */
  ghost predicate ChainWellFormed(xs: seq<Extension>) {
    forall i | 0 <= i < |xs| :: xs[i].WellFormed()
  }

  /** The decoder gives every header of the chain its standard span. */
  predicate ChainAgrees(xs: seq<Extension>, proto: u8) {
    xs != [] ==> SpanAgrees(xs[0], FirstOf(xs[1..], proto)) && ChainAgrees(xs[1..], proto)
  }

  /** Chains without authentication headers always agree. */
  lemma {:induction false} PlainChainAgrees(xs: seq<Extension>, proto: u8)
    requires proto == 6 || proto == 17
    requires forall i | 0 <= i < |xs| :: xs[i].Number() != 51
    ensures ChainAgrees(xs, proto)
  {
    if xs != [] {
      PlainChainAgrees(xs[1..], proto);
      SpanAgreesExactly(xs[0], FirstOf(xs[1..], proto));
    }
  }

  lemma StepExtension(d: seq<u8>, at: nat, x: Extension, next: u8, end: nat)
    requires x.WellFormed() && SpanAgrees(x, next) && Holds(d, at, EncodeExtension(x, next))
    requires at + |EncodeExtension(x, next)| < end
    ensures StepHeader(d, end, Cursor(x.Number(), at)) == Some(Cursor(next, at + |EncodeExtension(x, next)|))
  {
    var h := EncodeExtension(x, next);
    FieldByte(d, at, h, 0);
    FieldByte(d, at, h, 1);
  }

  lemma ExtensionsAreNotTransport(x: Extension, at: nat)
    requires x.WellFormed()
    ensures !AtTransport(Cursor(x.Number(), at))
  {
  }

  lemma ChainStep(d: seq<u8>, at: nat, xs: seq<Extension>, next: u8, end: nat, n: nat)
    requires xs != [] && n > 0 && ChainWellFormed(xs) && ChainAgrees(xs, next)
    requires Holds(d, at, EncodeChain(xs, next)) && at + |EncodeChain(xs, next)| < end
    ensures
      var at' := at + |EncodeExtension(xs[0], FirstOf(xs[1..], next))|;
      && Holds(d, at', EncodeChain(xs[1..], next))
      && at' + |EncodeChain(xs[1..], next)| == at + |EncodeChain(xs, next)|
      && WalkHeaders(d, end, Cursor(FirstOf(xs, next), at), n) ==
         WalkHeaders(d, end, Cursor(FirstOf(xs[1..], next), at'), n - 1)
  {
    hide WalkHeaders, EncodeExtension, SpanAgrees;
    var x, after := xs[0], FirstOf(xs[1..], next);
    ExtensionsAreNotTransport(x, at);
    ChainParts(d, at, EncodeExtension(x, after), EncodeChain(xs[1..], next));
    StepExtension(d, at, x, after, end);
    WalkStep(d, end, Cursor(x.Number(), at), Cursor(after, at + |EncodeExtension(x, after)|), n);
  }

  lemma TailAgrees(xs: seq<Extension>, next: u8)
    requires xs != [] && ChainWellFormed(xs) && ChainAgrees(xs, next)
    ensures ChainWellFormed(xs[1..]) && ChainAgrees(xs[1..], next)
  {
  }

  /** An agreeing chain of at most `n` headers is crossed to whatever header follows it. */
  lemma {:induction false} CrossChain(d: seq<u8>, at: nat, xs: seq<Extension>, next: u8, end: nat, n: nat)
    requires |xs| <= n && ChainWellFormed(xs) && ChainAgrees(xs, next)
    requires Holds(d, at, EncodeChain(xs, next)) && at + |EncodeChain(xs, next)| < end
    ensures WalkHeaders(d, end, Cursor(FirstOf(xs, next), at), n) ==
            WalkHeaders(d, end, Cursor(next, at + |EncodeChain(xs, next)|), n - |xs|)
    decreases |xs|
  {
    hide WalkHeaders, EncodeExtension, SpanAgrees, Holds;
    if xs != [] {
      ChainStep(d, at, xs, next, end, n);
      TailAgrees(xs, next);
      CrossChain(d, at + |EncodeExtension(xs[0], FirstOf(xs[1..], next))|, xs[1..], next, end, n - 1);
    }
  }

  /** The walk stops at the transport header, or after `n` headers short of it. */
  ghost predicate Crosses(r: Option<Cursor>, at: nat, xs: seq<Extension>, proto: u8, n: nat) {
    if |xs| <= n then r == Some(Cursor(proto, at + |EncodeChain(xs, proto)|))
    else r.Some? && !AtTransport(r.value)
  }

  lemma {:induction false} WalkChain(d: seq<u8>, at: nat, xs: seq<Extension>, proto: u8, end: nat, n: nat)
    requires (proto == 6 || proto == 17) && ChainWellFormed(xs) && ChainAgrees(xs, proto)
    requires Holds(d, at, EncodeChain(xs, proto)) && at + |EncodeChain(xs, proto)| < end
    ensures Crosses(WalkHeaders(d, end, Cursor(FirstOf(xs, proto), at), n), at, xs, proto, n)
    decreases |xs|
  {
    hide WalkHeaders;
    if |xs| <= n {
      CrossChain(d, at, xs, proto, end, n);
      WalkStop(d, end, Cursor(proto, at + |EncodeChain(xs, proto)|), n - |xs|);
    } else if n == 0 {
      WalkStop(d, end, Cursor(xs[0].Number(), at), 0);
      ExtensionsAreNotTransport(xs[0], at);
    } else {
      ChainStep(d, at, xs, proto, end, n);
      WalkChain(d, at + |EncodeExtension(xs[0], FirstOf(xs[1..], proto))|, xs[1..], proto, end, n - 1);
    }
  }

  datatype Ipv6 = Ipv6(trafficHigh: u4, traffic: seq<u8>, hopLimit: u8, src: u128, dst: u128, chain: seq<Extension>) {
    ghost predicate WellFormed(s: Segment) {
      s.WellFormed() && |traffic| == 3 && ChainWellFormed(chain) &&
      |EncodeChain(chain, s.Proto())| + |EncodeSegment(s)| < 0x1_0000
    }
  }

  function FixedHeader(trafficHigh: u4, traffic: seq<u8>, size: u16, first: u8, hopLimit: u8, src: u128,
                       dst: u128): (h: seq<u8>)
    requires |traffic| == 3
    ensures |h| == 40
  {
    ([0x60 + trafficHigh] + traffic) + (Bytes16(size) + [first, hopLimit]) + Bytes128(src) + Bytes128(dst)
  }

  function Ipv6Header(ip: Ipv6, s: Segment): (h: seq<u8>)
    requires ip.WellFormed(s)
    ensures |h| == 40
  {
    FixedHeader(ip.trafficHigh, ip.traffic, |EncodeChain(ip.chain, s.Proto())| + |EncodeSegment(s)|,
                FirstOf(ip.chain, s.Proto()), ip.hopLimit, ip.src, ip.dst)
  }

  function EncodeIpv6(ip: Ipv6, s: Segment): (b: seq<u8>)
    requires ip.WellFormed(s)
  {
    Ipv6Header(ip, s) + EncodeChain(ip.chain, s.Proto()) + EncodeSegment(s)
  }

  /** The fields of forty bytes laid out as version, fixed part and two addresses. */
  lemma AddressFields(b: seq<u8>, version: seq<u8>, fixed: seq<u8>, src: u128, dst: u128)
    requires |version| == |fixed| == 4 && Holds(b, 0, version + fixed + Bytes128(src) + Bytes128(dst))
    ensures Holds(b, 0, version) && Holds(b, 4, fixed) && U128(b, 8) == src && U128(b, 24) == dst
  {
    hide Bytes128, U128;
    var h := version + fixed + Bytes128(src) + Bytes128(dst);
    FourParts(version, fixed, Bytes128(src), Bytes128(dst));
    HoldsPart(b, 0, h, 0, 4);
    HoldsPart(b, 0, h, 4, 8);
    Field128(b, 0, h, 8, src);
    Field128(b, 0, h, 24, dst);
  }

  lemma FixedFields(b: seq<u8>, trafficHigh: u4, traffic: seq<u8>, size: u16, first: u8, hopLimit: u8, src: u128,
                    dst: u128)
    requires |traffic| == 3 && Holds(b, 0, FixedHeader(trafficHigh, traffic, size, first, hopLimit, src, dst))
    ensures b[0] == 0x60 + trafficHigh && U16(b, 4) == size && b[6] == first && b[7] == hopLimit
    ensures U128(b, 8) == src && U128(b, 24) == dst
  {
    var version, tail := [0x60 + trafficHigh] + traffic, [first, hopLimit];
    AddressFields(b, version, Bytes16(size) + tail, src, dst);
    ChainParts(b, 4, Bytes16(size), tail);
    Shift16(b, 4, Bytes16(size));
    FieldByte(b, 0, version, 0);
    FieldByte(b, 6, tail, 0);
    FieldByte(b, 6, tail, 1);
  }

  /** The decoder on a packet whose walk is known. */
  lemma Ipv6ByWalk(b: seq<u8>, c: Cursor, ts: u64, iface: u32)
    requires |b| >= 40 && WalkHeaders(b, Ipv6End(b), Cursor(b[6], 40), 8) == Some(c)
    ensures 40 <= c.off <= Ipv6End(b) <= |b|
    ensures Ipv6Packet(b, ts, iface) ==
            Transport(c.next, V6(U128(b, 8)), V6(U128(b, 24)), b[7], b[c.off..], Ipv6End(b) - c.off, ts, iface)
  {
  }

  lemma TransportOnly(proto: u8, src: IpAddr, dst: IpAddr, ttl: u8, l4: seq<u8>, ipPayload: u32, ts: u64, iface: u32)
    requires proto != 6 && proto != 17
    ensures Transport(proto, src, dst, ttl, l4, ipPayload, ts, iface) == None
  {
  }

  /** The fields the decoder starts from, and the end it computes, for a fully captured packet. */
  lemma Ipv6Fields(ip: Ipv6, s: Segment, b: seq<u8>)
    requires ip.WellFormed(s) && Holds(b, 0, Ipv6Header(ip, s)) && |b| >= |EncodeIpv6(ip, s)|
    ensures |b| >= 40 && b[6] == FirstOf(ip.chain, s.Proto()) && b[7] == ip.hopLimit
    ensures U128(b, 8) == ip.src && U128(b, 24) == ip.dst
    ensures U16(b, 4) == |EncodeChain(ip.chain, s.Proto())| + |EncodeSegment(s)|
    ensures Ipv6End(b) == 40 + |EncodeChain(ip.chain, s.Proto())| + |EncodeSegment(s)|
  {
    hide FixedHeader, EncodeSegment, EncodeChain;
    FixedFields(b, ip.trafficHigh, ip.traffic, |EncodeChain(ip.chain, s.Proto())| + |EncodeSegment(s)|,
                FirstOf(ip.chain, s.Proto()), ip.hopLimit, ip.src, ip.dst);
  }

  /** The three parts of a packet with its trailer. */
  lemma Ipv6Parts(ip: Ipv6, s: Segment, trailer: seq<u8>)
    requires ip.WellFormed(s)
    ensures
      var b, chain := EncodeIpv6(ip, s) + trailer, EncodeChain(ip.chain, s.Proto());
      && Holds(b, 0, Ipv6Header(ip, s)) && Holds(b, 40, chain)
      && |EncodeIpv6(ip, s)| == 40 + |chain| + |EncodeSegment(s)|
      && b[40 + |chain|..] == EncodeSegment(s) + trailer
  {
    hide EncodeSegment, EncodeChain, Ipv6Header;
    var h, chain, b := Ipv6Header(ip, s), EncodeChain(ip.chain, s.Proto()), EncodeIpv6(ip, s) + trailer;
    Prefixed(h, chain, EncodeSegment(s), trailer);
    assert b == h + chain + (EncodeSegment(s) + trailer);
    Placed(h, chain, EncodeSegment(s) + trailer);
  }

  lemma DecodeIpv6Header(ip: Ipv6, s: Segment, b: seq<u8>, ts: u64, iface: u32)
    requires ip.WellFormed(s) && ChainAgrees(ip.chain, s.Proto())
    requires Holds(b, 0, Ipv6Header(ip, s)) && |b| >= |EncodeIpv6(ip, s)|
    requires Holds(b, 40, EncodeChain(ip.chain, s.Proto()))
    ensures
      var off := 40 + |EncodeChain(ip.chain, s.Proto())|;
      Ipv6Packet(b, ts, iface) ==
      if |ip.chain| <= 8
      then Transport(s.Proto(), V6(ip.src), V6(ip.dst), ip.hopLimit, b[off..], |EncodeSegment(s)|, ts, iface)
      else None
  {
    hide WalkHeaders, Ipv6Packet, Transport, Ipv6Header, EncodeSegment, EncodeChain, ChainAgrees;
    Ipv6Fields(ip, s, b);
    WalkChain(b, 40, ip.chain, s.Proto(), Ipv6End(b), 8);
    var c := WalkHeaders(b, Ipv6End(b), Cursor(b[6], 40), 8).value;
    Ipv6ByWalk(b, c, ts, iface);
    if |ip.chain| > 8 {
      TransportOnly(c.next, V6(ip.src), V6(ip.dst), ip.hopLimit, b[c.off..], Ipv6End(b) - c.off, ts, iface);
    }
  }

  /** An IPv6 packet whose chain the decoder spans rightly is decoded to its record exactly if
      the chain has at most eight headers. */
  lemma DecodeIpv6(ip: Ipv6, s: Segment, trailer: seq<u8>, ts: u64, iface: u32)
    requires ip.WellFormed(s) && ChainAgrees(ip.chain, s.Proto())
    ensures Ipv6Packet(EncodeIpv6(ip, s) + trailer, ts, iface) ==
            if |ip.chain| <= 8 then Some(MetaOf(s, V6(ip.src), V6(ip.dst), ip.hopLimit, ts, iface))
            else None
  {
    hide Ipv6Packet, Transport, EncodeSegment, EncodeChain, Ipv6Header, MetaOf, EncodeIpv6;
    Ipv6Parts(ip, s, trailer);
    DecodeIpv6Header(ip, s, EncodeIpv6(ip, s) + trailer, ts, iface);
    DecodeSegment(s, trailer, V6(ip.src), V6(ip.dst), ip.hopLimit, ts, iface);
  }

  // ---- Authentication headers -----------------------------------------------------------------

  lemma {:induction false} EncodeChainSnoc(xs: seq<Extension>, x: Extension, proto: u8)
    ensures EncodeChain(xs + [x], proto) == EncodeChain(xs, x.Number()) + EncodeExtension(x, proto)
    ensures FirstOf(xs + [x], proto) == FirstOf(xs, x.Number())
  {
    hide EncodeExtension;
    if xs == [] {
      assert [] + [x] == [x] && [x][1..] == [];
      assert EncodeChain([x], proto) == EncodeExtension(x, proto) + [];
    } else {
      assert (xs + [x])[1..] == xs[1..] + [x];
      EncodeChainSnoc(xs[1..], x, proto);
    }
  }

  /** The walk over an authentication header in front of the transport header overshoots the
      transport header by four bytes for each unit of the length byte. */
  lemma OvershootHeader(d: seq<u8>, at: nat, x: Extension, proto: u8, end: nat, n: nat)
    requires x.Options? && x.kind == 51 && x.WellFormed() && (proto == 6 || proto == 17) && n > 0
    requires Holds(d, at, EncodeExtension(x, proto))
    ensures
      var off := at + |EncodeExtension(x, proto)| + 4 * x.lengthByte;
      WalkHeaders(d, end, Cursor(51, at), n) == if off < end then Some(Cursor(proto, off)) else None
  {
    hide WalkHeaders;
    var h := EncodeExtension(x, proto);
    var off := at + |h| + 4 * x.lengthByte;
    FieldByte(d, at, h, 0);
    FieldByte(d, at, h, 1);
    assert off == at + SpanOf(proto, x.lengthByte);
    if off < end {
      WalkStep(d, end, Cursor(51, at), Cursor(proto, off), n);
      WalkStop(d, end, Cursor(proto, off), n - 1);
    } else {
      WalkGivesUp(d, end, Cursor(51, at), n);
    }
  }

  lemma OvershootChain(d: seq<u8>, xs: seq<Extension>, x: Extension, proto: u8, end: nat)
    requires x.Options? && x.kind == 51 && x.WellFormed() && (proto == 6 || proto == 17)
    requires ChainWellFormed(xs) && ChainAgrees(xs, 51) && |xs| < 8
    requires Holds(d, 40, EncodeChain(xs + [x], proto)) && 40 + |EncodeChain(xs + [x], proto)| < end
    ensures
      var off := 40 + |EncodeChain(xs + [x], proto)| + 4 * x.lengthByte;
      WalkHeaders(d, end, Cursor(FirstOf(xs + [x], proto), 40), 8) ==
      if off < end then Some(Cursor(proto, off)) else None
  {
    hide WalkHeaders, EncodeChain, EncodeExtension, ChainAgrees;
    EncodeChainSnoc(xs, x, proto);
    ChainParts(d, 40, EncodeChain(xs, 51), EncodeExtension(x, proto));
    CrossChain(d, 40, xs, 51, end, 8);
    OvershootHeader(d, 40 + |EncodeChain(xs, 51)|, x, proto, end, 8 - |xs|);
  }

  /** What becomes of a packet whose last extension header is an authentication header with
      length byte `l`: the decoder reads the transport header 4 * l bytes too late, inside the
      segment or what trails it, and gives up if the segment is no longer than that. */
  lemma DecodeAuthenticated(ip: Ipv6, s: Segment, xs: seq<Extension>, x: Extension, trailer: seq<u8>, ts: u64,
                            iface: u32)
    requires ip.WellFormed(s) && ip.chain == xs + [x] && x.Options? && x.kind == 51
    requires ChainAgrees(xs, 51) && |ip.chain| <= 8
    ensures
      var skip, size := 4 * x.lengthByte, |EncodeSegment(s)|;
      Ipv6Packet(EncodeIpv6(ip, s) + trailer, ts, iface) ==
      if skip >= size then None
      else Transport(s.Proto(), V6(ip.src), V6(ip.dst), ip.hopLimit, (EncodeSegment(s) + trailer)[skip..], size - skip,
                     ts, iface)
  {
    hide WalkHeaders, Transport, EncodeSegment, EncodeChain, Ipv6Header, EncodeIpv6, ChainAgrees, Ipv6End, U128;
    var b, skip, size := EncodeIpv6(ip, s) + trailer, 4 * x.lengthByte, |EncodeSegment(s)|;
    var at := 40 + |EncodeChain(ip.chain, s.Proto())|;
    Ipv6Parts(ip, s, trailer);
    Ipv6Fields(ip, s, b);
    assert x == ip.chain[|xs|] && forall i | 0 <= i < |xs| :: xs[i] == ip.chain[i];
    OvershootChain(b, xs, x, s.Proto(), Ipv6End(b));
    if skip < size {
      assert b[at + skip..] == b[at..][skip..];
    }
  }
}
