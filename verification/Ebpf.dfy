/**
 The eBPF capture path: the kernel program's event and its decoding, compared with
 the wire decoder on arbitrary frames.
 */
module Ebpf {
  import opened Types
  import opened Wire
  import opened Parse
  import opened Accepted
  import opened Layout
  import opened Frames

  datatype L4Event = L4Event(
    ts: u64,
    saddr: seq<u8>,
    daddr: seq<u8>,
    sport: u16,
    dport: u16,
    seqNo: u32,
    ack: u32,
    window: u32,
    payloadLen: u32,
    family: u8,
    proto: u8,
    flags: u8,
    ttl: u8,
    iface: u32)

  /** Sixteen bytes, zero but for the copied address. */
  function Padded(addr: seq<u8>): (r: seq<u8>)
    requires |addr| <= 16
    ensures |r| == 16 && Holds(r, 0, addr)
  {
    addr + seq(16 - |addr|, _ => 0)
  }

  // ---- The kernel side ------------------------------------------------------------------

  /** Fills a zeroed record from the transport header at `l4`; None if it does not fit the frame. */
  method EmitL4(ktime: u64, ifindex: u32, frame: seq<u8>, l4: nat, proto: u8, totPayload: u16, family: u8, ttl: u8,
                saddr: seq<u8>, daddr: seq<u8>) returns (r: Option<L4Event>)
    requires IsTransport(proto) && |saddr| <= 16 && |daddr| <= 16
    ensures r == EventAt(ktime, ifindex, frame, l4, proto, totPayload, family, ttl, saddr, daddr)
  {
    var zeros := seq(16, _ => 0);
    var e := L4Event(0, zeros, zeros, 0, 0, 0, 0, 0, 0, 0, 0, 0, 0, 0);
    e := e.(ts := ktime, family := family, proto := proto, ttl := ttl, iface := ifindex);
    e := e.(saddr := Padded(saddr), daddr := Padded(daddr));
    if proto == IPPROTO_TCP {
      if l4 + 20 > |frame| {
        return None;
      }
      var doff := frame[l4 + 12] / 16 * 4;
      e := e.(sport := U16(frame, l4), dport := U16(frame, l4 + 2));
      e := e.(seqNo := U32(frame, l4 + 4), ack := U32(frame, l4 + 8), window := U16(frame, l4 + 14));
      e := e.(flags := frame[l4 + 13] % 64);
      e := e.(payloadLen := if totPayload > doff then totPayload - doff else 0);
    } else {
      if l4 + 8 > |frame| {
        return None;
      }
      e := e.(sport := U16(frame, l4), dport := U16(frame, l4 + 2));
      var ulen := U16(frame, l4 + 4);
      e := e.(payloadLen := if ulen > 8 then ulen - 8 else 0);
    }
    r := Some(e);
  }

  function EventAt(ktime: u64, ifindex: u32, frame: seq<u8>, l4: nat, proto: u8, totPayload: u16, family: u8, ttl: u8,
                   saddr: seq<u8>, daddr: seq<u8>): Option<L4Event>
    requires IsTransport(proto) && |saddr| <= 16 && |daddr| <= 16
  {
    if l4 + HeaderSize(proto) > |frame| then None
    else if proto == IPPROTO_TCP then
      Some(L4Event(ktime, Padded(saddr), Padded(daddr), U16(frame, l4), U16(frame, l4 + 2), U32(frame, l4 + 4),
                   U32(frame, l4 + 8), U16(frame, l4 + 14), SatSub(totPayload, frame[l4 + 12] / 16 * 4),
                   family, proto, frame[l4 + 13] % 64, ttl, ifindex))
    else
      Some(L4Event(ktime, Padded(saddr), Padded(daddr), U16(frame, l4), U16(frame, l4 + 2), 0, 0, 0,
                   SatSub(U16(frame, l4 + 4), 8), family, proto, 0, ttl, ifindex))
  }

  /** The traffic-control program on one frame. */
  method Handle(ktime: u64, ifindex: u32, frame: seq<u8>) returns (r: Option<L4Event>)
    ensures r == KernelEvent(ktime, ifindex, frame)
  {
    r := None;
    if |frame| < 14 {
      return;
    }
    var hproto := U16(frame, 12);
    if hproto == ETH_P_IP {
      if |frame| < 34 || !IsTransport(frame[23]) {
        return;
      }
      var ihl := frame[14] % 16 * 4;
      var tot := U16(frame, 16);
      var payload := if tot > ihl then tot - ihl else 0;
      r := EmitL4(ktime, ifindex, frame, 14 + ihl, frame[23], payload, 4, frame[22], frame[26..30], frame[30..34]);
    } else if hproto == ETH_P_IPV6 {
      if |frame| < 54 || !IsTransport(frame[20]) {
        return;
      }
      r := EmitL4(ktime, ifindex, frame, 54, frame[20], U16(frame, 18), 6, frame[21], frame[22..38], frame[38..54]);
    }
  }

  function KernelEvent(ktime: u64, ifindex: u32, frame: seq<u8>): Option<L4Event> {
    if |frame| >= 34 && U16(frame, 12) == ETH_P_IP && IsTransport(frame[23]) then
      var ihl := frame[14] % 16 * 4;
      EventAt(ktime, ifindex, frame, 14 + ihl, frame[23], SatSub(U16(frame, 16), ihl), 4, frame[22],
              frame[26..30], frame[30..34])
    else if |frame| >= 54 && U16(frame, 12) == ETH_P_IPV6 && IsTransport(frame[20]) then
      EventAt(ktime, ifindex, frame, 54, frame[20], U16(frame, 18), 6, frame[21], frame[22..38], frame[38..54])
    else None
  }

  // ---- The user side ------------------------------------------------------------------------

  function WallClock(wallOffset: u64, ktime: u64): u64 {
    (wallOffset + ktime) % 0x1_0000_0000_0000_0000
  }

  function Decode(wallOffset: u64, e: L4Event): Option<PacketMeta>
    requires |e.saddr| == |e.daddr| == 16
  {
    if !IsTransport(e.proto) || (e.family != 4 && e.family != 6) then None
    else
      var proto := if e.proto == IPPROTO_TCP then Tcp else Udp;
      var src := if e.family == 4 then V4(U32(e.saddr, 0)) else V6(U128(e.saddr, 0));
      var dst := if e.family == 4 then V4(U32(e.daddr, 0)) else V6(U128(e.daddr, 0));
      var (key, dir) := Canonical(Endpoint(src, e.sport), Endpoint(dst, e.dport), proto);
      Some(PacketMeta(WallClock(wallOffset, e.ts), key, dir, proto, TcpFlags(e.flags), e.seqNo, e.ack, e.window,
                      e.payloadLen, e.ttl, e.iface))
  }

  function EbpfPath(wallOffset: u64, ktime: u64, ifindex: u32, frame: seq<u8>): Option<PacketMeta> {
    var e := KernelEvent(ktime, ifindex, frame);
    if e.None? then None else Decode(wallOffset, e.value)
  }

  // ---- Where the two paths part -----------------------------------------------------------------

  /** The IP header and, within it, the transport header that the kernel program reads. */
  predicate IsDirect4(frame: seq<u8>) {
    |frame| >= 34 && U16(frame, 12) == 0x0800 && frame[23] in [6, 17]
  }

  predicate IsDirect6(frame: seq<u8>) {
    |frame| >= 54 && U16(frame, 12) == 0x86DD && frame[20] in [6, 17]
  }

  /** A TCP header at `l4` that is malformed, or whose payload IP claims to reach beyond the capture. */
  predicate TcpDiverges(frame: seq<u8>, l4: nat, ipPayload: nat)
    requires l4 + 20 <= |frame|
  {
    var doff := frame[l4 + 12] / 16 * 4;
    doff < 20 || (l4 + ipPayload > |frame| && ipPayload > doff)
  }

  predicate Diverges4(frame: seq<u8>)
    requires IsDirect4(frame)
  {
    var ihl := frame[14] % 16 * 4;
    14 + ihl + (if frame[23] == 6 then 20 else 8) <= |frame| &&
    (ihl < 20 || (frame[23] == 6 && TcpDiverges(frame, 14 + ihl, SatSub(U16(frame, 16), ihl))))
  }

  predicate Diverges6(frame: seq<u8>)
    requires IsDirect6(frame)
  {
    54 + (if frame[20] == 6 then 20 else 8) <= |frame| && frame[20] == 6 && TcpDiverges(frame, 54, U16(frame, 18))
  }

  /** The wire decoder at the same wall-clock time and interface. */
  function PcapPath(wallOffset: u64, ktime: u64, ifindex: u32, frame: seq<u8>): Option<PacketMeta> {
    DecodeFrame(1, frame, (wallOffset + ktime) % 0x1_0000_0000_0000_0000, ifindex)
  }

  // ---- One transport header, seen from both sides --------------------------------------------------

  lemma Suffix(b: seq<u8>, at: nat, i: nat)
    requires at + i + 2 <= |b|
    ensures U16(b[at..], i) == U16(b, at + i)
  {
  }

  lemma Suffix32(b: seq<u8>, at: nat, i: nat)
    requires at + i + 4 <= |b|
    ensures U32(b[at..], i) == U32(b, at + i)
  {
    Suffix(b, at, i);
    Suffix(b, at, i + 2);
  }

  lemma Suffix128(b: seq<u8>, at: nat, i: nat)
    requires at + i + 16 <= |b|
    ensures U128(b[at..], i) == U128(b, at + i)
  {
    Suffix32(b, at, i);
    Suffix32(b, at, i + 4);
    Suffix32(b, at, i + 8);
    Suffix32(b, at, i + 12);
  }

  function DataOffset(frame: seq<u8>, l4: nat): nat
    requires l4 + 20 <= |frame|
  {
    frame[l4 + 12] / 16 * 4
  }

  /** The record of the transport header at `l4`, given what IP says of its length. */
  function Seen(frame: seq<u8>, l4: nat, proto: u8, src: IpAddr, dst: IpAddr, ttl: u8, ipPayload: u32, ts: u64,
                iface: u32): PacketMeta
    requires IsTransport(proto) && l4 + HeaderSize(proto) <= |frame|
  {
    var s, d := Endpoint(src, U16(frame, l4)), Endpoint(dst, U16(frame, l4 + 2));
    if proto == 6 then
      Build(s, d, Tcp, TcpFlags(frame[l4 + 13] % 64), U32(frame, l4 + 4), U32(frame, l4 + 8), U16(frame, l4 + 14),
            SatSub(ipPayload, DataOffset(frame, l4)), ttl, ts, iface)
    else
      Build(s, d, Udp, TcpFlags(0), 0, 0, 0, SatSub(U16(frame, l4 + 4), 8), ttl, ts, iface)
  }

  lemma TransportSees(frame: seq<u8>, l4: nat, proto: u8, src: IpAddr, dst: IpAddr, ttl: u8, ipPayload: u32,
                      ts: u64, iface: u32)
    requires IsTransport(proto) && l4 <= |frame|
    ensures
      Transport(proto, src, dst, ttl, frame[l4..], ipPayload, ts, iface) ==
      if l4 + HeaderSize(proto) > |frame| || (proto == 6 && DataOffset(frame, l4) < 20) then None
      else Some(Seen(frame, l4, proto, src, dst, ttl, ipPayload, ts, iface))
  {
    if l4 + HeaderSize(proto) <= |frame| {
      Suffix(frame, l4, 0);
      Suffix(frame, l4, 2);
      Suffix(frame, l4, 4);
      if proto == 6 {
        Suffix32(frame, l4, 4);
        Suffix32(frame, l4, 8);
        Suffix(frame, l4, 14);
      }
    }
  }

  /** Clipping the IP length to the capture changes a TCP record exactly when something is clipped. */
  lemma ClippingShows(frame: seq<u8>, l4: nat, src: IpAddr, dst: IpAddr, ttl: u8, ipPayload: u16, ts: u64, iface: u32)
    requires l4 + 20 <= |frame|
    ensures
      Seen(frame, l4, 6, src, dst, ttl, Min(ipPayload, |frame| - l4), ts, iface) ==
      Seen(frame, l4, 6, src, dst, ttl, ipPayload, ts, iface) <==>
      !(l4 + ipPayload > |frame| && ipPayload > DataOffset(frame, l4))
  {
    var clipped := Seen(frame, l4, 6, src, dst, ttl, Min(ipPayload, |frame| - l4), ts, iface);
    assert clipped.payloadLen == SatSub(Min(ipPayload, |frame| - l4), DataOffset(frame, l4));
  }

  /** The two sides agree on one header if and only if it does not diverge. */
  lemma HeaderParity(frame: seq<u8>, l4: nat, proto: u8, src: IpAddr, dst: IpAddr, ttl: u8, ipPayload: u16,
                     ts: u64, iface: u32)
    requires IsTransport(proto) && l4 + HeaderSize(proto) <= |frame|
    ensures
      Transport(proto, src, dst, ttl, frame[l4..], Min(ipPayload, |frame| - l4), ts, iface) ==
      Some(Seen(frame, l4, proto, src, dst, ttl, ipPayload, ts, iface)) <==>
      !(proto == 6 && TcpDiverges(frame, l4, ipPayload))
  {
    hide Transport;
    TransportSees(frame, l4, proto, src, dst, ttl, Min(ipPayload, |frame| - l4), ts, iface);
    if proto == 6 {
      ClippingShows(frame, l4, src, dst, ttl, ipPayload, ts, iface);
    }
  }

  lemma KernelSees(wallOffset: u64, ktime: u64, ifindex: u32, frame: seq<u8>, l4: nat, proto: u8, ipPayload: u16,
                   family: u8, ttl: u8,
                   saddr: seq<u8>, daddr: seq<u8>, src: IpAddr, dst: IpAddr)
    requires IsTransport(proto) && l4 + HeaderSize(proto) <= |frame|
    requires (family == 4 && |saddr| == |daddr| == 4 && src == V4(U32(saddr, 0)) && dst == V4(U32(daddr, 0))) ||
             (family == 6 && |saddr| == |daddr| == 16 && src == V6(U128(saddr, 0)) && dst == V6(U128(daddr, 0)))
    ensures
      var e := EventAt(ktime, ifindex, frame, l4, proto, ipPayload, family, ttl, saddr, daddr);
      e.Some? && Decode(wallOffset, e.value) ==
      Some(Seen(frame, l4, proto, src, dst, ttl, ipPayload, (wallOffset + ktime) % 0x1_0000_0000_0000_0000, ifindex))
  {
    hide U16, U32, U128, Padded;
    AddressSurvives(saddr);
    AddressSurvives(daddr);
  }

  lemma AddressSurvives(addr: seq<u8>)
    requires |addr| == 4 || |addr| == 16
    ensures |addr| == 4 ==> U32(Padded(addr), 0) == U32(addr, 0)
    ensures |addr| == 16 ==> U128(Padded(addr), 0) == U128(addr, 0)
  {
    if |addr| == 4 {
      Shift32(Padded(addr), 0, addr);
    } else {
      Shift128(Padded(addr), 0, addr);
    }
  }

  // ---- Whole frames ----------------------------------------------------------------------------------

  /** The wire decoder on a direct IPv4 frame, in terms of the frame's own bytes. */
  lemma PcapReads4(frame: seq<u8>, ts: u64, iface: u32)
    requires IsDirect4(frame)
    ensures
      var ihl := frame[14] % 16 * 4;
      DecodeFrame(1, frame, ts, iface) ==
      if ihl < 20 || 14 + ihl > |frame| then None
      else Transport(frame[23], V4(U32(frame, 26)), V4(U32(frame, 30)), frame[22], frame[14 + ihl..],
                     Min(SatSub(U16(frame, 16), ihl), |frame| - (14 + ihl)), ts, iface)
  {
    hide Transport, U32;
    var ihl, l3 := frame[14] % 16 * 4, frame[14..];
    assert DecodeFrame(1, frame, ts, iface) == Ipv4Packet(l3, ts, iface);
    Suffix(frame, 14, 2);
    Suffix32(frame, 14, 12);
    Suffix32(frame, 14, 16);
    if 14 + ihl <= |frame| {
      assert l3[ihl..] == frame[14 + ihl..];
    }
  }

  lemma Parity4(wallOffset: u64, ktime: u64, ifindex: u32, frame: seq<u8>)
    requires IsDirect4(frame)
    ensures EbpfPath(wallOffset, ktime, ifindex, frame) == PcapPath(wallOffset, ktime, ifindex, frame) <==>
            !Diverges4(frame)
  {
    hide Transport, EventAt, Decode, DecodeFrame, TcpDiverges, Seen, U32;
    var ts, ihl := WallClock(wallOffset, ktime), frame[14] % 16 * 4;
    var proto, ttl, payload := frame[23], frame[22], SatSub(U16(frame, 16), ihl);
    var src, dst := V4(U32(frame, 26)), V4(U32(frame, 30));
    PcapReads4(frame, ts, ifindex);
    Shift32(frame, 26, frame[26..30]);
    Shift32(frame, 30, frame[30..34]);
    if 14 + ihl + HeaderSize(proto) <= |frame| {
      KernelSees(wallOffset, ktime, ifindex, frame, 14 + ihl, proto, payload, 4, ttl, frame[26..30], frame[30..34],
                 src, dst);
      HeaderParity(frame, 14 + ihl, proto, src, dst, ttl, payload, ts, ifindex);
    } else {
      TooShort(ktime, ifindex, frame, 14 + ihl, proto, payload, 4, ttl, frame[26..30], frame[30..34]);
      if 14 + ihl <= |frame| {
        TransportSees(frame, 14 + ihl, proto, src, dst, ttl, Min(payload, |frame| - (14 + ihl)), ts, ifindex);
      }
    }
  }

  lemma TooShort(ktime: u64, ifindex: u32, frame: seq<u8>, l4: nat, proto: u8, totPayload: u16, family: u8, ttl: u8,
                 saddr: seq<u8>, daddr: seq<u8>)
    requires IsTransport(proto) && |saddr| <= 16 && |daddr| <= 16 && l4 + HeaderSize(proto) > |frame|
    ensures EventAt(ktime, ifindex, frame, l4, proto, totPayload, family, ttl, saddr, daddr) == None
  {
  }

  lemma Parity6(wallOffset: u64, ktime: u64, ifindex: u32, frame: seq<u8>)
    requires IsDirect6(frame)
    ensures EbpfPath(wallOffset, ktime, ifindex, frame) == PcapPath(wallOffset, ktime, ifindex, frame) <==>
            !Diverges6(frame)
  {
    hide Transport, EventAt, Decode, WalkHeaders, U128;
    var ts, l3 := WallClock(wallOffset, ktime), frame[14..];
    var proto, ttl, size := frame[20], frame[21], U16(frame, 18);
    var src, dst := V6(U128(frame, 22)), V6(U128(frame, 38));
    assert PcapPath(wallOffset, ktime, ifindex, frame) == Ipv6Packet(l3, ts, ifindex);
    Suffix(frame, 14, 4);
    Suffix128(frame, 14, 8);
    Suffix128(frame, 14, 24);
    Shift128(frame, 22, frame[22..38]);
    Shift128(frame, 38, frame[38..54]);
    WalkStop(l3, Ipv6End(l3), Cursor(proto, 40), 8);
    assert l3[40..] == frame[54..];
    if 54 + HeaderSize(proto) <= |frame| {
      KernelSees(wallOffset, ktime, ifindex, frame, 54, proto, size, 6, ttl, frame[22..38], frame[38..54], src, dst);
      HeaderParity(frame, 54, proto, src, dst, ttl, size, ts, ifindex);
    } else {
      TransportSees(frame, 54, proto, src, dst, ttl, Min(size, |frame| - 54), ts, ifindex);
      TooShort(ktime, ifindex, frame, 54, proto, size, 6, ttl, frame[22..38], frame[38..54]);
    }
  }

  /** On every frame whatever, the two capture paths agree if and only if the frame's direct
      transport header does not diverge, or, where the kernel program finds none, the frame's
      bytes are none that the wire decoder accepts. */
  lemma ParityExactly(wallOffset: u64, ktime: u64, ifindex: u32, frame: seq<u8>)
    ensures
      EbpfPath(wallOffset, ktime, ifindex, frame) == PcapPath(wallOffset, ktime, ifindex, frame) <==>
      if IsDirect4(frame) then !Diverges4(frame)
      else if IsDirect6(frame) then !Diverges6(frame)
      else !Accepts(1, frame)
  {
    hide DecodeFrame, Accepts, Diverges4, Diverges6;
    if IsDirect4(frame) {
      Parity4(wallOffset, ktime, ifindex, frame);
    } else if IsDirect6(frame) {
      Parity6(wallOffset, ktime, ifindex, frame);
    } else {
      DecodesExactly(1, frame, WallClock(wallOffset, ktime), ifindex);
    }
  }

  // ---- Well-formed packets do not diverge --------------------------------------------------------------

  lemma SegmentDoesNotDiverge(frame: seq<u8>, l4: nat, s: Segment, trailer: seq<u8>)
    requires s.WellFormed() && l4 <= |frame| && frame[l4..] == EncodeSegment(s) + trailer
    ensures l4 + HeaderSize(s.Proto()) <= |frame|
    ensures s.TcpSegment? ==> !TcpDiverges(frame, l4, |EncodeSegment(s)|)
  {
    if s.TcpSegment? {
      Prefixed(TcpHeader(s), s.options, s.payload, trailer);
      TcpHeaderFields(s, frame[l4..]);
      assert frame[l4..][12] == frame[l4 + 12];
    }
  }

  /** What the kernel program reads of a well-formed IPv4 packet behind an untagged Ethernet header. */
  lemma Ipv4AsRead(frame: seq<u8>, ip: Ipv4, s: Segment, trailer: seq<u8>)
    requires ip.WellFormed(s) && |frame| >= 14 && frame[14..] == EncodeIpv4(ip, s) + trailer
    ensures
      var ihl := 20 + |ip.options|;
      && |frame| >= 14 + ihl && frame[14] % 16 * 4 == ihl && frame[23] == s.Proto()
      && U16(frame, 16) == ihl + |EncodeSegment(s)| && frame[14 + ihl..] == EncodeSegment(s) + trailer
  {
    hide EncodeSegment, Ipv4Header, U16, U32;
    var l3, ihl := frame[14..], 20 + |ip.options|;
    Prefixed(Ipv4Header(ip, s), ip.options, EncodeSegment(s), trailer);
    Ipv4HeaderFields(ip, s, l3);
    assert l3[0] == frame[14] && l3[9] == frame[23];
    Suffix(frame, 14, 2);
    HeaderWords(|ip.options|);
    assert frame[14 + ihl..] == l3[ihl..];
  }

  lemma HeaderWords(options: nat)
    requires options % 4 == 0 && options <= 40
    ensures (0x45 + options / 4) % 16 * 4 == 20 + options
  {
  }

  lemma Ipv4DoesNotDiverge(frame: seq<u8>, ip: Ipv4, s: Segment, trailer: seq<u8>)
    requires ip.WellFormed(s)
    requires |frame| >= 14 && U16(frame, 12) == 0x0800 && frame[14..] == EncodeIpv4(ip, s) + trailer
    ensures IsDirect4(frame) && !Diverges4(frame)
  {
    hide EncodeSegment, EncodeIpv4, TcpDiverges, U16;
    Ipv4AsRead(frame, ip, s, trailer);
    SegmentDoesNotDiverge(frame, 14 + (20 + |ip.options|), s, trailer);
  }

  lemma Ipv6DoesNotDiverge(frame: seq<u8>, ip: Ipv6, s: Segment, trailer: seq<u8>)
    requires ip.WellFormed(s) && ip.chain == []
    requires |frame| >= 14 && U16(frame, 12) == 0x86DD && frame[14..] == EncodeIpv6(ip, s) + trailer
    ensures IsDirect6(frame) && !Diverges6(frame)
  {
    hide EncodeSegment, Ipv6Header, EncodeIpv6, TcpDiverges, U128;
    var l3 := frame[14..];
    Ipv6Parts(ip, s, trailer);
    Ipv6Fields(ip, s, l3);
    assert l3[6] == frame[20];
    Suffix(frame, 14, 4);
    assert frame[54..] == l3[40..];
    SegmentDoesNotDiverge(frame, 54, s, trailer);
  }

  /** The parity contract: on every well-formed, fully captured, untagged Ethernet frame whose
      transport header follows the IP header, both capture paths yield exactly the packet's fields. */
  lemma BackendParity(wallOffset: u64, ktime: u64, ifindex: u32, macs: seq<u8>, p: Packet, trailer: seq<u8>)
    requires |macs| == 12 && p.WellFormed() && (p.P6? ==> p.ip6.chain == [])
    ensures
      var frame := LinkHeader(Ethernet(macs, []), p.EtherType()) + (EncodePacket(p) + trailer);
      EbpfPath(wallOffset, ktime, ifindex, frame) == PcapPath(wallOffset, ktime, ifindex, frame) ==
      Some(Fields(p, (wallOffset + ktime) % 0x1_0000_0000_0000_0000, ifindex))
  {
    hide EbpfPath, DecodeFrame, EncodeIpv4, EncodeIpv6, IsDirect4, IsDirect6, Diverges4, Diverges6;
    var link, l3 := Ethernet(macs, []), EncodePacket(p) + trailer;
    var frame := LinkHeader(link, p.EtherType()) + l3;
    Placed(macs, Bytes16(p.EtherType()), l3);
    Shift16(frame, 12, Bytes16(p.EtherType()));
    Starts(LinkHeader(link, p.EtherType()), l3);
    if p.P4? {
      Ipv4DoesNotDiverge(frame, p.ip4, p.s, trailer);
    } else {
      Ipv6DoesNotDiverge(frame, p.ip6, p.s, trailer);
      DirectOnce(frame);
    }
    ParityExactly(wallOffset, ktime, ifindex, frame);
    LayoutRoundTrip(link, p, trailer, WallClock(wallOffset, ktime), ifindex);
  }

  lemma DirectOnce(frame: seq<u8>)
    ensures !(IsDirect4(frame) && IsDirect6(frame))
  {
  }

  // ---- Tags and extension headers -----------------------------------------------------------------------

  lemma BlindBehindTags(ktime: u64, ifindex: u32, frame: seq<u8>)
    requires |frame| >= 14 && IsTag(U16(frame, 12))
    ensures KernelEvent(ktime, ifindex, frame) == None
  {
  }

  lemma BlindBeforeExtensions(ktime: u64, ifindex: u32, frame: seq<u8>, ip: Ipv6, s: Segment, trailer: seq<u8>)
    requires ip.WellFormed(s) && ip.chain != []
    requires |frame| >= 14 && U16(frame, 12) == 0x86DD && frame[14..] == EncodeIpv6(ip, s) + trailer
    ensures KernelEvent(ktime, ifindex, frame) == None
  {
    hide EventAt, EncodeIpv6, Ipv6Header;
    Ipv6Parts(ip, s, trailer);
    Ipv6Fields(ip, s, frame[14..]);
    ExtensionsAreNotTransport(ip.chain[0], 40);
    assert frame[14..][6] == frame[20];
  }

  predicate IsDirect(tags: seq<Tag>, p: Packet) {
    tags == [] && (p.P6? ==> p.ip6.chain == [])
  }

  lemma KernelIsBlind(wallOffset: u64, ktime: u64, ifindex: u32, macs: seq<u8>, tags: seq<Tag>, p: Packet,
                      trailer: seq<u8>)
    requires |macs| == 12 && p.WellFormed() && !IsDirect(tags, p)
    ensures
      var frame := LinkHeader(Ethernet(macs, tags), p.EtherType()) + (EncodePacket(p) + trailer);
      EbpfPath(wallOffset, ktime, ifindex, frame) == None
  {
    hide KernelEvent, EncodeIpv4, EncodeIpv6, EncodeTags;
    var l3 := EncodePacket(p) + trailer;
    var types := EncodeTags(tags, p.EtherType());
    var frame := macs + types + l3;
    Placed(macs, types, l3);
    TagParts(frame, 12, tags, p.EtherType());
    if tags != [] {
      BlindBehindTags(ktime, ifindex, frame);
    } else {
      Starts(macs + types, l3);
      BlindBeforeExtensions(ktime, ifindex, frame, p.ip6, p.s, trailer);
    }
  }

  /** Parity on Ethernet, exactly: the two paths agree on a well-formed, fully captured packet if
      and only if it has no tags and no extension headers, or so many that both drop it. */
  lemma EthernetParity(wallOffset: u64, ktime: u64, ifindex: u32, macs: seq<u8>, tags: seq<Tag>, p: Packet,
                       trailer: seq<u8>)
    requires |macs| == 12 && p.WellFormed() && p.Agrees()
    ensures
      var link := Ethernet(macs, tags);
      var frame := LinkHeader(link, p.EtherType()) + (EncodePacket(p) + trailer);
      EbpfPath(wallOffset, ktime, ifindex, frame) == PcapPath(wallOffset, ktime, ifindex, frame) <==>
      (tags == [] && (p.P6? ==> p.ip6.chain == [])) || TooManyTags(link) || p.TooLong()
  {
    hide EbpfPath, DecodeFrame, EncodePacket, LinkHeader, Fields;
    if IsDirect(tags, p) {
      BackendParity(wallOffset, ktime, ifindex, macs, p, trailer);
    } else {
      KernelIsBlind(wallOffset, ktime, ifindex, macs, tags, p, trailer);
      LayoutRoundTrip(Ethernet(macs, tags), p, trailer, WallClock(wallOffset, ktime), ifindex);
    }
  }
}
