/**
 The wire decoder: link layer, IPv4 or IPv6, TCP or UDP. Any byte sequence is
 decoded to a packet record or to nothing.
 */
module Parse {
  import opened Types
  import opened Wire

  const DLT_NULL: u32 := 0
  const DLT_EN10MB: u32 := 1
  const DLT_RAW: u32 := 101
  const DLT_LINUX_SLL: u32 := 113

  const ETH_P_IP: u16 := 0x0800
  const ETH_P_IPV6: u16 := 0x86DD
  const ETH_P_VLAN: u16 := 0x8100
  const ETH_P_QINQ: u16 := 0x88A8

  const IPPROTO_TCP: u8 := 6
  const IPPROTO_UDP: u8 := 17
  const AH: u8 := 51
  const FRAGMENT: u8 := 44
  const MAX_EXTENSIONS: nat := 8

  predicate IsTransport(proto: u8) {
    proto == IPPROTO_TCP || proto == IPPROTO_UDP
  }

  function HeaderSize(proto: u8): nat {
    if proto == IPPROTO_TCP then 20 else 8
  }

  function Build(src: Endpoint, dst: Endpoint, proto: Protocol, flags: TcpFlags, seqNo: u32, ack: u32,
                 window: u32, payloadLen: u32, ttl: u8, ts: u64, iface: u32): PacketMeta {
    var (key, dir) := Canonical(src, dst, proto);
    PacketMeta(ts, key, dir, proto, flags, seqNo, ack, window, payloadLen, ttl, iface)
  }

  // ---- The transport header -----------------------------------------------------------

  /** `l4` is everything captured after the IP headers; `ipPayload` what IP says of it. */
  function Transport(proto: u8, src: IpAddr, dst: IpAddr, ttl: u8, l4: seq<u8>, ipPayload: u32, ts: u64,
                     iface: u32): Option<PacketMeta> {
    if proto == IPPROTO_TCP then
      if |l4| < 20 || l4[12] / 16 * 4 < 20 then None
      else Some(Build(Endpoint(src, U16(l4, 0)), Endpoint(dst, U16(l4, 2)), Tcp, TcpFlags(l4[13] % 64),
                      U32(l4, 4), U32(l4, 8), U16(l4, 14), SatSub(ipPayload, l4[12] / 16 * 4), ttl, ts, iface))
    else if proto == IPPROTO_UDP then
      if |l4| < 8 then None
      else Some(Build(Endpoint(src, U16(l4, 0)), Endpoint(dst, U16(l4, 2)), Udp, TcpFlags(0),
                      0, 0, 0, SatSub(U16(l4, 4), 8), ttl, ts, iface))
    else None
  }

  function Min(a: int, b: int): int {
    if a < b then a else b
  }

  // ---- IPv4 ---------------------------------------------------------------------------

  function Ipv4Packet(d: seq<u8>, ts: u64, iface: u32): Option<PacketMeta> {
    if |d| < 20 then None
    else
      var ihl := d[0] % 16 * 4;
      if ihl < 20 || |d| < ihl then None
      else
        Transport(d[9], V4(U32(d, 12)), V4(U32(d, 16)), d[8], d[ihl..],
                  Min(SatSub(U16(d, 2), ihl), |d| - ihl), ts, iface)
  }

  // ---- IPv6 ---------------------------------------------------------------------------

  predicate IsOptions(kind: u8) {
    kind == 0 || kind == 43 || kind == 60 || kind == AH
  }

  /** The span the decoder gives an options header, from its length byte and the number
      of the header that follows it. */
  function SpanOf(next: u8, lengthByte: u8): nat {
    if next == AH then (lengthByte + 2) * 4 else (lengthByte + 1) * 8
  }

  /** Where the walk stands: at the header numbered `next`, found at `off`. */
  datatype Cursor = Cursor(next: u8, off: nat)

  predicate AtTransport(c: Cursor) {
    IsTransport(c.next)
  }

  /** One step over an extension header; None where the walk gives up. */
  function StepHeader(d: seq<u8>, end: nat, c: Cursor): (r: Option<Cursor>)
    ensures r.Some? ==> c.off < r.value.off < end
  {
    var stepped :=
      if IsOptions(c.next) then
        if c.off + 2 > |d| then None
        else Some(Cursor(d[c.off], c.off + SpanOf(d[c.off], d[c.off + 1])))
      else if c.next == FRAGMENT then
        if c.off >= |d| then None
        else Some(Cursor(d[c.off], c.off + 8))
      else None;
    if stepped.Some? && stepped.value.off < end then stepped else None
  }

  /** At most `n` steps, stopping at a transport header. */
  function WalkHeaders(d: seq<u8>, end: nat, c: Cursor, n: nat): (r: Option<Cursor>)
    ensures r.Some? ==> r.value == c || c.off < r.value.off < end
    decreases n, end
  {
    if n == 0 || AtTransport(c) then Some(c)
    else
      var next := StepHeader(d, end, c);
      if next.None? then None else WalkHeaders(d, end, next.value, n - 1)
  }

  lemma WalkStop(d: seq<u8>, end: nat, c: Cursor, n: nat)
    requires n == 0 || AtTransport(c)
    ensures WalkHeaders(d, end, c, n) == Some(c)
  {
  }

  lemma WalkStep(d: seq<u8>, end: nat, c: Cursor, c': Cursor, n: nat)
    requires n > 0 && !AtTransport(c) && StepHeader(d, end, c) == Some(c')
    ensures WalkHeaders(d, end, c, n) == WalkHeaders(d, end, c', n - 1)
  {
  }

  lemma WalkGivesUp(d: seq<u8>, end: nat, c: Cursor, n: nat)
    requires n > 0 && !AtTransport(c)
    ensures StepHeader(d, end, c) == None ==> WalkHeaders(d, end, c, n) == None
  {
  }

  function Ipv6End(d: seq<u8>): nat
    requires |d| >= 40
  {
    Min(40 + U16(d, 4), |d|)
  }

  function Ipv6Packet(d: seq<u8>, ts: u64, iface: u32): Option<PacketMeta> {
    if |d| < 40 then None
    else
      var c := WalkHeaders(d, Ipv6End(d), Cursor(d[6], 40), MAX_EXTENSIONS);
      if c.None? then None
      else Transport(c.value.next, V6(U128(d, 8)), V6(U128(d, 24)), d[7], d[c.value.off..],
                     Ipv6End(d) - c.value.off, ts, iface)
  }

  /** The decoder's loop over extension headers, at most `n` of them. */
  method WalkExtensions(d: seq<u8>, end: nat, first: u8, n: nat) returns (r: Option<Cursor>)
    ensures r == WalkHeaders(d, end, Cursor(first, 40), n)
  {
    hide WalkHeaders;
    var next := first;
    var off: nat := 40;
    for i := 0 to n
      invariant WalkHeaders(d, end, Cursor(first, 40), n) == WalkHeaders(d, end, Cursor(next, off), n - i)
    {
      ghost var c := Cursor(next, off);
      if next == IPPROTO_TCP || next == IPPROTO_UDP {
        WalkStop(d, end, c, n - i);
        return Some(Cursor(next, off));
      }
      WalkGivesUp(d, end, c, n - i);
      if next == 0 || next == 43 || next == 60 || next == 51 {
        if off + 2 > |d| {
          return None;
        }
        var lengthByte: int := d[off + 1];
        next := d[off];
        off := off + if next == 51 then (lengthByte + 2) * 4 else (lengthByte + 1) * 8;
      } else if next == 44 {
        if off >= |d| {
          return None;
        }
        next := d[off];
        off := off + 8;
      } else {
        return None;
      }
      if off >= end {
        return None;
      }
      WalkStep(d, end, c, Cursor(next, off), n - i);
    }
    WalkStop(d, end, Cursor(next, off), 0);
    r := Some(Cursor(next, off));
  }

  method ParseIpv6(d: seq<u8>, ts: u64, iface: u32) returns (r: Option<PacketMeta>)
    ensures r == Ipv6Packet(d, ts, iface)
  {
    if |d| < 40 {
      return None;
    }
    var payloadLen: int := U16(d, 4);
    var end := Min(40 + payloadLen, |d|);
    var c := WalkExtensions(d, end, d[6], MAX_EXTENSIONS);
    if c.None? {
      return None;
    }
    var off := c.value.off;
    r := Transport(c.value.next, V6(U128(d, 8)), V6(U128(d, 24)), d[7], d[off..], SatSub(end, off), ts, iface);
  }

  // ---- The link layer -----------------------------------------------------------------

  datatype Layer3 = Layer3(etherType: u16, bytes: seq<u8>)

  predicate IsTag(etherType: u16) {
    etherType == ETH_P_VLAN || etherType == ETH_P_QINQ
  }

  /** Steps over at most `n` VLAN tags from the type `et` whose payload starts at `off`. */
  function WalkTags(data: seq<u8>, et: u16, off: nat, n: nat): (r: Option<Layer3>)
    requires off <= |data|
    ensures r.Some? ==> |r.value.bytes| <= |data| - off && Holds(data, |data| - |r.value.bytes|, r.value.bytes)
    decreases n
  {
    if n == 0 || !IsTag(et) then Some(Layer3(et, data[off..]))
    else if off + 4 > |data| then None
    else WalkTags(data, U16(data, off + 2), off + 4, n - 1)
  }

  function ByVersion(bytes: seq<u8>): Option<Layer3> {
    if |bytes| == 0 then None
    else if bytes[0] / 16 == 4 then Some(Layer3(ETH_P_IP, bytes))
    else if bytes[0] / 16 == 6 then Some(Layer3(ETH_P_IPV6, bytes))
    else None
  }

  function LinkPayload(linktype: u32, data: seq<u8>): Option<Layer3> {
    if linktype == DLT_EN10MB then
      if |data| < 14 then None else WalkTags(data, U16(data, 12), 14, 2)
    else if linktype == DLT_LINUX_SLL then
      if |data| < 16 then None else Some(Layer3(U16(data, 14), data[16..]))
    else if linktype == DLT_RAW then ByVersion(data)
    else if linktype == DLT_NULL then
      if |data| < 4 then None else ByVersion(data[4..])
    else None
  }

  /** The decoder's link-layer step, with its loop over tags. */
  method StripLink(linktype: u32, data: seq<u8>) returns (r: Option<Layer3>)
    ensures r == LinkPayload(linktype, data)
  {
    if linktype == DLT_EN10MB {
      if |data| < 14 {
        return None;
      }
      var off := 12;
      var et := U16(data, off);
      off := off + 2;
      for i := 0 to 2
        invariant off <= |data|
        invariant WalkTags(data, U16(data, 12), 14, 2) == WalkTags(data, et, off, 2 - i)
      {
        if et == ETH_P_VLAN || et == ETH_P_QINQ {
          if off + 4 > |data| {
            return None;
          }
          et := U16(data, off + 2);
          off := off + 4;
        } else {
          break;
        }
      }
      return Some(Layer3(et, data[off..]));
    } else if linktype == DLT_LINUX_SLL {
      r := if |data| < 16 then None else Some(Layer3(U16(data, 14), data[16..]));
    } else if linktype == DLT_RAW {
      r := ByVersion(data);
    } else if linktype == DLT_NULL {
      r := if |data| < 5 then None else ByVersion(data[4..]);
    } else {
      r := None;
    }
  }

  function DecodeLayer3(l: Layer3, ts: u64, iface: u32): Option<PacketMeta> {
    if l.etherType == ETH_P_IP then Ipv4Packet(l.bytes, ts, iface)
    else if l.etherType == ETH_P_IPV6 then Ipv6Packet(l.bytes, ts, iface)
    else None
  }

  function DecodeFrame(linktype: u32, data: seq<u8>, ts: u64, iface: u32): Option<PacketMeta> {
    var l := LinkPayload(linktype, data);
    if l.None? then None else DecodeLayer3(l.value, ts, iface)
  }

  method ParseFrame(linktype: u32, data: seq<u8>, ts: u64, iface: u32) returns (r: Option<PacketMeta>)
    ensures r == DecodeFrame(linktype, data, ts, iface)
  {
    var l := StripLink(linktype, data);
    if l.None? {
      return None;
    }
    if l.value.etherType == ETH_P_IP {
      r := Ipv4Packet(l.value.bytes, ts, iface);
    } else if l.value.etherType == ETH_P_IPV6 {
      r := ParseIpv6(l.value.bytes, ts, iface);
    } else {
      r := None;
    }
  }
}
