/**
 Whole frames: an IP packet behind any of the four supported link layers, with any
 VLAN tags, is decoded to exactly its fields.
 */
module Frames {
  import opened Types
  import opened Wire
  import opened Parse
  import opened Layout

  datatype Tag = Tag(stacked: bool, tci: u16) {
    function Tpid(): u16 {
      if stacked then 0x88A8 else 0x8100
    }
  }

  /** `macs`, `cooked` and `family` are the link-layer bytes that the decoder skips. */
  datatype Link =
    | Ethernet(macs: seq<u8>, tags: seq<Tag>)
    | LinuxCooked(cooked: seq<u8>)
    | RawIp
    | Loopback(family: seq<u8>)
  {
    ghost predicate WellFormed() {
      match this
      case Ethernet(macs, _) => |macs| == 12
      case LinuxCooked(cooked) => |cooked| == 14
      case RawIp => true
      case Loopback(family) => |family| == 4
    }

    function LinkType(): u32 {
      match this
      case Ethernet(_, _) => 1
      case LinuxCooked(_) => 113
      case RawIp => 101
      case Loopback(_) => 0
    }
  }

  function EncodeTags(tags: seq<Tag>, etherType: u16): (b: seq<u8>)
    ensures |b| == 4 * |tags| + 2
  {
    if tags == [] then Bytes16(etherType)
    else Bytes16(tags[0].Tpid()) + Bytes16(tags[0].tci) + EncodeTags(tags[1..], etherType)
  }

  function LinkHeader(link: Link, etherType: u16): seq<u8> {
    match link
    case Ethernet(macs, tags) => macs + EncodeTags(tags, etherType)
    case LinuxCooked(cooked) => cooked + Bytes16(etherType)
    case RawIp => []
    case Loopback(family) => family
  }

  // ---- Tags --------------------------------------------------------------------------------

  lemma TagParts(data: seq<u8>, at: nat, tags: seq<Tag>, etherType: u16)
    requires Holds(data, at, EncodeTags(tags, etherType))
    ensures U16(data, at) == if tags == [] then etherType else tags[0].Tpid()
    ensures tags != [] ==> Holds(data, at + 4, EncodeTags(tags[1..], etherType))
  {
    if tags == [] {
      Shift16(data, at, Bytes16(etherType));
    } else {
      var tpid, tci := Bytes16(tags[0].Tpid()), Bytes16(tags[0].tci);
      ChainParts(data, at, tpid + tci, EncodeTags(tags[1..], etherType));
      ChainParts(data, at, tpid, tci);
      Shift16(data, at, tpid);
    }
  }

  /** With at most `n` tags the walk finds the inner type; with more it is left at a tag. */
  lemma {:induction false} WalkAllTags(data: seq<u8>, at: nat, tags: seq<Tag>, etherType: u16, n: nat)
    requires !IsTag(etherType) && Holds(data, at, EncodeTags(tags, etherType))
    ensures
      var r := WalkTags(data, U16(data, at), at + 2, n);
      r.Some? &&
      if |tags| <= n then r.value == Layer3(etherType, data[at + |EncodeTags(tags, etherType)|..])
      else IsTag(r.value.etherType)
    decreases |tags|
  {
    TagParts(data, at, tags, etherType);
    if tags != [] && n > 0 {
      WalkAllTags(data, at + 4, tags[1..], etherType, n - 1);
    }
  }

  // ---- Any link layer ------------------------------------------------------------------------

  predicate TooManyTags(link: Link) {
    link.Ethernet? && |link.tags| > 2
  }

  lemma StripEthernet(link: Link, etherType: u16, l3: seq<u8>)
    requires link.Ethernet? && link.WellFormed() && !IsTag(etherType)
    ensures
      var r := LinkPayload(1, LinkHeader(link, etherType) + l3);
      r.Some? && if TooManyTags(link) then IsTag(r.value.etherType) else r.value == Layer3(etherType, l3)
  {
    var tags := EncodeTags(link.tags, etherType);
    var data := LinkHeader(link, etherType) + l3;
    Placed(link.macs, tags, l3);
    WalkAllTags(data, 12, link.tags, etherType, 2);
    Starts(link.macs + tags, l3);
  }

  lemma StripCooked(link: Link, etherType: u16, l3: seq<u8>)
    requires link.LinuxCooked? && link.WellFormed()
    ensures LinkPayload(113, LinkHeader(link, etherType) + l3) == Some(Layer3(etherType, l3))
  {
    var data := LinkHeader(link, etherType) + l3;
    Placed(link.cooked, Bytes16(etherType), l3);
    Shift16(data, 14, Bytes16(etherType));
    Starts(link.cooked + Bytes16(etherType), l3);
  }

  /** What a packet's first byte says, for the link types that carry no type field. */
  predicate VersionMatches(etherType: u16, l3: seq<u8>) {
    l3 != [] && ((etherType == 0x0800 && l3[0] / 16 == 4) || (etherType == 0x86DD && l3[0] / 16 == 6))
  }

  lemma StripAny(link: Link, etherType: u16, l3: seq<u8>)
    requires link.WellFormed() && VersionMatches(etherType, l3)
    ensures
      var r := LinkPayload(link.LinkType(), LinkHeader(link, etherType) + l3);
      r.Some? && if TooManyTags(link) then IsTag(r.value.etherType) else r.value == Layer3(etherType, l3)
  {
    match link
    case Ethernet(_, _) => StripEthernet(link, etherType, l3);
    case LinuxCooked(_) => StripCooked(link, etherType, l3);
    case RawIp => assert [] + l3 == l3;
    case Loopback(family) => Starts(family, l3);
  }

  // ---- The round trip --------------------------------------------------------------------------

  datatype Packet = P4(ip4: Ipv4, s: Segment) | P6(ip6: Ipv6, s: Segment) {
    ghost predicate WellFormed() {
      if P4? then ip4.WellFormed(s) else ip6.WellFormed(s)
    }

    function EtherType(): u16 {
      if P4? then 0x0800 else 0x86DD
    }

    /** The decoder gives every extension header its standard span; Layout.SpanAgreesExactly
        says when. */
    predicate Agrees() {
      P6? ==> ChainAgrees(ip6.chain, s.Proto())
    }

    predicate TooLong() {
      P6? && |ip6.chain| > 8
    }
  }

  function EncodePacket(p: Packet): seq<u8>
    requires p.WellFormed()
  {
    if p.P4? then EncodeIpv4(p.ip4, p.s) else EncodeIpv6(p.ip6, p.s)
  }

  /** The record with exactly the packet's fields. */
  function Fields(p: Packet, ts: u64, iface: u32): PacketMeta
    requires p.WellFormed()
  {
    if p.P4? then MetaOf(p.s, V4(p.ip4.src), V4(p.ip4.dst), p.ip4.ttl, ts, iface)
    else MetaOf(p.s, V6(p.ip6.src), V6(p.ip6.dst), p.ip6.hopLimit, ts, iface)
  }

  lemma FirstByte4(ip: Ipv4, s: Segment, trailer: seq<u8>)
    requires ip.WellFormed(s)
    ensures VersionMatches(0x0800, EncodeIpv4(ip, s) + trailer)
  {
    hide Ipv4Header, EncodeSegment;
    Prefixed(Ipv4Header(ip, s), ip.options, EncodeSegment(s), trailer);
    Ipv4HeaderFields(ip, s, EncodeIpv4(ip, s) + trailer);
  }

  lemma FirstByte6(ip: Ipv6, s: Segment, trailer: seq<u8>)
    requires ip.WellFormed(s)
    ensures VersionMatches(0x86DD, EncodeIpv6(ip, s) + trailer)
  {
    hide FixedHeader, EncodeChain, EncodeSegment;
    Prefixed(Ipv6Header(ip, s), EncodeChain(ip.chain, s.Proto()), EncodeSegment(s), trailer);
    FixedFields(EncodeIpv6(ip, s) + trailer, ip.trafficHigh, ip.traffic,
                |EncodeChain(ip.chain, s.Proto())| + |EncodeSegment(s)|,
                FirstOf(ip.chain, s.Proto()), ip.hopLimit, ip.src, ip.dst);
  }

  lemma FirstByte(p: Packet, trailer: seq<u8>)
    requires p.WellFormed()
    ensures VersionMatches(p.EtherType(), EncodePacket(p) + trailer)
  {
    if p.P4? {
      FirstByte4(p.ip4, p.s, trailer);
    } else {
      FirstByte6(p.ip6, p.s, trailer);
    }
  }

  lemma DecodePacket(p: Packet, trailer: seq<u8>, ts: u64, iface: u32)
    requires p.WellFormed() && p.Agrees()
    ensures DecodeLayer3(Layer3(p.EtherType(), EncodePacket(p) + trailer), ts, iface) ==
            if p.TooLong() then None else Some(Fields(p, ts, iface))
  {
    if p.P4? {
      DecodeIpv4(p.ip4, p.s, trailer, ts, iface);
    } else {
      DecodeIpv6(p.ip6, p.s, trailer, ts, iface);
    }
  }

  /** Every well-formed, fully captured packet whose extension headers get their standard spans
      comes out as exactly its fields, behind every link layer and before any padding, if and
      only if it has at most two VLAN tags and at most eight extension headers; otherwise it is
      dropped. */
  lemma LayoutRoundTrip(link: Link, p: Packet, trailer: seq<u8>, ts: u64, iface: u32)
    requires link.WellFormed() && p.WellFormed() && p.Agrees()
    ensures
      var frame := LinkHeader(link, p.EtherType()) + (EncodePacket(p) + trailer);
      DecodeFrame(link.LinkType(), frame, ts, iface) ==
      if TooManyTags(link) || p.TooLong() then None else Some(Fields(p, ts, iface))
  {
    hide LinkPayload, Ipv4Packet, Ipv6Packet, EncodePacket, LinkHeader;
    FirstByte(p, trailer);
    StripAny(link, p.EtherType(), EncodePacket(p) + trailer);
    DecodePacket(p, trailer, ts, iface);
  }

  /** The failing family: with an authentication header of length byte `l` right before the
      transport header, the decoder reads the transport header 4 * l bytes too late. */
  lemma AuthenticationHeaderMisread(link: Link, p: Packet, xs: seq<Extension>, x: Extension, trailer: seq<u8>, ts: u64,
                                    iface: u32)
    requires link.WellFormed() && !TooManyTags(link) && p.P6? && p.WellFormed() && p.ip6.chain == xs + [x]
    requires x.Options? && x.kind == 51 && ChainAgrees(xs, 51) && !p.TooLong()
    ensures
      var frame := LinkHeader(link, p.EtherType()) + (EncodePacket(p) + trailer);
      var skip, size := 4 * x.lengthByte, |EncodeSegment(p.s)|;
      DecodeFrame(link.LinkType(), frame, ts, iface) ==
      if skip >= size then None
      else Transport(p.s.Proto(), V6(p.ip6.src), V6(p.ip6.dst), p.ip6.hopLimit, (EncodeSegment(p.s) + trailer)[skip..],
                     size - skip, ts, iface)
  {
    hide LinkPayload, Ipv4Packet, Ipv6Packet, EncodeIpv6, LinkHeader, Transport, EncodeSegment, ChainAgrees;
    FirstByte(p, trailer);
    StripAny(link, p.EtherType(), EncodePacket(p) + trailer);
    DecodeAuthenticated(p.ip6, p.s, xs, x, trailer, ts, iface);
  }

  /** An instance: the common 24-byte authentication header before a TCP header without options,
      as on every bare ACK, hides the packet altogether. */
  lemma AuthenticatedAckIsDropped(link: Link, p: Packet, body: seq<u8>, ts: u64, iface: u32)
    requires link.WellFormed() && !TooManyTags(link) && p.P6? && p.WellFormed()
    requires |body| == 22 && p.ip6.chain == [Options(51, 4, body)]
    requires p.s.TcpSegment? && p.s.options == [] && p.s.payload == []
    ensures DecodeFrame(link.LinkType(), LinkHeader(link, p.EtherType()) + EncodePacket(p), ts, iface) == None
  {
    hide DecodeFrame, EncodeIpv6, LinkHeader, EncodeSegment;
    assert [] + [Options(51, 4, body)] == p.ip6.chain;
    AuthenticationHeaderMisread(link, p, [], Options(51, 4, body), [], ts, iface);
    assert EncodePacket(p) + [] == EncodePacket(p);
  }
}
