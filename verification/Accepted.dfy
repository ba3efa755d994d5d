/**
 Which bytes the wire decoder accepts, and what every record it returns says of them.
 */
module Accepted {
  import opened Types
  import opened Wire
  import opened Parse

  // ---- The transport header ---------------------------------------------------------------

  /** A TCP header, of at least five words, or a UDP header fits into `l4`. */
  predicate HeaderFits(proto: u8, l4: seq<u8>) {
    (proto == 6 && |l4| >= 20 && l4[12] / 16 >= 5) || (proto == 17 && |l4| >= 8)
  }

  lemma TransportAccepts(proto: u8, src: IpAddr, dst: IpAddr, ttl: u8, l4: seq<u8>, ipPayload: u32, ts: u64, iface: u32)
    ensures Transport(proto, src, dst, ttl, l4, ipPayload, ts, iface).Some? <==> HeaderFits(proto, l4)
  {
    if |l4| >= 20 {
      assert l4[12] / 16 * 4 < 20 <==> l4[12] / 16 < 5;
    }
  }

  /** The record names the packet's own source and destination under a canonical key, keeps
      time, hop count and interface, and claims as TCP payload exactly what is left behind the
      whole TCP header of the `room` that IP and the capture leave to the segment. */
  ghost predicate Sound(p: PacketMeta, proto: u8, src: IpAddr, dst: IpAddr, ttl: u8, l4: seq<u8>, room: nat, ts: u64,
                        iface: u32) {
    && HeaderFits(proto, l4)
    && (p.proto == Tcp <==> proto == 6)
    && AtMost(p.key.low, p.key.high) && p.key.proto == p.proto
    && Endpoints(p.key, p.dir) == (Endpoint(src, U16(l4, 0)), Endpoint(dst, U16(l4, 2)))
    && p.ts == ts && p.ttl == ttl && p.iface == iface
    && (p.proto == Tcp ==>
          p.payloadLen == SatSub(room, l4[12] / 16 * 4) && room <= |l4| && p.flags.bits == l4[13] % 64 &&
          p.seqNo == U32(l4, 4) && p.ack == U32(l4, 8) && p.window == U16(l4, 14))
    && (p.proto == Udp ==>
          p.payloadLen == SatSub(U16(l4, 4), 8) && p.flags.bits == p.seqNo == p.ack == p.window == 0)
  }

  lemma TransportIsSound(proto: u8, src: IpAddr, dst: IpAddr, ttl: u8, l4: seq<u8>, ipPayload: u32, ts: u64, iface: u32)
    requires ipPayload <= |l4|
    ensures
      var r := Transport(proto, src, dst, ttl, l4, ipPayload, ts, iface);
      r.Some? ==> Sound(r.value, proto, src, dst, ttl, l4, ipPayload, ts, iface)
  {
    hide U16, U32;
    TransportAccepts(proto, src, dst, ttl, l4, ipPayload, ts, iface);
    if HeaderFits(proto, l4) {
      var s, d := Endpoint(src, U16(l4, 0)), Endpoint(dst, U16(l4, 2));
      CanonicalKeys(s, d, s, d, if proto == 6 then Tcp else Udp);
    }
  }

  /** Where a packet of the claimed length ends, if not before at the end of the capture. */
  function PacketEnd(d: seq<u8>, claimed: nat): nat {
    if claimed < |d| then claimed else |d|
  }

  /** The bytes from `from` to the end of the packet. */
  function Room(d: seq<u8>, claimed: nat, from: nat): nat {
    if from < PacketEnd(d, claimed) then PacketEnd(d, claimed) - from else 0
  }

  // ---- IPv4 ---------------------------------------------------------------------------------

  function HeaderEnd4(d: seq<u8>): nat
    requires |d| >= 20
  {
    d[0] % 16 * 4
  }

  /** The IPv4 header has at least five words, all captured, and a transport header fits behind it. */
  predicate Accepts4(d: seq<u8>) {
    |d| >= 20 && 20 <= HeaderEnd4(d) <= |d| && HeaderFits(d[9], d[HeaderEnd4(d)..])
  }

  lemma Ipv4Accepted(d: seq<u8>, ts: u64, iface: u32)
    ensures Ipv4Packet(d, ts, iface).Some? <==> Accepts4(d)
    ensures Accepts4(d) ==> Sound(Ipv4Packet(d, ts, iface).value, d[9], V4(U32(d, 12)), V4(U32(d, 16)), d[8],
                                  d[HeaderEnd4(d)..], Room(d, U16(d, 2), HeaderEnd4(d)), ts, iface)
  {
    hide Transport, U32, HeaderFits, Sound;
    if |d| >= 20 && 20 <= HeaderEnd4(d) <= |d| {
      var l4 := d[HeaderEnd4(d)..];
      var payload := Min(SatSub(U16(d, 2), HeaderEnd4(d)), |l4|);
      TransportAccepts(d[9], V4(U32(d, 12)), V4(U32(d, 16)), d[8], l4, payload, ts, iface);
      TransportIsSound(d[9], V4(U32(d, 12)), V4(U32(d, 16)), d[8], l4, payload, ts, iface);
    }
  }

  // ---- IPv6 ---------------------------------------------------------------------------------

  /** The two bytes of the extension header at `c` lead to `next`: the first names the header that
      follows; a fragment header spans eight bytes, any other as many as the second byte says, in
      words of four if an authentication header follows and of eight otherwise. The header that
      follows starts before `end`. */
  predicate Leads(d: seq<u8>, end: nat, c: Cursor, next: Cursor) {
    && c.off < |d| && next.next == d[c.off] && next.off < end
    && (|| (c.next == 44 && next.off == c.off + 8)
        || (c.next in [0, 43, 51, 60] && c.off + 1 < |d| &&
            var units: int := d[c.off + 1];
            next.off == c.off + if d[c.off] == 51 then 4 * (units + 2) else 8 * (units + 1)))
  }

  lemma LeadsExactly(d: seq<u8>, end: nat, c: Cursor, next: Cursor)
    ensures StepHeader(d, end, c) == Some(next) <==> Leads(d, end, c, next)
  {
  }

  /** From the header `c` each extension header leads to the next one on the path. */
  ghost predicate IsPath(d: seq<u8>, end: nat, c: Cursor, path: seq<Cursor>) {
    && path != [] && path[0] == c
    && forall i, j | 0 <= i < j < |path| && j == i + 1 :: Leads(d, end, path[i], path[j])
  }

  ghost function EndOf(path: seq<Cursor>): Cursor
    requires path != []
  {
    path[|path| - 1]
  }

  lemma {:induction false} WalkFindsPath(d: seq<u8>, end: nat, c: Cursor, n: nat) returns (path: seq<Cursor>)
    requires WalkHeaders(d, end, c, n).Some?
    ensures IsPath(d, end, c, path) && |path| <= n + 1 && EndOf(path) == WalkHeaders(d, end, c, n).value
    decreases n
  {
    path := [c];
    if n > 0 && !AtTransport(c) {
      var next := StepHeader(d, end, c).value;
      LeadsExactly(d, end, c, next);
      var rest := WalkFindsPath(d, end, next, n - 1);
      path := [c] + rest;
    }
  }

  lemma {:induction false} PathIsWalk(d: seq<u8>, end: nat, c: Cursor, path: seq<Cursor>, n: nat)
    requires IsPath(d, end, c, path) && |path| <= n + 1 && AtTransport(EndOf(path))
    ensures WalkHeaders(d, end, c, n) == Some(EndOf(path))
    decreases |path|
  {
    if |path| == 1 {
      WalkStop(d, end, c, n);
    } else {
      LeadsExactly(d, end, path[0], path[1]);
      PathIsWalk(d, end, path[1], path[1..], n - 1);
      WalkStep(d, end, c, path[1], n);
    }
  }

  /** Within eight extension headers, all inside the packet, a transport header is reached, and it fits. */
  ghost predicate Reaches6(d: seq<u8>, path: seq<Cursor>)
    requires |d| >= 40
  {
    && IsPath(d, PacketEnd(d, 40 + U16(d, 4)), Cursor(d[6], 40), path) && |path| <= 8 + 1
    && EndOf(path).off <= |d| && HeaderFits(EndOf(path).next, d[EndOf(path).off..])
  }

  ghost predicate Accepts6(d: seq<u8>) {
    |d| >= 40 && exists path :: Reaches6(d, path)
  }

  lemma Ipv6OnlyAccepted(d: seq<u8>, ts: u64, iface: u32)
    requires Ipv6Packet(d, ts, iface).Some?
    ensures Accepts6(d)
  {
    hide Transport, HeaderFits, U128;
    var c := WalkHeaders(d, Ipv6End(d), Cursor(d[6], 40), 8).value;
    var path := WalkFindsPath(d, Ipv6End(d), Cursor(d[6], 40), 8);
    TransportAccepts(c.next, V6(U128(d, 8)), V6(U128(d, 24)), d[7], d[c.off..], Ipv6End(d) - c.off, ts, iface);
    assert Reaches6(d, path);
  }

  lemma Ipv6Accepted(d: seq<u8>, path: seq<Cursor>, ts: u64, iface: u32)
    requires |d| >= 40 && Reaches6(d, path)
    ensures Ipv6Packet(d, ts, iface).Some?
    ensures Sound(Ipv6Packet(d, ts, iface).value, EndOf(path).next, V6(U128(d, 8)), V6(U128(d, 24)), d[7],
                  d[EndOf(path).off..], Room(d, 40 + U16(d, 4), EndOf(path).off), ts, iface)
  {
    hide Transport, WalkHeaders, U128, Sound;
    var c := EndOf(path);
    PathIsWalk(d, Ipv6End(d), Cursor(d[6], 40), path, 8);
    TransportAccepts(c.next, V6(U128(d, 8)), V6(U128(d, 24)), d[7], d[c.off..], Ipv6End(d) - c.off, ts, iface);
    TransportIsSound(c.next, V6(U128(d, 8)), V6(U128(d, 24)), d[7], d[c.off..], Ipv6End(d) - c.off, ts, iface);
  }

  // ---- The link layer -----------------------------------------------------------------------

  /** What the link layer says is IP: its type, and where the packet starts. */
  ghost predicate Carries(linktype: u32, data: seq<u8>, etherType: u16, at: nat) {
    at <= |data| &&
    if linktype == 1 then CarriesEthernet(data, etherType, at)
    else if linktype == 113 then at == 16 && U16(data, 14) == etherType
    else if linktype == 101 then at == 0 && HasVersion(data, 0, etherType)
    else linktype == 0 && at == 4 && HasVersion(data, 4, etherType)
  }

  predicate HasVersion(data: seq<u8>, at: nat, etherType: u16) {
    at < |data| && ((data[at] / 16 == 4 && etherType == 0x0800) || (data[at] / 16 == 6 && etherType == 0x86DD))
  }

  /** Behind no, one or two tags: every type field before the last is a tag's. */
  predicate CarriesEthernet(data: seq<u8>, etherType: u16, at: nat)
    requires at <= |data|
  {
    && (at == 14 || at == 18 || at == 22) && U16(data, at - 2) == etherType
    && (at > 14 ==> U16(data, 12) in [0x8100, 0x88A8]) && (at > 18 ==> U16(data, 16) in [0x8100, 0x88A8])
  }

  lemma TagsCarried(data: seq<u8>, etherType: u16, at: nat)
    requires !IsTag(etherType) && at <= |data| && CarriesEthernet(data, etherType, at)
    ensures WalkTags(data, U16(data, 12), 14, 2) == Some(Layer3(etherType, data[at..]))
  {
    if at > 14 {
      assert WalkTags(data, U16(data, 12), 14, 2) == WalkTags(data, U16(data, 16), 18, 1);
      assert at > 18 ==> WalkTags(data, U16(data, 16), 18, 1) == WalkTags(data, U16(data, 20), 22, 0);
    }
  }

  lemma TagsCarry(data: seq<u8>) returns (at: nat)
    requires |data| >= 14 && WalkTags(data, U16(data, 12), 14, 2).Some?
    ensures
      var r := WalkTags(data, U16(data, 12), 14, 2).value;
      at <= |data| && r.bytes == data[at..] && CarriesEthernet(data, r.etherType, at)
  {
    at := 14;
    if IsTag(U16(data, 12)) {
      assert WalkTags(data, U16(data, 12), 14, 2) == WalkTags(data, U16(data, 16), 18, 1);
      at := 18;
      if IsTag(U16(data, 16)) {
        assert WalkTags(data, U16(data, 16), 18, 1) == WalkTags(data, U16(data, 20), 22, 0);
        at := 22;
      }
    }
  }

  lemma LinkCarried(linktype: u32, data: seq<u8>, etherType: u16, at: nat)
    requires !IsTag(etherType) && Carries(linktype, data, etherType, at)
    ensures LinkPayload(linktype, data) == Some(Layer3(etherType, data[at..]))
  {
    hide WalkTags;
    if linktype == 1 {
      TagsCarried(data, etherType, at);
    } else if linktype == 101 {
      assert data[0..] == data;
    }
  }

  lemma LinkCarries(linktype: u32, data: seq<u8>) returns (at: nat)
    requires LinkPayload(linktype, data).Some?
    ensures
      var r := LinkPayload(linktype, data).value;
      Carries(linktype, data, r.etherType, at) && r.bytes == data[at..]
  {
    hide WalkTags;
    if linktype == 1 {
      at := TagsCarry(data);
    } else {
      at := if linktype == 113 then 16 else if linktype == 101 then 0 else 4;
    }
  }

  // ---- Whole frames -------------------------------------------------------------------------

  ghost predicate AcceptsAt(linktype: u32, data: seq<u8>, at: nat) {
    || (Carries(linktype, data, 0x0800, at) && Accepts4(data[at..]))
    || (Carries(linktype, data, 0x86DD, at) && Accepts6(data[at..]))
  }

  ghost predicate Accepts(linktype: u32, data: seq<u8>) {
    exists at: nat :: AcceptsAt(linktype, data, at)
  }

  /** On arbitrary bytes the decoder returns a record exactly if its bytes are acceptable: an
      IP header behind the link layer, and behind it, perhaps after extension headers that
      stay inside the packet, a transport header that fits. */
  lemma DecodesExactly(linktype: u32, data: seq<u8>, ts: u64, iface: u32)
    ensures DecodeFrame(linktype, data, ts, iface).Some? <==> Accepts(linktype, data)
  {
    hide Ipv4Packet, Ipv6Packet, Accepts4, Reaches6, LinkPayload;
    if DecodeFrame(linktype, data, ts, iface).Some? {
      var l := LinkPayload(linktype, data).value;
      var at := LinkCarries(linktype, data);
      Ipv4Accepted(l.bytes, ts, iface);
      if l.etherType == 0x86DD {
        Ipv6OnlyAccepted(l.bytes, ts, iface);
      }
      assert AcceptsAt(linktype, data, at);
    } else if Accepts(linktype, data) {
      var at: nat :| AcceptsAt(linktype, data, at);
      if Carries(linktype, data, 0x0800, at) && Accepts4(data[at..]) {
        LinkCarried(linktype, data, 0x0800, at);
        Ipv4Accepted(data[at..], ts, iface);
      } else {
        LinkCarried(linktype, data, 0x86DD, at);
        var path :| Reaches6(data[at..], path);
        Ipv6Accepted(data[at..], path, ts, iface);
      }
    }
  }

  /** The record of an accepted frame is sound for the transport header found behind the
      actual IP headers: after all IPv4 options, or at the end of the extension path. */
  lemma DecodeIsSound(linktype: u32, data: seq<u8>, at: nat, path: seq<Cursor>, ts: u64, iface: u32)
    requires at <= |data|
    ensures
      var d, r := data[at..], DecodeFrame(linktype, data, ts, iface);
      && (Carries(linktype, data, 0x0800, at) && Accepts4(d) ==>
            r.Some? && Sound(r.value, d[9], V4(U32(d, 12)), V4(U32(d, 16)), d[8], d[HeaderEnd4(d)..],
                             Room(d, U16(d, 2), HeaderEnd4(d)), ts, iface))
      && (Carries(linktype, data, 0x86DD, at) && |d| >= 40 && Reaches6(d, path) ==>
            r.Some? && Sound(r.value, EndOf(path).next, V6(U128(d, 8)), V6(U128(d, 24)), d[7],
                             d[EndOf(path).off..], Room(d, 40 + U16(d, 4), EndOf(path).off), ts, iface))
  {
    hide Ipv4Packet, Ipv6Packet, Sound, LinkPayload, U32, U128;
    var d := data[at..];
    if Carries(linktype, data, 0x0800, at) && Accepts4(d) {
      LinkCarried(linktype, data, 0x0800, at);
      Ipv4Accepted(d, ts, iface);
    }
    if Carries(linktype, data, 0x86DD, at) && |d| >= 40 && Reaches6(d, path) {
      LinkCarried(linktype, data, 0x86DD, at);
      Ipv6Accepted(d, path, ts, iface);
    }
  }
}
