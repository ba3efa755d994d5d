/**
 The backend-independent data model: endpoints, canonical flow keys, TCP flags
 and the packet record that every capture backend hands to the engine.
 */
module Types {
  type u8 = x: int | 0 <= x < 0x100
  type u16 = x: int | 0 <= x < 0x1_0000
  type u32 = x: int | 0 <= x < 0x1_0000_0000
  type u64 = x: int | 0 <= x < 0x1_0000_0000_0000_0000
  type u128 = x: int | 0 <= x < 0x1_0000_0000_0000_0000_0000_0000_0000_0000

  const NS_PER_SEC: nat := 1_000_000_000

  datatype Option<+T> = None | Some(value: T)

  datatype Protocol = Tcp | Udp

  /** Addresses are held as the big-endian number of their octets, so that the
      numeric order is the octet-by-octet order. */
  datatype IpAddr = V4(v4: u32) | V6(v6: u128)

  datatype Endpoint = Endpoint(ip: IpAddr, port: u16)

  datatype Direction = Forward | Reverse

  datatype FlowKey = FlowKey(low: Endpoint, high: Endpoint, proto: Protocol)

  /** Every IPv4 address precedes every IPv6 address. */
  predicate IpBelow(a: IpAddr, b: IpAddr) {
    match (a, b)
    case (V4(x), V4(y)) => x < y
    case (V6(x), V6(y)) => x < y
    case (V4(_), V6(_)) => true
    case (V6(_), V4(_)) => false
  }

  predicate AtMost(a: Endpoint, b: Endpoint) {
    IpBelow(a.ip, b.ip) || (a.ip == b.ip && a.port <= b.port)
  }

  /** The key of a conversation and the direction the packet travelled. */
  function Canonical(src: Endpoint, dst: Endpoint, proto: Protocol): (r: (FlowKey, Direction))
    ensures AtMost(r.0.low, r.0.high) && r.0.proto == proto
  {
    if AtMost(src, dst) then (FlowKey(src, dst, proto), Forward) else (FlowKey(dst, src, proto), Reverse)
  }

  /** The observed (source, destination) of a packet with this key and direction. */
  function Endpoints(key: FlowKey, dir: Direction): (r: (Endpoint, Endpoint)) {
    match dir
    case Forward => (key.low, key.high)
    case Reverse => (key.high, key.low)
  }

  /** Canonicalising loses nothing, both directions share a key, two observed
      pairs share a key only if they are the same conversation, and the two
      directions are told apart exactly when the endpoints differ. */
  lemma CanonicalKeys(a: Endpoint, b: Endpoint, c: Endpoint, d: Endpoint, proto: Protocol)
    ensures Endpoints(Canonical(a, b, proto).0, Canonical(a, b, proto).1) == (a, b)
    ensures Canonical(a, b, proto).0 == Canonical(b, a, proto).0
    ensures Canonical(a, b, proto).1 != Canonical(b, a, proto).1 <==> a != b
    ensures Canonical(a, b, proto).0 == Canonical(c, d, proto).0 <==> (a == c && b == d) || (a == d && b == c)
  {
    assert AtMost(a, b) || AtMost(b, a);
    assert AtMost(a, b) && AtMost(b, a) ==> a == b;
    assert AtMost(c, d) || AtMost(d, c);
  }

  /** One number for an endpoint: first the family, then the address as the number of its octets,
      then the port. */
  function Rank(e: Endpoint): nat {
    var address: nat := if e.ip.V4? then e.ip.v4 else 0x1_0000_0000_0000_0000_0000_0000_0000_0000 + e.ip.v6;
    address * 0x1_0000 + e.port
  }

  /** The low endpoint of a key is the one of lower rank: IPv4 before IPv6, then the smaller
      address, then the smaller port. */
  lemma LowIsLower(a: Endpoint, b: Endpoint, proto: Protocol)
    ensures
      var (key, dir) := Canonical(a, b, proto);
      && (Rank(a) <= Rank(b) ==> key.low == a && key.high == b && dir == Forward)
      && (Rank(b) < Rank(a) ==> key.low == b && key.high == a && dir == Reverse)
    ensures Rank(a) == Rank(b) <==> a == b
  {
  }

  datatype TcpFlags = TcpFlags(bits: u8) {
    /** Tests one flag; `bit` is the flag's power of two. */
    predicate Has(bit: u8)
      requires bit > 0
    {
      bits / bit % 2 == 1
    }
    predicate Fin() { Has(0x01) }
    predicate Syn() { Has(0x02) }
    predicate Rst() { Has(0x04) }
    predicate Ack() { Has(0x10) }
    predicate SynOnly() { Syn() && !Ack() }
    predicate SynAck() { Syn() && Ack() }
  }

  function Bit(on: bool): u8 {
    if on then 1 else 0
  }

  lemma BitsApart(fin: u8, syn: u8, rst: u8, psh: u8, ack: u8, rest: u8)
    requires fin <= 1 && syn <= 1 && rst <= 1 && psh <= 1 && ack <= 1
    ensures
      var x := fin + 2 * syn + 4 * rst + 8 * psh + 16 * ack + 32 * rest;
      x % 2 == fin && x / 2 % 2 == syn && x / 4 % 2 == rst && x / 16 % 2 == ack
  {
    var x := fin + 2 * syn + 4 * rst + 8 * psh + 16 * ack + 32 * rest;
    assert x / 2 == syn + 2 * (rst + 2 * psh + 4 * ack + 8 * rest);
    assert x / 4 == rst + 2 * (psh + 2 * ack + 4 * rest);
    assert x / 16 == ack + 2 * rest;
  }

  /** The control bits of section 3.1 of RFC 9293 are told apart by the flag tests, whatever the
      other bits are: PSH, and URG, ECE and CWR in `rest`. */
  lemma FlagsDecode(fin: bool, syn: bool, rst: bool, psh: bool, ack: bool, rest: u8)
    requires rest < 8
    ensures
      var f := TcpFlags(Bit(fin) + 2 * Bit(syn) + 4 * Bit(rst) + 8 * Bit(psh) + 16 * Bit(ack) + 32 * rest);
      (f.Fin() <==> fin) && (f.Syn() <==> syn) && (f.Rst() <==> rst) && (f.Ack() <==> ack) &&
      (f.SynOnly() <==> syn && !ack) && (f.SynAck() <==> syn && ack)
  {
    BitsApart(Bit(fin), Bit(syn), Bit(rst), Bit(psh), Bit(ack), rest);
  }

  datatype PacketMeta = PacketMeta(
    ts: u64,
    key: FlowKey,
    dir: Direction,
    proto: Protocol,
    flags: TcpFlags,
    seqNo: u32,
    ack: u32,
    window: u32,
    payloadLen: u32,
    ttl: u8,
    iface: u32)

  /** The larger of zero and the difference. */
  function SatSub(a: int, b: int): (r: int)
    ensures r >= 0 && r >= a - b && (r == 0 || r == a - b)
  {
    if a > b then a - b else 0
  }
}
