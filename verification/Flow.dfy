/**
 What the engine remembers about one conversation, and how one packet changes it.
 */
module Flow {
  import opened Types

  datatype TcpState = New | SynSent | SynAckSeen | Established | Closing | Reset

  /** A two-element array indexed by direction. */
  datatype PerDir<T> = PerDir(forward: T, reverse: T) {
    function At(d: Direction): T {
      if d == Forward then forward else reverse
    }
    function Put(d: Direction, v: T): PerDir<T> {
      if d == Forward then PerDir(v, reverse) else PerDir(forward, v)
    }
  }

  datatype FlowState = FlowState(
    proto: Protocol,
    state: TcpState,
    firstSeen: u64,
    lastSeen: u64,
    synTime: Option<u64>,
    synackTime: Option<u64>,
    rtt: Option<u64>,
    established: bool,
    timeoutFlagged: bool,
    halfOpenCounted: bool,
    service: Endpoint,
    nextSeq: PerDir<Option<u32>>,
    lastAck: PerDir<Option<u32>>,
    dupAcks: PerDir<u32>,
    zeroWindow: PerDir<bool>,
    retransmits: nat,
    dataSegments: nat)
  {
    function RetransmitRatio(): real {
      if dataSegments == 0 then 0.0 else retransmits as real / dataSegments as real
    }
  }

  datatype PacketDelta = PacketDelta(
    newFlow: bool,
    isRetransmit: bool,
    isOutOfOrder: bool,
    isDupAck: bool,
    dupAckCount: u32,
    zeroWindowEdge: bool,
    rttSample: Option<u64>,
    handshakeRefused: bool,
    establishedNow: bool,
    rst: bool,
    service: Option<Endpoint>)

  const NO_DELTA := PacketDelta(false, false, false, false, 0, false, None, false, false, false, None)

  function GuessService(p: PacketMeta): Endpoint {
    var (src, dst) := Endpoints(p.key, p.dir);
    if p.proto == Tcp && p.flags.SynOnly() then dst
    else if dst.port <= src.port then dst
    else src
  }

  function NewFlow(p: PacketMeta): FlowState {
    FlowState(p.proto, New, p.ts, p.ts, None, None, None, false, false, false, GuessService(p),
              PerDir(None, None), PerDir(None, None), PerDir(0, 0), PerDir(false, false), 0, 0)
  }

  /** Signed distance from `expected` to `a` under 32-bit wrap-around. */
  function SeqDiff(a: u32, expected: u32): (d: int)
    ensures -0x8000_0000 <= d < 0x8000_0000
  {
    var w := (a - expected) % 0x1_0000_0000;
    if w < 0x8000_0000 then w else w - 0x1_0000_0000
  }

  function WrapAdd(a: u32, b: u32): u32 {
    (a + b) % 0x1_0000_0000
  }

  predicate InHandshake(s: TcpState) {
    s == SynSent || s == SynAckSeen
  }

  // ---- SYN, SYN-ACK, RST --------------------------------------------------------

  function OnSyn(f: FlowState, p: PacketMeta): FlowState {
    var next := f.nextSeq.Put(p.dir, Some(WrapAdd(p.seqNo, 1)));
    if f.synTime.None? then f.(synTime := Some(p.ts), state := SynSent, halfOpenCounted := true, nextSeq := next)
    else f.(nextSeq := next)
  }

  /** The handshake round trip that a SYN-ACK at this time completes. */
  function RttSample(f: FlowState, p: PacketMeta): Option<u64> {
    if f.synTime.Some? then Some(SatSub(p.ts, f.synTime.value)) else None
  }

  function OnSynAck(f: FlowState, p: PacketMeta): FlowState {
    f.(synackTime := Some(p.ts), state := SynAckSeen,
       rtt := if f.synTime.Some? then RttSample(f, p) else f.rtt,
       nextSeq := f.nextSeq.Put(p.dir, Some(WrapAdd(p.seqNo, 1))))
  }

  function OnRst(f: FlowState): FlowState {
    f.(state := Reset, halfOpenCounted := false)
  }

  // ---- Ordinary segments: data, pure ACKs and FINs, field by field -----------------

  predicate Establishes(f: FlowState, p: PacketMeta) {
    f.state == SynAckSeen && p.flags.Ack()
  }

  function StateAfter(f: FlowState, p: PacketMeta): TcpState {
    if p.flags.Fin() then Closing else if Establishes(f, p) then Established else f.state
  }

  /** Window advertisements count only on connections that are, or were, established. */
  predicate WindowCounts(f: FlowState, p: PacketMeta) {
    f.established || Establishes(f, p) || StateAfter(f, p) == Closing
  }

  predicate ZeroWindowEdge(f: FlowState, p: PacketMeta) {
    WindowCounts(f, p) && p.window == 0 && !f.zeroWindow.At(p.dir)
  }

  /** The signed distance of a data segment from the expected sequence number; 0 if none is known. */
  function Displacement(expected: Option<u32>, p: PacketMeta): int {
    if p.payloadLen > 0 && expected.Some? then SeqDiff(p.seqNo, expected.value) else 0
  }

  function ExpectedAfter(expected: Option<u32>, p: PacketMeta): Option<u32> {
    var end := WrapAdd(p.seqNo, p.payloadLen);
    if p.payloadLen == 0 then expected
    else if expected.None? || SeqDiff(end, expected.value) > 0 then Some(end)
    else expected
  }

  predicate BareAck(p: PacketMeta) {
    p.flags.Ack() && p.payloadLen == 0 && !p.flags.Syn() && !p.flags.Fin()
  }

  predicate RepeatsAck(last: Option<u32>, p: PacketMeta) {
    BareAck(p) && last == Some(p.ack)
  }

  /** The counter has 32 bits and wraps. */
  function DupAcksAfter(last: Option<u32>, dups: u32, p: PacketMeta): u32 {
    if !BareAck(p) then dups else if RepeatsAck(last, p) then WrapAdd(dups, 1) else 0
  }

  /** The sequence, duplicate-ACK and window tracking of an ordinary segment. */
  function OnTracked(f: FlowState, p: PacketMeta, zeroWindow: PerDir<bool>): (r: FlowState)
    ensures r.state == f.state && r.established == f.established && r.halfOpenCounted == f.halfOpenCounted
    ensures r.synTime == f.synTime && r.synackTime == f.synackTime && r.rtt == f.rtt
    ensures r.timeoutFlagged == f.timeoutFlagged && r.service == f.service && r.lastSeen == f.lastSeen
  {
    f.(zeroWindow := zeroWindow,
       nextSeq := f.nextSeq.Put(p.dir, ExpectedAfter(f.nextSeq.At(p.dir), p)),
       retransmits := f.retransmits + (if Displacement(f.nextSeq.At(p.dir), p) < 0 then 1 else 0),
       dataSegments := f.dataSegments + (if p.payloadLen > 0 then 1 else 0),
       lastAck := if BareAck(p) then f.lastAck.Put(p.dir, Some(p.ack)) else f.lastAck,
       dupAcks := f.dupAcks.Put(p.dir, DupAcksAfter(f.lastAck.At(p.dir), f.dupAcks.At(p.dir), p)))
  }

  /** What that tracking shows. */
  function TrackDelta(d: PacketDelta, f: FlowState, p: PacketMeta): PacketDelta {
    var shift := Displacement(f.nextSeq.At(p.dir), p);
    var last := f.lastAck.At(p.dir);
    d.(isRetransmit := shift < 0,
       isOutOfOrder := shift > 0,
       isDupAck := RepeatsAck(last, p),
       dupAckCount := if RepeatsAck(last, p) then DupAcksAfter(last, f.dupAcks.At(p.dir), p) else 0)
  }

  function OnOrdinary(f: FlowState, p: PacketMeta): FlowState {
    OnTracked(f, p, if WindowCounts(f, p) then f.zeroWindow.Put(p.dir, p.window == 0) else f.zeroWindow)
    .(state := StateAfter(f, p),
      established := f.established || Establishes(f, p),
      halfOpenCounted := f.halfOpenCounted && !Establishes(f, p) && !p.flags.Fin())
  }

  // ---- One packet ----------------------------------------------------------------

  datatype Kind = Datagram | SynKind | SynAckKind | RstKind | OrdinaryKind

  function KindOf(p: PacketMeta): Kind {
    if p.proto == Udp then Datagram
    else if p.flags.SynOnly() then SynKind
    else if p.flags.SynAck() then SynAckKind
    else if p.flags.Rst() then RstKind
    else OrdinaryKind
  }

  // The control bits of section 3.1 of RFC 9293, by their weights in the flags byte.

  predicate FinBit(p: PacketMeta) { p.flags.bits % 2 == 1 }
  predicate SynBit(p: PacketMeta) { p.flags.bits / 2 % 2 == 1 }
  predicate RstBit(p: PacketMeta) { p.flags.bits / 4 % 2 == 1 }
  predicate AckBit(p: PacketMeta) { p.flags.bits / 16 % 2 == 1 }

  /** The class of a packet by its protocol and control bits. A SYN outranks a RST. */
  predicate InClass(p: PacketMeta, kind: Kind) {
    match kind
    case Datagram => p.proto == Udp
    case SynKind => p.proto == Tcp && SynBit(p) && !AckBit(p)
    case SynAckKind => p.proto == Tcp && SynBit(p) && AckBit(p)
    case RstKind => p.proto == Tcp && RstBit(p) && !SynBit(p)
    case OrdinaryKind => p.proto == Tcp && !SynBit(p) && !RstBit(p)
  }

  /** Which of the five ways a packet is taken is decided by its protocol and control bits
      alone: a reset is one with or without ACK. */
  lemma ClassByBits(p: PacketMeta, kind: Kind)
    ensures KindOf(p) == kind <==> InClass(p, kind)
  {
  }

  /** The record after one packet of its conversation. */
  function StepFlow(f: FlowState, p: PacketMeta): (r: FlowState)
    ensures r.service == f.service && r.lastSeen == p.ts && r.timeoutFlagged == f.timeoutFlagged
  {
    var g := f.(lastSeen := p.ts);
    match KindOf(p)
    case Datagram => g
    case SynKind => OnSyn(g, p)
    case SynAckKind => OnSynAck(g, p)
    case RstKind => OnRst(g)
    case OrdinaryKind => OnOrdinary(g, p)
  }

  /** What one packet of its conversation shows about the record it finds. */
  function StepDelta(f: FlowState, p: PacketMeta): PacketDelta {
    var d := NO_DELTA.(service := Some(f.service));
    match KindOf(p)
    case Datagram | SynKind => d
    case SynAckKind => d.(rttSample := RttSample(f, p))
    case RstKind => d.(rst := true, handshakeRefused := InHandshake(f.state))
    case OrdinaryKind =>
      TrackDelta(d.(establishedNow := Establishes(f, p), zeroWindowEdge := ZeroWindowEdge(f, p)), f, p)
  }
}
