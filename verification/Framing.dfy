/**
 The pcap framing round trip: what a writer serialises, the reader returns; what a
 cut leaves, the reader returns as far as it goes.
 */
module Framing {
  import opened Types
  import opened Wire
  import opened Parse
  import opened Pcap

  // ---- The writer -------------------------------------------------------------------------

  function Put32(x: u32, little: bool): (b: seq<u8>)
    ensures |b| == 4
  {
    var b := Bytes32(x);
    if little then [b[3], b[2], b[1], b[0]] else b
  }

  lemma GetPut(s: seq<u8>, i: nat, x: u32, little: bool)
    requires Holds(s, i, Put32(x, little))
    ensures ReadU32(s, i, little) == x
  {
    var b := Put32(x, little);
    assert b[0] == s[i] && b[1] == s[i + 1] && b[2] == s[i + 2] && b[3] == s[i + 3];
    if little {
      assert [s[i + 3], s[i + 2], s[i + 1], s[i]] == Bytes32(x);
    } else {
      Shift32(s, i, b);
    }
  }

  /** A magic number written in the other byte order reads as its mirror image. */
  lemma MagicByOrder(b: seq<u8>, magic: u32, little: bool)
    requires |b| >= 4 && Holds(b, 0, Put32(magic, little)) && (magic == 0xa1b2_c3d4 || magic == 0xa1b2_3c4d)
    ensures ReadU32(b, 0, true) ==
            if little then magic else if magic == 0xa1b2_c3d4 then 0xd4c3_b2a1 else 0x4d3c_b2a1
  {
    if little {
      GetPut(b, 0, magic, true);
    } else {
      var m := Put32(magic, false);
      assert m == if magic == 0xa1b2_c3d4 then [0xa1, 0xb2, 0xc3, 0xd4] else [0xa1, 0xb2, 0x3c, 0x4d];
      assert b[0] == m[0] && b[1] == m[1] && b[2] == m[2] && b[3] == m[3];
    }
  }

  /** `version` stands for the sixteen header bytes that the reader ignores. */
  function PutHeader(h: Header, version: seq<u8>): (b: seq<u8>)
    requires |version| == 16
    ensures |b| == 24
  {
    Put32(if h.nanos then 0xa1b2_3c4d else 0xa1b2_c3d4, h.little) + version + Put32(h.linktype, h.little)
  }

  /** The magic number settles byte order and time unit. */
  lemma HeaderRoundTrip(h: Header, version: seq<u8>)
    requires |version| == 16
    ensures HeaderOf(PutHeader(h, version)) == Some(h)
  {
    var b := PutHeader(h, version);
    var magic := if h.nanos then 0xa1b2_3c4d else 0xa1b2_c3d4;
    FourParts(Put32(magic, h.little), version, Put32(h.linktype, h.little), []);
    assert Put32(magic, h.little) + version + Put32(h.linktype, h.little) + [] == b;
    GetPut(b, 20, h.linktype, h.little);
    MagicByOrder(b, magic, h.little);
  }

  datatype Record = Record(sec: u32, frac: u32, originalLen: u32, frame: seq<u8>)

  ghost predicate Plausible(rs: seq<Record>) {
    forall i | 0 <= i < |rs| :: |rs[i].frame| <= 262_144
  }

  function PutRecordHeader(h: Header, r: Record): (b: seq<u8>)
    requires |r.frame| <= 262_144
    ensures |b| == 16
  {
    Put32(r.sec, h.little) + Put32(r.frac, h.little) + Put32(|r.frame|, h.little) + Put32(r.originalLen, h.little)
  }

  function PutRecord(h: Header, r: Record): (b: seq<u8>)
    requires |r.frame| <= 262_144
    ensures |b| == 16 + |r.frame|
  {
    PutRecordHeader(h, r) + r.frame
  }

  function PutAll(h: Header, rs: seq<Record>): seq<u8>
    requires Plausible(rs)
  {
    if rs == [] then [] else PutRecord(h, rs[0]) + PutAll(h, rs[1..])
  }

  // ---- What the reader should return -----------------------------------------------------------

  /** The exact time of a record in nanoseconds. */
  function TimeOf(h: Header, r: Record): u64 {
    r.sec * 1_000_000_000 + r.frac * if h.nanos then 1 else 1_000
  }

  /** No timestamp a file can hold saturates. */
  lemma TimeIsExact(h: Header, r: Record)
    ensures Nanos(h, r.sec, r.frac) == TimeOf(h, r)
  {
  }

  /** The decodable frames among the records, in order, with their exact times. */
  function Decodable(h: Header, iface: u32, rs: seq<Record>): seq<PacketMeta> {
    if rs == [] then []
    else
      var p := DecodeFrame(h.linktype, rs[0].frame, TimeOf(h, rs[0]), iface);
      (if p.Some? then [p.value] else []) + Decodable(h, iface, rs[1..])
  }

  // ---- Reading back ------------------------------------------------------------------------------

  lemma RecordHeaderFields(h: Header, r: Record, b: seq<u8>)
    requires |r.frame| <= 262_144 && Holds(b, 0, PutRecordHeader(h, r))
    ensures ReadU32(b, 0, h.little) == r.sec && ReadU32(b, 4, h.little) == r.frac
    ensures ReadU32(b, 8, h.little) == |r.frame|
  {
    hide Put32;
    var head := PutRecordHeader(h, r);
    FourParts(Put32(r.sec, h.little), Put32(r.frac, h.little), Put32(|r.frame|, h.little),
              Put32(r.originalLen, h.little));
    HoldsPart(b, 0, head, 0, 4);
    HoldsPart(b, 0, head, 4, 8);
    HoldsPart(b, 0, head, 8, 12);
    GetPut(b, 0, r.sec, h.little);
    GetPut(b, 4, r.frac, h.little);
    GetPut(b, 8, |r.frame|, h.little);
  }

  lemma FirstRecord(h: Header, r: Record, rest: seq<u8>)
    requires |r.frame| <= 262_144
    ensures HeadOf(h, PutRecord(h, r) + rest) == Frame(TimeOf(h, r), r.frame, rest)
  {
    hide PutRecordHeader, ReadU32, Nanos;
    var b := PutRecord(h, r) + rest;
    assert b == PutRecordHeader(h, r) + (r.frame + rest);
    Starts(PutRecordHeader(h, r), r.frame + rest);
    RecordHeaderFields(h, r, b);
    Placed(PutRecordHeader(h, r), r.frame, rest);
    Starts(PutRecord(h, r), rest);
    TimeIsExact(h, r);
  }

  lemma NextAfterRecord(h: Header, iface: u32, r: Record, rest: seq<u8>)
    requires |r.frame| <= 262_144
    ensures
      var p := DecodeFrame(h.linktype, r.frame, TimeOf(h, r), iface);
      NextOf(h, iface, PutRecord(h, r) + rest) == if p.Some? then Packet(p.value, rest) else NextOf(h, iface, rest)
  {
    hide DecodeFrame, PutRecord, Nanos;
    FirstRecord(h, r, rest);
  }

  /** Reading a record and then more bytes. */
  lemma ReadRecordAnd(h: Header, iface: u32, r: Record, rest: seq<u8>)
    requires |r.frame| <= 262_144
    ensures
      var all, tail := ReadAll(h, iface, PutRecord(h, r) + rest), ReadAll(h, iface, rest);
      all == Outcome(Decodable(h, iface, [r]) + tail.packets, tail.error)
  {
    hide DecodeFrame, PutRecord, NextOf, Nanos;
    NextAfterRecord(h, iface, r, rest);
    assert [r][1..] == [];
    assert Decodable(h, iface, []) == [];
    var p := DecodeFrame(h.linktype, r.frame, TimeOf(h, r), iface);
    var tail := ReadAll(h, iface, rest);
    if p.None? {
      assert ReadAll(h, iface, PutRecord(h, r) + rest) == tail;
      assert [] + tail.packets == tail.packets;
    } else {
      assert ReadAll(h, iface, PutRecord(h, r) + rest) == Outcome([p.value] + tail.packets, tail.error);
    }
  }

  /** A proper, nonempty beginning of a record is an error and yields nothing. */
  lemma CutRecord(h: Header, iface: u32, r: Record, k: nat)
    requires |r.frame| <= 262_144 && 0 < k < 16 + |r.frame|
    ensures
      var out := ReadAll(h, iface, PutRecord(h, r)[..k]);
      out.packets == [] && out.error == Some(if k < 16 then TruncatedHeader else UnexpectedEnd)
  {
    var whole, part := PutRecord(h, r), PutRecord(h, r)[..k];
    if k >= 16 {
      FirstRecord(h, r, []);
      assert whole + [] == whole;
      assert forall i | 0 <= i < 16 :: part[i] == whole[i];
      LengthField(h, whole, part);
      assert HeadOf(h, part) == Fault(UnexpectedEnd);
    }
  }

  lemma LengthField(h: Header, a: seq<u8>, b: seq<u8>)
    requires |a| >= 16 && |b| >= 16 && forall i | 0 <= i < 16 :: a[i] == b[i]
    ensures ReadU32(a, 8, h.little) == ReadU32(b, 8, h.little)
  {
  }

  /** How many whole records the first `k` bytes hold. */
  function WholeRecords(h: Header, rs: seq<Record>, k: nat): (n: nat)
    requires Plausible(rs)
    ensures n <= |rs|
  {
    if rs == [] || |PutRecord(h, rs[0])| > k then 0
    else 1 + WholeRecords(h, rs[1..], k - |PutRecord(h, rs[0])|)
  }

  lemma DecodableCons(h: Header, iface: u32, rs: seq<Record>, n: nat)
    requires 0 < n <= |rs|
    ensures Decodable(h, iface, rs[..n]) == Decodable(h, iface, [rs[0]]) + Decodable(h, iface, rs[1..][..n - 1])
  {
    assert rs[..n][1..] == rs[1..][..n - 1];
    assert [rs[0]][1..] == [];
  }

  lemma PutAllCons(h: Header, rs: seq<Record>, n: nat)
    requires Plausible(rs) && 0 < n <= |rs|
    ensures PutAll(h, rs[..n]) == PutRecord(h, rs[0]) + PutAll(h, rs[1..][..n - 1])
  {
    assert rs[..n][1..] == rs[1..][..n - 1];
  }

  /** The first `k` bytes read as the decodable frames of their whole records, and end
      cleanly exactly on a record boundary. */
  ghost predicate ReadsBack(h: Header, iface: u32, rs: seq<Record>, k: nat)
    requires Plausible(rs) && k <= |PutAll(h, rs)|
  {
    var n, out := WholeRecords(h, rs, k), ReadAll(h, iface, PutAll(h, rs)[..k]);
    out.packets == Decodable(h, iface, rs[..n]) && (out.error == None <==> k == |PutAll(h, rs[..n])|)
  }

  lemma CutInside(h: Header, iface: u32, rs: seq<Record>, k: nat)
    requires Plausible(rs) && rs != [] && k < |PutRecord(h, rs[0])|
    ensures k <= |PutAll(h, rs)| && ReadsBack(h, iface, rs, k)
  {
    var whole := PutRecord(h, rs[0]);
    assert PutAll(h, rs)[..k] == whole[..k];
    assert rs[..0] == [];
    if k > 0 {
      CutRecord(h, iface, rs[0], k);
    }
  }

  lemma CutBeyond(h: Header, iface: u32, rs: seq<Record>, k: nat)
    requires Plausible(rs) && rs != [] && |PutRecord(h, rs[0])| <= k <= |PutAll(h, rs)|
    requires ReadsBack(h, iface, rs[1..], k - |PutRecord(h, rs[0])|)
    ensures ReadsBack(h, iface, rs, k)
  {
    hide ReadAll, Decodable, PutRecord;
    var whole, n := PutRecord(h, rs[0]), WholeRecords(h, rs, k);
    var rest := PutAll(h, rs[1..])[..k - |whole|];
    assert PutAll(h, rs)[..k] == whole + rest;
    ReadRecordAnd(h, iface, rs[0], rest);
    DecodableCons(h, iface, rs, n);
    PutAllCons(h, rs, n);
  }

  /** Any cut of a serialised file, in either byte order and time unit, reads back. */
  lemma {:induction false} CutRoundTrip(h: Header, iface: u32, rs: seq<Record>, k: nat)
    requires Plausible(rs) && k <= |PutAll(h, rs)|
    ensures ReadsBack(h, iface, rs, k)
    decreases |rs|
  {
    if rs == [] {
      assert PutAll(h, rs)[..k] == [];
    } else if k < |PutRecord(h, rs[0])| {
      CutInside(h, iface, rs, k);
    } else {
      CutRoundTrip(h, iface, rs[1..], k - |PutRecord(h, rs[0])|);
      CutBeyond(h, iface, rs, k);
    }
  }

  lemma {:induction false} AllRecordsAreWhole(h: Header, rs: seq<Record>)
    requires Plausible(rs)
    ensures WholeRecords(h, rs, |PutAll(h, rs)|) == |rs|
  {
    if rs != [] {
      AllRecordsAreWhole(h, rs[1..]);
    }
  }

  lemma AllReadsBack(h: Header, iface: u32, rs: seq<Record>)
    requires Plausible(rs)
    ensures ReadAll(h, iface, PutAll(h, rs)) == Outcome(Decodable(h, iface, rs), None)
  {
    hide ReadAll, PutAll, Decodable, WholeRecords;
    var all := PutAll(h, rs);
    CutRoundTrip(h, iface, rs, |all|);
    AllRecordsAreWhole(h, rs);
    assert all[..|all|] == all && rs[..|rs|] == rs;
  }

  // ---- What is no file, and no record ---------------------------------------------------------------

  /** A header opens a stream exactly if its first four bytes are one of the four magic numbers as
      they lie in a file. */
  lemma MagicExactly(b: seq<u8>)
    requires |b| == 24
    ensures HeaderOf(b).Some? <==> b[..4] in [[0xa1, 0xb2, 0xc3, 0xd4], [0xd4, 0xc3, 0xb2, 0xa1],
                                              [0xa1, 0xb2, 0x3c, 0x4d], [0x4d, 0x3c, 0xb2, 0xa1]]
  {
    var m := [b[3], b[2], b[1], b[0]];
    assert b[..4] == [b[0], b[1], b[2], b[3]];
    MagicBytes(m);
  }

  lemma MagicBytes(m: seq<u8>)
    requires |m| == 4
    ensures U32(m, 0) == 0xa1b2_c3d4 <==> m == [0xa1, 0xb2, 0xc3, 0xd4]
    ensures U32(m, 0) == 0xd4c3_b2a1 <==> m == [0xd4, 0xc3, 0xb2, 0xa1]
    ensures U32(m, 0) == 0xa1b2_3c4d <==> m == [0xa1, 0xb2, 0x3c, 0x4d]
    ensures U32(m, 0) == 0x4d3c_b2a1 <==> m == [0x4d, 0x3c, 0xb2, 0xa1]
  {
    assert m == [m[0], m[1], m[2], m[3]];
  }

  /** A record header that claims more than 262144 bytes is refused, whatever follows it. */
  lemma OversizeIsRefused(h: Header, sec: u32, frac: u32, len: u32, originalLen: u32, rest: seq<u8>)
    ensures
      var head := Put32(sec, h.little) + Put32(frac, h.little) + Put32(len, h.little) + Put32(originalLen, h.little);
      HeadOf(h, head + rest) == Fault(ImplausibleLength(len)) <==> len > 262_144
  {
    hide Put32;
    var head := Put32(sec, h.little) + Put32(frac, h.little) + Put32(len, h.little) + Put32(originalLen, h.little);
    FourParts(Put32(sec, h.little), Put32(frac, h.little), Put32(len, h.little), Put32(originalLen, h.little));
    Starts(head, rest);
    HoldsPart(head + rest, 0, head, 8, 12);
    GetPut(head + rest, 8, len, h.little);
  }

  // ---- Whole files through the stream object --------------------------------------------------------

  /** What opening a stream of these bytes and reading it to the end gives. */
  function FileOf(iface: u32, b: seq<u8>): Outcome {
    if |b| < 24 then Outcome([], Some(UnexpectedEnd))
    else if HeaderOf(b[..24]).None? then Outcome([], Some(NotPcap))
    else ReadAll(HeaderOf(b[..24]).value, iface, b[24..])
  }

  /** The whole file reads back as its decodable frames, and ends cleanly. */
  lemma FileRoundTrip(h: Header, iface: u32, version: seq<u8>, rs: seq<Record>)
    requires |version| == 16 && Plausible(rs)
    ensures FileOf(iface, PutHeader(h, version) + PutAll(h, rs)) == Outcome(Decodable(h, iface, rs), None)
  {
    hide ReadAll, PutAll, Decodable, PutHeader, HeaderOf;
    var file := PutHeader(h, version) + PutAll(h, rs);
    assert file[..24] == PutHeader(h, version) && file[24..] == PutAll(h, rs);
    HeaderRoundTrip(h, version);
    AllReadsBack(h, iface, rs);
  }

  lemma ReadAllStep(h: Header, iface: u32, b: seq<u8>)
    ensures
      var out := ReadAll(h, iface, b);
      match NextOf(h, iface, b)
      case Done => out == Outcome([], None)
      case Failed(e) => out == Outcome([], Some(e))
      case Packet(p, rest) =>
        out == Outcome([p] + ReadAll(h, iface, rest).packets, ReadAll(h, iface, rest).error)
  {
  }

  /** The packets read so far, before what the rest will give. */
  function Before(packets: seq<PacketMeta>, out: Outcome): Outcome {
    Outcome(packets + out.packets, out.error)
  }

  /** Asks the stream until it ends or fails, as the agent's loop does. */
  method ReadToEnd(stream: PcapStream) returns (out: Outcome)
    modifies stream.inner
    ensures out.error == Some(Io) ==> Break in old(stream.inner.script)
    ensures out.error != Some(Io) ==> out == ReadAll(stream.header, stream.iface, old(stream.inner.rest))
  {
    hide ReadAll, NextOf, Later;
    var inner := stream.inner;
    ghost var whole := ReadAll(stream.header, stream.iface, inner.rest);
    var packets := [];
    LaterSelf(inner.script);
    while true
      invariant Later(inner.script, old(inner.script))
      invariant whole == Before(packets, ReadAll(stream.header, stream.iface, inner.rest))
      decreases |inner.rest|
    {
      ghost var b, script := inner.rest, inner.script;
      ReadAllStep(stream.header, stream.iface, b);
      var next := stream.NextPacket();
      LaterTwice(inner.script, script, old(inner.script));
      match next
      case Done => return Outcome(packets, None);
      case Failed(e) =>
        if e == Io {
          LaterBreaks(script, old(inner.script));
        }
        return Outcome(packets, Some(e));
      case Packet(p, rest) =>
        ghost var tail := ReadAll(stream.header, stream.iface, rest);
        assert packets + ([p] + tail.packets) == packets + [p] + tail.packets;
        packets := packets + [p];
    }
  }

  lemma LaterTwice(script: seq<Chunk>, middle: seq<Chunk>, earlier: seq<Chunk>)
    requires Later(script, middle) && Later(middle, earlier)
    ensures Later(script, earlier)
  {
  }

  /** Opening a byte source and reading it to the end: however the source splits and interrupts
      its reads, unless it breaks, the outcome is that of its bytes, and a serialised file gives
      exactly its decodable frames in order. */
  method ReadFile(src: ByteSource, iface: u32) returns (out: Outcome)
    modifies src
    ensures out.error == Some(Io) ==> Break in old(src.script)
    ensures out.error != Some(Io) ==> out == FileOf(iface, old(src.rest))
    ensures forall h, version, rs | |version| == 16 && Plausible(rs) ::
              Break !in old(src.script) && old(src.rest) == PutHeader(h, version) + PutAll(h, rs) ==>
              out == Outcome(Decodable(h, iface, rs), None)
  {
    hide ReadAll, HeaderOf, PutAll, PutHeader, Decodable;
    ghost var b, script := src.rest, src.script;
    var error, stream := PcapStream.Open(src, iface);
    if error != None {
      out := Outcome([], error);
    } else {
      ghost var middle := src.script;
      out := ReadToEnd(stream);
      if out.error == Some(Io) {
        LaterBreaks(middle, script);
      }
    }
    forall h, version, rs | |version| == 16 && Plausible(rs) && b == PutHeader(h, version) + PutAll(h, rs)
      ensures FileOf(iface, b) == Outcome(Decodable(h, iface, rs), None)
    {
      FileRoundTrip(h, iface, version, rs);
    }
  }
}
