/**
 The pcap stream reader: framing of a byte stream into records, whatever sizes the
 reads come in.
 */
module Pcap {
  import opened Types
  import opened Wire
  import opened Parse

  datatype Error = UnexpectedEnd | TruncatedHeader | ImplausibleLength(len: u32) | NotPcap | Io

  const MAX_RECORD: nat := 262_144
  const MAGIC_US: u32 := 0xa1b2_c3d4
  const MAGIC_NS: u32 := 0xa1b2_3c4d
  const MAGIC_US_SWAPPED: u32 := 0xd4c3_b2a1
  const MAGIC_NS_SWAPPED: u32 := 0x4d3c_b2a1

  /** What the global header settles. */
  datatype Header = Header(little: bool, nanos: bool, linktype: u32)

  function ReadU32(b: seq<u8>, i: nat, little: bool): u32
    requires i + 4 <= |b|
  {
    if little then U32([b[i + 3], b[i + 2], b[i + 1], b[i]], 0) else U32(b, i)
  }

  function HeaderOf(b: seq<u8>): Option<Header>
    requires |b| == 24
  {
    var magic := ReadU32(b, 0, true);
    if magic == MAGIC_US then Some(Header(true, false, ReadU32(b, 20, true)))
    else if magic == MAGIC_US_SWAPPED then Some(Header(false, false, ReadU32(b, 20, false)))
    else if magic == MAGIC_NS then Some(Header(true, true, ReadU32(b, 20, true)))
    else if magic == MAGIC_NS_SWAPPED then Some(Header(false, true, ReadU32(b, 20, false)))
    else None
  }

  const U64_MAX: u64 := 0xFFFF_FFFF_FFFF_FFFF

  /** Saturating 64-bit arithmetic on the two timestamp fields. */
  function Nanos(h: Header, sec: u32, frac: u32): u64 {
    Min(Min(sec * 1_000_000_000, U64_MAX) + (if h.nanos then frac else frac * 1_000), U64_MAX)
  }

  // ---- The stream as a value ----------------------------------------------------------------

  datatype First = Frame(ts: u64, frame: seq<u8>, rest: seq<u8>) | End | Fault(error: Error)

  /** The first record of the bytes after the global header. */
  function HeadOf(h: Header, b: seq<u8>): (r: First)
    ensures r.Frame? ==> |r.rest| < |b|
  {
    if b == [] then End
    else if |b| < 16 then Fault(TruncatedHeader)
    else
      var len := ReadU32(b, 8, h.little);
      if len > MAX_RECORD then Fault(ImplausibleLength(len))
      else if |b| < 16 + len then Fault(UnexpectedEnd)
      else Frame(Nanos(h, ReadU32(b, 0, h.little), ReadU32(b, 4, h.little)), b[16..16 + len], b[16 + len..])
  }

  datatype Next = Packet(p: PacketMeta, rest: seq<u8>) | Done | Failed(error: Error)

  /** The first decodable packet; other frames are skipped. */
  function NextOf(h: Header, iface: u32, b: seq<u8>): (r: Next)
    ensures r.Packet? ==> |r.rest| < |b|
    decreases |b|
  {
    match HeadOf(h, b)
    case End => Done
    case Fault(e) => Failed(e)
    case Frame(ts, frame, rest) =>
      var p := DecodeFrame(h.linktype, frame, ts, iface);
      if p.Some? then Packet(p.value, rest) else NextOf(h, iface, rest)
  }

  datatype Outcome = Outcome(packets: seq<PacketMeta>, error: Option<Error>)

  /** Everything a caller gets by asking until the stream ends; no error means a clean end. */
  function ReadAll(h: Header, iface: u32, b: seq<u8>): Outcome
    decreases |b|
  {
    match NextOf(h, iface, b)
    case Done => Outcome([], None)
    case Failed(e) => Outcome([], Some(e))
    case Packet(p, rest) =>
      var tail := ReadAll(h, iface, rest);
      Outcome([p] + tail.packets, tail.error)
  }

  // ---- The reader ----------------------------------------------------------------------------

  /** What one call to the underlying reader may do: deliver at most so many bytes, be
      interrupted, or fail. */
  datatype Chunk = Deliver(most: nat) | Interrupt | Break

  datatype ReadResult = Got(bytes: seq<u8>) | Interrupted | IoError

  /** A byte source; its script decides how each read behaves, and reads behave fully once it is used up. */
  class ByteSource {
    var rest: seq<u8>
    var script: seq<Chunk>

    constructor (bytes: seq<u8>, script: seq<Chunk>)
      ensures rest == bytes && this.script == script
    {
      rest := bytes;
      this.script := script;
    }

    method Read(n: nat) returns (r: ReadResult)
      modifies this
      ensures r.Got? ==> |r.bytes| <= n && old(rest) == r.bytes + rest && (r.bytes == [] ==> n == 0 || rest == [])
      ensures !r.Got? ==> rest == old(rest)
      ensures script == if old(script) == [] then [] else old(script)[1..]
      ensures r.Interrupted? ==> old(script) != []
      ensures r.IoError? ==> Break in old(script)
    {
      var most := |rest|;
      if script != [] {
        var c := script[0];
        script := script[1..];
        match c
        case Interrupt => return Interrupted;
        case Break => return IoError;
        case Deliver(k) => most := if k < 1 then 1 else k;
      }
      var k := Min(Min(n, most), |rest|);
      r := Got(rest[..k]);
      rest := rest[k..];
    }
  }

  /** The script never grows, so a source that cannot break stays so. */
  ghost predicate Later(script: seq<Chunk>, earlier: seq<Chunk>) {
    |script| <= |earlier| && script == earlier[|earlier| - |script|..]
  }

  lemma LaterTail(script: seq<Chunk>, earlier: seq<Chunk>)
    requires Later(script, earlier)
    ensures Later(if script == [] then [] else script[1..], earlier)
  {
  }

  lemma LaterSelf(script: seq<Chunk>)
    ensures Later(script, script)
  {
  }

  lemma LaterBreaks(script: seq<Chunk>, earlier: seq<Chunk>)
    requires Later(script, earlier) && Break in script
    ensures Break in earlier
  {
    var i :| 0 <= i < |script| && script[i] == Break;
    assert earlier[|earlier| - |script| + i] == Break;
  }

  datatype Fill = Filled | AtEnd(got: nat) | Broken

  method Store(buf: array<u8>, n: nat, bytes: seq<u8>)
    requires n + |bytes| <= buf.Length
    modifies buf
    ensures buf[..n + |bytes|] == old(buf[..n]) + bytes
  {
    forall i | 0 <= i < |bytes| {
      buf[n + i] := bytes[i];
    }
  }

  /** What one read into a buffer did. */
  datatype Taken = Took(k: nat) | Again | Gone

  /** The buffer holds the first `n` bytes of `whole`, the source the others. */
  ghost predicate Split(src: ByteSource, buf: array<u8>, n: nat, whole: seq<u8>)
    reads src, buf
  {
    n <= buf.Length && whole == buf[..n] + src.rest
  }

  lemma SplitAtFirst(src: ByteSource, buf: array<u8>)
    ensures Split(src, buf, 0, src.rest)
  {
  }

  lemma SplitSizes(src: ByteSource, buf: array<u8>, n: nat, whole: seq<u8>)
    requires Split(src, buf, n, whole)
    ensures |whole| == n + |src.rest|
    ensures n == buf.Length ==> whole == buf[..] + src.rest
  {
    if n == buf.Length {
      assert buf[..n] == buf[..];
    }
  }

  /** One read into the free part of the buffer. */
  method ReadInto(src: ByteSource, buf: array<u8>, n: nat, ghost whole: seq<u8>) returns (r: Taken)
    requires n < buf.Length && Split(src, buf, n, whole)
    modifies src, buf
    ensures src.script == if old(src.script) == [] then [] else old(src.script)[1..]
    ensures if r.Took? then n + r.k <= buf.Length && Split(src, buf, n + r.k, whole) else Split(src, buf, n, whole)
    ensures r.Took? && r.k == 0 ==> src.rest == []
    ensures r.Again? ==> old(src.script) != []
    ensures r.Gone? ==> Break in old(src.script)
  {
    var got := src.Read(buf.Length - n);
    match got
    case Interrupted => r := Again;
    case IoError => r := Gone;
    case Got(bytes) =>
      Regroup(buf[..n], bytes, src.rest);
      Store(buf, n, bytes);
      r := Took(|bytes|);
  }

  lemma Regroup(a: seq<u8>, b: seq<u8>, c: seq<u8>)
    ensures a + (b + c) == (a + b) + c
  {
  }

  /** Fills the buffer, or reports how much there was. */
  method FillBuffer(src: ByteSource, buf: array<u8>) returns (r: Fill)
    modifies src, buf
    ensures Later(src.script, old(src.script))
    ensures r.Filled? ==> old(src.rest) == buf[..] + src.rest
    ensures r.AtEnd? ==> r.got == |old(src.rest)| < buf.Length && src.rest == []
    ensures r.Broken? ==> Break in old(src.script)
  {
    hide Later, Split;
    var n := 0;
    LaterSelf(src.script);
    SplitAtFirst(src, buf);
    while n < buf.Length
      invariant 0 <= n <= buf.Length && Split(src, buf, n, old(src.rest))
      invariant Later(src.script, old(src.script))
      decreases buf.Length - n + |src.script|
    {
      ghost var script := src.script;
      var got := ReadInto(src, buf, n, old(src.rest));
      LaterTail(script, old(src.script));
      match got
      case Again =>
      case Gone =>
        LaterBreaks(script, old(src.script));
        return Broken;
      case Took(k) =>
        SplitSizes(src, buf, n + k, old(src.rest));
        if k == 0 {
          return AtEnd(n);
        }
        n := n + k;
    }
    SplitSizes(src, buf, n, old(src.rest));
    return Filled;
  }

  /** Reads exactly the buffer's length or fails. */
  method ReadFull(src: ByteSource, buf: array<u8>) returns (error: Option<Error>)
    modifies src, buf
    ensures Later(src.script, old(src.script))
    ensures error == None ==> old(src.rest) == buf[..] + src.rest
    ensures error != None ==> error == Some(UnexpectedEnd) || error == Some(Io)
    ensures error == Some(UnexpectedEnd) ==> |old(src.rest)| < buf.Length
    ensures error == Some(Io) ==> Break in old(src.script)
  {
    var r := FillBuffer(src, buf);
    match r
    case Filled => error := None;
    case AtEnd(_) => error := Some(UnexpectedEnd);
    case Broken => error := Some(Io);
  }

  /** Like ReadFull, but an end before any byte is no error. */
  method ReadFullOpt(src: ByteSource, buf: array<u8>) returns (filled: bool, error: Option<Error>)
    requires buf.Length > 0
    modifies src, buf
    ensures Later(src.script, old(src.script))
    ensures filled ==> error == None && old(src.rest) == buf[..] + src.rest
    ensures !filled && error == None ==> old(src.rest) == [] == src.rest
    ensures error != None ==> error == Some(TruncatedHeader) || error == Some(Io)
    ensures error == Some(TruncatedHeader) ==> 0 < |old(src.rest)| < buf.Length
    ensures error == Some(Io) ==> Break in old(src.script)
  {
    var r := FillBuffer(src, buf);
    match r
    case Filled => filled, error := true, None;
    case AtEnd(n) => filled, error := false, if n == 0 then None else Some(TruncatedHeader);
    case Broken => filled, error := false, Some(Io);
  }

  class PcapStream {
    const inner: ByteSource
    const header: Header
    const iface: u32

    constructor (inner: ByteSource, header: Header, iface: u32)
      ensures this.inner == inner && this.header == header && this.iface == iface
    {
      this.inner := inner;
      this.header := header;
      this.iface := iface;
    }

    /** Reads and checks the 24-byte global header. */
    static method Open(inner: ByteSource, iface: u32) returns (error: Option<Error>, stream: PcapStream?)
      modifies inner
      ensures Later(inner.script, old(inner.script))
      ensures error == Some(Io) ==> Break in old(inner.script)
      ensures error != None && error != Some(Io) ==>
              error == Some(if |old(inner.rest)| < 24 then UnexpectedEnd else NotPcap)
      ensures error == None ==>
              |old(inner.rest)| >= 24 && inner.rest == old(inner.rest)[24..] &&
              stream != null && stream.inner == inner && stream.iface == iface &&
              HeaderOf(old(inner.rest)[..24]) == Some(stream.header)
      ensures error == Some(NotPcap) ==> HeaderOf(old(inner.rest)[..24]) == None
    {
      stream := null;
      var hdr := new u8[24];
      error := ReadFull(inner, hdr);
      if error != None {
        return;
      }
      assert old(inner.rest)[..24] == hdr[..];
      var h := HeaderOf(hdr[..]);
      if h.None? {
        error := Some(NotPcap);
        return;
      }
      stream := new PcapStream(inner, h.value, iface);
    }

    /** Reads one record into buffers of its own. */
    method ReadRecord() returns (first: First)
      modifies inner
      ensures Later(inner.script, old(inner.script))
      ensures first.Frame? ==> first.rest == inner.rest
      ensures first.End? ==> inner.rest == []
      ensures first == Fault(Io) ==> Break in old(inner.script)
      ensures first != Fault(Io) ==> first == HeadOf(header, old(inner.rest))
    {
      ghost var b := inner.rest;
      var rec := new u8[16];
      var filled, e := ReadFullOpt(inner, rec);
      if e != None {
        return Fault(e.value);
      }
      if !filled {
        return End;
      }
      var sec := ReadU32(rec[..], 0, header.little);
      var frac := ReadU32(rec[..], 4, header.little);
      var len := ReadU32(rec[..], 8, header.little);
      RecordFields(b, rec[..], header.little);
      if len > MAX_RECORD {
        return Fault(ImplausibleLength(len));
      }
      ghost var script := inner.script;
      var buf := new u8[len];
      e := ReadFull(inner, buf);
      if e != None {
        if e == Some(Io) {
          LaterBreaks(script, old(inner.script));
        }
        return Fault(e.value);
      }
      assert b == rec[..] + buf[..] + inner.rest;
      assert buf[..] == b[16..16 + len] && inner.rest == b[16 + len..];
      first := Frame(Nanos(header, sec, frac), buf[..], inner.rest);
    }

    /** The next decodable packet, a clean end, or an error; which of them is decided by the
        bytes alone, however the reads split them, unless the source itself breaks. */
    method NextPacket() returns (next: Next)
      modifies inner
      ensures Later(inner.script, old(inner.script))
      ensures next.Packet? ==> next.rest == inner.rest
      ensures next.Done? ==> inner.rest == []
      ensures next == Failed(Io) ==> Break in old(inner.script)
      ensures next != Failed(Io) ==> next == NextOf(header, iface, old(inner.rest))
    {
      while true
        invariant Later(inner.script, old(inner.script))
        invariant NextOf(header, iface, old(inner.rest)) == NextOf(header, iface, inner.rest)
        decreases |inner.rest|
      {
        ghost var script := inner.script;
        var first := ReadRecord();
        match first
        case End => return Done;
        case Fault(e) =>
          if e == Io {
            LaterBreaks(script, old(inner.script));
          }
          return Failed(e);
        case Frame(ts, frame, rest) =>
          var p := ParseFrame(header.linktype, frame, ts, iface);
          if p.Some? {
            return Packet(p.value, rest);
          }
      }
    }
  }

  lemma RecordFields(b: seq<u8>, rec: seq<u8>, little: bool)
    requires |rec| == 16 <= |b| && b[..16] == rec
    ensures ReadU32(b, 0, little) == ReadU32(rec, 0, little) && ReadU32(b, 4, little) == ReadU32(rec, 4, little)
    ensures ReadU32(b, 8, little) == ReadU32(rec, 8, little)
  {
    assert forall i | 0 <= i < 16 :: b[i] == rec[i];
  }
}
