/**
 The browser console's framing: how a frame is laid out on the wire, and the incremental
 parser that finds frames in a byte stream shared with plain text output. Everything here
 holds for any checksum, which `sum` stands for.
 */
module FrameStream {
  import opened Bytes
  import opened Options
  import opened Seqs
  import opened Incremental
  import opened Crc32

  type Sum = Bytes -> Word

  const HEADER_SIZE: nat := 9
  const CRC_SIZE: nat := 4
  const MAX_PAYLOAD: nat := 4096
  const FLAGS_REQUEST: Byte := 0x10

  datatype Frame = Frame(flags: Byte, reply: bool, correlation: Option<nat>, dest: Byte, kind: Byte,
                         payload: Bytes)

  // --------------------------------------------------------------------------
  // Layout
  // --------------------------------------------------------------------------

  /** Bytes the correlation id takes: the flag is bit 1. */
  function Extension(flags: Byte): nat {
    if flags / 2 % 2 == 1 then 2 else 0
  }

  /** Frames that have a wire form. */
  predicate WellFormed(f: Frame) {
    && f.reply == (f.flags % 2 == 1)
    && f.correlation.Some? == (Extension(f.flags) == 2)
    && (f.correlation.Some? ==> f.correlation.value < 0x1_0000)
    && |f.payload| <= MAX_PAYLOAD
  }

  function Header(f: Frame): (bs: Bytes)
    requires WellFormed(f)
    ensures |bs| == HEADER_SIZE + Extension(f.flags)
  {
    [0x54, 0x4F, f.flags, f.dest, f.kind]
    + (if f.correlation.None? then [] else [f.correlation.value % 256, f.correlation.value / 256])
    + PutU32(|f.payload|)
  }

  /** A frame's bytes: header, payload, then the checksum over both. */
  function Wire(sum: Sum, f: Frame): (bs: Bytes)
    requires WellFormed(f)
    ensures |bs| == HEADER_SIZE + Extension(f.flags) + |f.payload| + CRC_SIZE
  {
    Header(f) + f.payload + PutU32(sum(Header(f) + f.payload))
  }

  function Request(dest: Byte, kind: Byte, payload: Bytes): Frame {
    Frame(FLAGS_REQUEST, false, None, dest, kind, payload)
  }

  /** Encodes a request; a payload over the limit is refused. */
  method BuildFrame(table: seq<Word>, ghost sum: Sum, dest: Byte, kind: Byte, payload: Bytes)
    returns (frame: Option<Bytes>)
    requires IsTable(table) && IsChecksum(sum)
    ensures frame.Some? <==> |payload| <= MAX_PAYLOAD
    ensures frame.Some? ==> frame.value == Wire(sum, Request(dest, kind, payload))
  {
    if |payload| > MAX_PAYLOAD {
      return None;
    }
    var header := [0x54, 0x4F, FLAGS_REQUEST, dest, kind] + PutU32(|payload|);
    assert header == Header(Request(dest, kind, payload));
    var crc := Checksum(table, sum, header + payload);
    frame := Some(header + payload + PutU32(crc));
  }

  // --------------------------------------------------------------------------
  // The parser's decision at one position
  // --------------------------------------------------------------------------

  /** What one stretch of input turned into. */
  datatype Item = Text(b: Byte) | Delivered(raw: Bytes, frame: Frame)

  /** Whether a frame may start here: 'T', followed by 'O' unless the input ends. */
  predicate MayStart(s: Bytes)
    requires s != []
  {
    s[0] == 0x54 && (|s| == 1 || s[1] == 0x4F)
  }

  /** The first byte belongs to no frame. */
  function Skip(s: Bytes): Verdict<(), Item, ()>
    requires s != []
  {
    Take(1, [Text(s[0])], ())
  }

  /** The fields of a frame at the front of the input. */
  function FrameAt(s: Bytes, ext: nat, len: nat): Frame
    requires ext <= 2 && |s| >= HEADER_SIZE + ext + len
  {
    Frame(s[2], s[2] % 2 == 1, if ext == 2 then Some(s[5] as int + 256 * s[6] as int) else None,
          s[3], s[4], s[HEADER_SIZE + ext..HEADER_SIZE + ext + len])
  }

  function Look(sum: Sum, s: Bytes): (v: Verdict<(), Item, ()>)
    ensures !v.Reject?
    ensures v.Take? ==> 0 < v.size <= |s|
    ensures v.Wait? ==> |s| < HEADER_SIZE + 2 + MAX_PAYLOAD + CRC_SIZE
  {
    if s == [] then Wait
    else if !MayStart(s) then Skip(s)
    else if |s| < 3 then Wait
    else
      var ext := Extension(s[2]);
      var header := HEADER_SIZE + ext;
      if |s| < header then Wait
      else
        var len := GetU32(s[5 + ext..header]);
        if len > MAX_PAYLOAD then Skip(s)
        else if |s| < header + len + CRC_SIZE then Wait
        else if sum(s[..header + len]) != GetU32(s[header + len..header + len + CRC_SIZE]) then Skip(s)
        else
          Take(header + len + CRC_SIZE, [Delivered(s[..header + len + CRC_SIZE], FrameAt(s, ext, len))], ())
  }

  /** What lies inside a prefix does not change when more follows. */
  lemma SliceKept(a: Bytes, b: Bytes, i: nat, j: nat)
    requires i <= j <= |a|
    ensures (a + b)[i..j] == a[i..j]
  {
  }

  lemma FrameKept(a: Bytes, b: Bytes, ext: nat, len: nat)
    requires ext <= 2 && |a| >= HEADER_SIZE + ext + len
    ensures FrameAt(a + b, ext, len) == FrameAt(a, ext, len)
  {
    SliceKept(a, b, HEADER_SIZE + ext, HEADER_SIZE + ext + len);
  }

  /** A decision never changes when more input arrives. */
  lemma LookIsStable(sum: Sum, a: Bytes, b: Bytes)
    requires !Look(sum, a).Wait?
    ensures Look(sum, a + b) == Look(sum, a)
  {
    if MayStart(a) {
      var ext := Extension(a[2]);
      var header := HEADER_SIZE + ext;
      SliceKept(a, b, 5 + ext, header);
      var len := GetU32(a[5 + ext..header]);
      if len <= MAX_PAYLOAD {
        var end := header + len;
        SliceKept(a, b, 0, end);
        SliceKept(a, b, end, end + CRC_SIZE);
        SliceKept(a, b, 0, end + CRC_SIZE);
        FrameKept(a, b, ext, len);
      }
    }
  }

  lemma HeaderParts(f: Frame)
    requires WellFormed(f)
    ensures
      var h := Header(f);
      var ext := Extension(f.flags);
      && h[0] == 0x54 && h[1] == 0x4F && h[2] == f.flags && h[3] == f.dest && h[4] == f.kind
      && (ext == 2 ==> h[5] as int + 256 * h[6] as int == f.correlation.value)
      && h[5 + ext..] == PutU32(|f.payload|)
  {
  }

  /** What the parser reads off bytes that begin with a frame. */
  lemma WireParts(sum: Sum, f: Frame, after: Bytes)
    requires WellFormed(f)
    ensures
      var s := Wire(sum, f) + after;
      var header := HEADER_SIZE + Extension(f.flags);
      var end := header + |f.payload|;
      && s[..header] == Header(f)
      && s[header..end] == f.payload
      && s[..end] == Header(f) + f.payload
      && s[end..end + CRC_SIZE] == PutU32(sum(Header(f) + f.payload))
      && s[..end + CRC_SIZE] == Wire(sum, f)
  {
  }

  /** A readable extent and the right checksum make a frame. */
  lemma LookTakes(sum: Sum, s: Bytes, len: nat)
    requires |s| >= HEADER_SIZE && s[0] == 0x54 && s[1] == 0x4F && len <= MAX_PAYLOAD
    requires |s| >= HEADER_SIZE + Extension(s[2]) + len + CRC_SIZE
    requires GetU32(s[5 + Extension(s[2])..HEADER_SIZE + Extension(s[2])]) == len
    requires
      var end := HEADER_SIZE + Extension(s[2]) + len;
      sum(s[..end]) == GetU32(s[end..end + CRC_SIZE])
    ensures
      var total := HEADER_SIZE + Extension(s[2]) + len + CRC_SIZE;
      Look(sum, s) == Take(total, [Delivered(s[..total], FrameAt(s, Extension(s[2]), len))], ())
  {
  }

  /** A frame on the wire is delivered, whatever follows it. */
  lemma LookDeliversWire(sum: Sum, f: Frame, after: Bytes)
    requires WellFormed(f)
    ensures Look(sum, Wire(sum, f) + after) == Take(|Wire(sum, f)|, [Delivered(Wire(sum, f), f)], ())
  {
    var s := Wire(sum, f) + after;
    WireParts(sum, f, after);
    FieldsRead(s, f);
    U32RoundTrip(sum(Header(f) + f.payload));
    LookTakes(sum, s, |f.payload|);
    assert FrameAt(s, Extension(f.flags), |f.payload|) == f;
  }

  lemma FieldsRead(s: Bytes, f: Frame)
    requires WellFormed(f)
    requires |Header(f)| <= |s| && s[..|Header(f)|] == Header(f)
    ensures
      var ext := Extension(f.flags);
      && s[0] == 0x54 && s[1] == 0x4F && s[2] == f.flags && s[3] == f.dest && s[4] == f.kind
      && (ext == 2 ==> s[5] as int + 256 * s[6] as int == f.correlation.value)
      && GetU32(s[5 + ext..HEADER_SIZE + ext]) == |f.payload|
  {
    var h := Header(f);
    var ext := Extension(f.flags);
    HeaderParts(f);
    forall i | 0 <= i < |h| ensures s[i] == h[i] {
      assert s[..|h|][i] == s[i];
    }
    assert s[5 + ext..HEADER_SIZE + ext] == h[5 + ext..];
    U32RoundTrip(|f.payload|);
  }

  /** Nothing else is delivered: the bytes taken are exactly the frame's wire form. */
  lemma LookOnlyDeliversWire(sum: Sum, s: Bytes)
    requires Look(sum, s).Take? && Look(sum, s).out[0].Delivered?
    ensures WellFormed(Look(sum, s).out[0].frame)
    ensures Look(sum, s).out == [Delivered(Wire(sum, Look(sum, s).out[0].frame), Look(sum, s).out[0].frame)]
    ensures s[..Look(sum, s).size] == Wire(sum, Look(sum, s).out[0].frame)
  {
    var f := Look(sum, s).out[0].frame;
    var header := HEADER_SIZE + Extension(s[2]);
    var end := header + |f.payload|;
    HeaderRead(s, f);
    U32Canonical(s[end..end + CRC_SIZE]);
    assert s[..end] == s[..header] + s[header..end];
    assert s[..Look(sum, s).size] == s[..end] + s[end..end + CRC_SIZE];
  }

  /** A frame's fields read off a header give the header back. */
  lemma HeaderRead(s: Bytes, f: Frame)
    requires |s| >= 3 && |s| >= HEADER_SIZE + Extension(s[2]) && s[0] == 0x54 && s[1] == 0x4F
    requires WellFormed(f)
    requires
      var ext := Extension(s[2]);
      && f.flags == s[2] && f.dest == s[3] && f.kind == s[4] && |f.payload| == GetU32(s[5 + ext..HEADER_SIZE + ext])
      && f.correlation == if ext == 2 then Some(s[5] as int + 256 * s[6] as int) else None
    ensures s[..HEADER_SIZE + Extension(s[2])] == Header(f)
  {
    var ext := Extension(s[2]);
    U32Canonical(s[5 + ext..HEADER_SIZE + ext]);
  }

  // --------------------------------------------------------------------------
  // A whole stream
  // --------------------------------------------------------------------------

  function Decide(sum: Sum): ((), Bytes) -> Verdict<(), Item, ()> {
    (st: (), s: Bytes) => Look(sum, s)
  }

  function FrameOf(item: Item): seq<Frame> {
    if item.Delivered? then [item.frame] else []
  }

  function TextOf(item: Item): Bytes {
    if item.Text? then [item.b] else []
  }

  function RawOf(item: Item): Bytes {
    if item.Text? then [item.b] else item.raw
  }

  lemma DecideIsSound(sum: Sum)
    ensures Progressing(Decide(sum)) && Stable(Decide(sum)) && Faithful(Decide(sum), RawOf)
  {
    var look := Decide(sum);
    forall st, a, b | !look(st, a).Wait? ensures look(st, a + b) == look(st, a) {
      LookIsStable(sum, a, b);
    }
    forall st, s | look(st, s).Take? ensures FlatMap(RawOf, look(st, s).out) == s[..look(st, s).size] {
      FlatMapOne(RawOf, Look(sum, s).out[0]);
    }
  }

  /** Everything found in `s`, and the bytes that wait for more. */
  ghost function Scan(sum: Sum, s: Bytes): Run<(), Byte, Item, ()> {
    DecideIsSound(sum);
    Drive(Decide(sum), (), s)
  }

  lemma {:induction false} ScanStaysOpen(sum: Sum, s: Bytes)
    ensures Scan(sum, s).end.Open? && Scan(sum, s).end.st == ()
    decreases |s|
  {
    DecideIsSound(sum);
    if Look(sum, s).Take? {
      ScanStaysOpen(sum, s[Look(sum, s).size..]);
    }
  }

  ghost function Rest(sum: Sum, s: Bytes): Bytes {
    ScanStaysOpen(sum, s);
    Scan(sum, s).end.rest
  }

  /** Every input byte ends in exactly one of a frame, the text or the buffer, in order. */
  lemma ScanConservesBytes(sum: Sum, s: Bytes)
    ensures FlatMap(RawOf, Scan(sum, s).out) + Rest(sum, s) == s
  {
    DecideIsSound(sum);
    ScanStaysOpen(sum, s);
    DriveConserves(Decide(sum), RawOf, (), s);
  }

  /** The buffered remainder is undecided, so it is shorter than the longest frame. */
  lemma BufferBound(sum: Sum, s: Bytes)
    ensures Look(sum, Rest(sum, s)).Wait?
    ensures |Rest(sum, s)| < 4111
  {
    DecideIsSound(sum);
    ScanStaysOpen(sum, s);
    DriveSettles(Decide(sum), (), s);
    assert Decide(sum)((), Rest(sum, s)).Wait?;
  }

  /** Every delivered frame took exactly its wire form out of the stream. */
  lemma {:induction false} ScanDeliversOnlyWire(sum: Sum, s: Bytes, item: Item)
    requires item in Scan(sum, s).out && item.Delivered?
    ensures WellFormed(item.frame)
    ensures item.raw == Wire(sum, item.frame)
    decreases |s|
  {
    DecideIsSound(sum);
    var v := Look(sum, s);
    var later := s[v.size..];
    assert Scan(sum, s).out == v.out + Scan(sum, later).out;
    if item in v.out {
      assert item == v.out[0];
      LookOnlyDeliversWire(sum, s);
    } else {
      ScanDeliversOnlyWire(sum, later, item);
    }
  }

  /** Feeds the chunks one after the other to a parser that holds `buf`. */
  ghost function FeedChunks(sum: Sum, buf: Bytes, chunks: seq<Bytes>): Run<(), Byte, Item, ()> {
    DecideIsSound(sum);
    FeedAll(Decide(sum), Open((), buf), chunks)
  }

  /** However a byte stream is cut into chunks, the parser delivers what one feed of the
      whole stream delivers and keeps the same buffer. */
  lemma FramesChunkingInvariance(sum: Sum, buf: Bytes, chunks: seq<Bytes>)
    requires Look(sum, buf).Wait?
    ensures FeedChunks(sum, buf, chunks) == Scan(sum, buf + Joined(chunks))
  {
    DecideIsSound(sum);
    assert Decide(sum)((), buf).Wait?;
    ChunkingInvariance(Decide(sum), Open((), buf), chunks);
  }

  function TextItems(t: Bytes): seq<Item> {
    seq(|t|, i requires 0 <= i < |t| => Text(t[i]))
  }

  // --------------------------------------------------------------------------
  // Giving up on a stale rest
  // --------------------------------------------------------------------------

  /** A chunk arrives, or the rest that waits for more is given up and shown as text. */
  datatype Event = Arrives(chunk: Bytes) | GivenUp

  /** The bytes an event brings in. */
  function Input(e: Event): Bytes {
    if e.Arrives? then e.chunk else []
  }

  ghost function RestAfter(sum: Sum, buf: Bytes, events: seq<Event>): Bytes
    decreases |events|
  {
    if events == [] then buf
    else RestAfter(sum, if events[0].Arrives? then Rest(sum, buf + events[0].chunk) else [], events[1..])
  }

  /** Everything that leaves the parser, as raw bytes in order: text, frames, and rests given up. */
  ghost function Output(sum: Sum, buf: Bytes, events: seq<Event>): Bytes
    decreases |events|
  {
    if events == [] then []
    else if events[0].GivenUp? then buf + Output(sum, [], events[1..])
    else
      var s := buf + events[0].chunk;
      FlatMap(RawOf, Scan(sum, s).out) + Output(sum, Rest(sum, s), events[1..])
  }

  /** Whatever arrives and is given up, in any order: no byte is lost, invented or moved. */
  lemma {:induction false} NothingIsLost(sum: Sum, buf: Bytes, events: seq<Event>)
    ensures Output(sum, buf, events) + RestAfter(sum, buf, events) == buf + FlatMap(Input, events)
    decreases |events|
  {
    if events == [] {
      assert [] + buf == buf + [];
    } else {
      var e := events[0];
      var later := FlatMap(Input, events[1..]);
      var s := buf + Input(e);
      ConcatAssociates(buf, Input(e), later);
      if e.GivenUp? {
        NothingIsLost(sum, [], events[1..]);
        assert s == buf && [] + later == later;
        ConcatAssociates(buf, Output(sum, [], events[1..]), RestAfter(sum, [], events[1..]));
      } else {
        var raw, rest := FlatMap(RawOf, Scan(sum, s).out), Rest(sum, s);
        ScanConservesBytes(sum, s);
        NothingIsLost(sum, rest, events[1..]);
        ConcatAssociates(raw, rest, later);
        ConcatAssociates(raw, Output(sum, rest, events[1..]), RestAfter(sum, rest, events[1..]));
      }
    }
  }
}
