/**
 WebSocket framing as the simulator's server uses it (sections 5.2 to 5.5 of RFC 6455): the
 frame encoder, the incremental decoder for client frames, and a frame-level reference
 machine that says which messages a sequence of frames stands for.
 */
module WebSocket {
  import opened Bytes
  import opened Options
  import opened Seqs
  import opened Incremental

  datatype Op = Continuation | Text | Binary | Close | Ping | Pong

  function Code(op: Op): Byte {
    match op
    case Continuation => 0
    case Text => 1
    case Binary => 2
    case Close => 8
    case Ping => 9
    case Pong => 10
  }

  function OpOf(code: Byte): Option<Op> {
    if code == 0 then Some(Continuation)
    else if code == 1 then Some(Text)
    else if code == 2 then Some(Binary)
    else if code == 8 then Some(Close)
    else if code == 9 then Some(Ping)
    else if code == 10 then Some(Pong)
    else None
  }

  predicate Control(op: Op) {
    op.Close? || op.Ping? || op.Pong?
  }

  const MAX_MESSAGE: nat := 1024 * 1024
  const MAX_CONTROL: nat := 125

  type Key = k: Bytes | |k| == 4 witness [0, 0, 0, 0]

  datatype Frame = Frame(op: Op, payload: Bytes, fin: bool, mask: Option<Key>)

  datatype Message = Message(op: Op, data: Bytes)

  datatype Error = ProtocolError | TooBig

  /** The message being reassembled. */
  datatype Assembly = Assembly(open: bool, op: Op, data: Bytes)

  const IDLE := Assembly(false, Text, [])

  // --------------------------------------------------------------------------
  // Encoding
  // --------------------------------------------------------------------------

  function Masked(p: Bytes, key: Key): (m: Bytes)
    ensures |m| == |p|
  {
    seq(|p|, i requires 0 <= i < |p| => XorByte(p[i], key[i % 4]))
  }

  lemma MaskTwice(p: Bytes, key: Key)
    ensures Masked(Masked(p, key), key) == p
  {
    forall i | 0 <= i < |p| ensures Masked(Masked(p, key), key)[i] == p[i] {
      XorInvolution(p[i], key[i % 4]);
    }
  }

  /** The length field with the mask bit: 7 bits, or a marker and 2 or 8 bytes. */
  function LengthField(n: nat, masked: bool): Bytes {
    var bit := if masked then 128 else 0;
    if n < 126 then [bit + n]
    else if n <= 0xFFFF then [bit + 126] + PutBE(2, n)
    else [bit + 127] + PutBE(8, n)
  }

  function HeaderOf(f: Frame): Bytes {
    [(if f.fin then 128 else 0) + Code(f.op)] + LengthField(|f.payload|, f.mask.Some?)
  }

  function Encode(f: Frame): Bytes {
    HeaderOf(f) + if f.mask.Some? then f.mask.value + Masked(f.payload, f.mask.value) else f.payload
  }

  method EncodeFrame(f: Frame) returns (out: Bytes)
    ensures out == Encode(f)
  {
    var head := EncodeHeader(f);
    if f.mask.None? {
      out := head + f.payload;
    } else {
      head := head + f.mask.value;
      out := AppendMasked(head, f.payload, f.mask.value);
      ConcatAssociates(HeaderOf(f), f.mask.value, Masked(f.payload, f.mask.value));
    }
  }

  method AppendMasked(head: Bytes, payload: Bytes, key: Key) returns (out: Bytes)
    ensures out == head + Masked(payload, key)
  {
    out := head;
    ghost var data := Masked(payload, key);
    for i := 0 to |payload|
      invariant out == head + data[..i]
    {
      assert data[..i + 1] == data[..i] + [data[i]];
      out := out + [XorByte(payload[i], key[i % 4])];
    }
    assert data[..|payload|] == data;
  }

  method EncodeHeader(f: Frame) returns (out: Bytes)
    ensures out == HeaderOf(f)
  {
    out := [(if f.fin then 128 else 0) + Code(f.op)];
    var bit := if f.mask.Some? then 128 else 0;
    var n := |f.payload|;
    if n < 126 {
      out := out + [bit + n];
    } else if n <= 0xFFFF {
      assert PutBE(2, n) == PutBE(1, n / 256) + [n % 256] == [n / 256, n % 256];
      out := out + [bit + 126] + [n / 256, n % 256];
    } else {
      out := out + [bit + 127];
      ghost var start := out;
      var i := 8;
      while i > 0
        invariant 0 <= i <= 8
        invariant out == start + PutBE(8 - i, ShiftBytes(n, i))
      {
        i := i - 1;
        out := out + [ShiftBytes(n, i) % 256];
      }
    }
  }

  // --------------------------------------------------------------------------
  // The frame-level reference machine
  // --------------------------------------------------------------------------

  datatype Reaction = Refuse(error: Error) | Accept(out: seq<Message>, next: Assembly)

  /** What a complete frame does to the message under assembly. */
  function Deliver(st: Assembly, op: Op, fin: bool, payload: Bytes): Reaction {
    if Control(op) then Accept([Message(op, payload)], st)
    else if op.Continuation? != st.open then Refuse(ProtocolError)
    else
      var data := if op.Continuation? then st.data + payload else payload;
      var kind := if op.Continuation? then st.op else op;
      if fin then Accept([Message(kind, data)], Assembly(false, kind, []))
      else Accept([], Assembly(true, kind, data))
  }

  /** The rules a client frame has to meet, then its effect. */
  function React(st: Assembly, f: Frame): Reaction {
    if f.mask.None? || (Control(f.op) && (!f.fin || |f.payload| > MAX_CONTROL)) then Refuse(ProtocolError)
    else if |f.payload| > MAX_MESSAGE || |st.data| + |f.payload| > MAX_MESSAGE then Refuse(TooBig)
    else Deliver(st, f.op, f.fin, f.payload)
  }

  function ReactAll(st: Assembly, frames: seq<Frame>): Run<Assembly, Byte, Message, Error>
    decreases |frames|
  {
    if frames == [] then Run([], Open(st, []))
    else
      match React(st, frames[0])
      case Refuse(e) => Run([], Closed(e))
      case Accept(out, next) =>
        var later := ReactAll(next, frames[1..]);
        Run(out + later.out, later.end)
  }

  function EncodeAll(frames: seq<Frame>): Bytes {
    if frames == [] then [] else Encode(frames[0]) + EncodeAll(frames[1..])
  }

  // --------------------------------------------------------------------------
  // The decoder's decision
  // --------------------------------------------------------------------------

  datatype Head =
    | Short                                            // more bytes are needed
    | Bad                                              // a protocol error
    | Head(op: Op, fin: bool, size: nat, length: nat)  // header bytes before the key; payload length

  /** Reads a frame header. */
  function ReadHead(s: Bytes): (h: Head)
    ensures h.Head? ==> 2 <= h.size <= |s|
  {
    if |s| < 2 then Short
    else
      var fin := s[0] >= 128;
      var op := OpOf(s[0] % 16);
      var short := s[1] % 128;
      if s[0] / 16 % 8 != 0 || s[1] < 128 then Bad
      else if op.None? || (Control(op.value) && (!fin || short > MAX_CONTROL)) then Bad
      else if short == 126 then
        if |s| < 4 then Short else Head(op.value, fin, 4, GetBE(s[2..4]))
      else if short == 127 then
        if |s| < 10 then Short else Head(op.value, fin, 10, GetBE(s[2..10]))
      else Head(op.value, fin, 2, short)
  }

  /** What the header leads to, once read. */
  function FollowHead(st: Assembly, s: Bytes, h: Head): (v: Verdict<Assembly, Message, Error>)
    requires h.Head? ==> 2 <= h.size <= |s|
    ensures v.Take? ==> 0 < v.size <= |s|
  {
    match h
    case Short => Wait
    case Bad => Reject(ProtocolError)
    case Head(op, fin, size, length) =>
      if length > MAX_MESSAGE || |st.data| + length > MAX_MESSAGE then Reject(TooBig)
      else if |s| < size + 4 + length then Wait
      else
        match Deliver(st, op, fin, Masked(s[size + 4..size + 4 + length], s[size..size + 4]))
        case Refuse(e) => Reject(e)
        case Accept(out, next) => Take(size + 4 + length, out, next)
  }

  function Look(st: Assembly, s: Bytes): (v: Verdict<Assembly, Message, Error>)
    ensures v.Take? ==> 0 < v.size <= |s|
  {
    FollowHead(st, s, ReadHead(s))
  }

  lemma HeadIsStable(a: Bytes, b: Bytes)
    requires !ReadHead(a).Short?
    ensures ReadHead(a + b) == ReadHead(a)
  {
    var s := a + b;
    assert s[0] == a[0] && s[1] == a[1];
    if |a| >= 4 {
      assert s[2..4] == a[2..4];
    }
    if |a| >= 10 {
      assert s[2..10] == a[2..10];
    }
  }

  /** A decision never changes when more input arrives. */
  lemma LookIsStable(st: Assembly, a: Bytes, b: Bytes)
    requires !Look(st, a).Wait?
    ensures Look(st, a + b) == Look(st, a)
  {
    HeadIsStable(a, b);
    var h := ReadHead(a);
    if h.Head? && |a| >= h.size + 4 + h.length {
      assert (a + b)[h.size..h.size + 4] == a[h.size..h.size + 4];
      assert (a + b)[h.size + 4..h.size + 4 + h.length] == a[h.size + 4..h.size + 4 + h.length];
    }
  }

  lemma LookIsSound()
    ensures Progressing(Look) && Stable(Look)
  {
    forall st, a, b | !Look(st, a).Wait? ensures Look(st, a + b) == Look(st, a) {
      LookIsStable(st, a, b);
    }
  }

  /** Decodes as far as the bytes allow. */
  ghost function Decode(st: Assembly, s: Bytes): Run<Assembly, Byte, Message, Error> {
    LookIsSound();
    Drive(Look, st, s)
  }

  /** One feed, from whatever the last one left. */
  ghost function DecodeMore(end: End<Assembly, Byte, Error>, bytes: Bytes): Run<Assembly, Byte, Message, Error> {
    LookIsSound();
    Feed(Look, end, bytes)
  }

  ghost function DecodeChunks(end: End<Assembly, Byte, Error>, chunks: seq<Bytes>): Run<Assembly, Byte, Message, Error> {
    LookIsSound();
    FeedAll(Look, end, chunks)
  }

  /** The decoder's messages and its final status depend only on the bytes, not on how they
      were cut into reads. */
  lemma MessagesChunkingInvariance(end: End<Assembly, Byte, Error>, chunks: seq<Bytes>)
    requires Settled(Look, end)
    ensures DecodeChunks(end, chunks) == DecodeMore(end, Joined(chunks))
  {
    LookIsSound();
    ChunkingInvariance(Look, end, chunks);
  }

  // --------------------------------------------------------------------------
  // Decoding what was encoded
  // --------------------------------------------------------------------------

  /** A frame whose payload length fits the 8-byte length field. */
  predicate Encodable(f: Frame) {
    |f.payload| < 0x1_0000_0000_0000_0000
  }

  lemma LengthBytes(n: nat, masked: bool)
    requires n < 0x1_0000_0000_0000_0000
    ensures 126 <= n <= 0xFFFF ==> GetBE(PutBE(2, n)) == n
    ensures n > 0xFFFF ==> GetBE(PutBE(8, n)) == n
  {
    assert Pow256(2) == 0x1_0000;
    assert Pow256(4) == 0x1_0000_0000;
    assert Pow256(6) == 0x1_0000_0000_0000;
    assert Pow256(8) == 0x1_0000_0000_0000_0000;
    if n > 0xFFFF {
      BERoundTrip(8, n);
    } else if n >= 126 {
      BERoundTrip(2, n);
    }
  }

  lemma FirstByteReads(fin: bool, op: Op)
    ensures
      var b := (if fin then 128 else 0) + Code(op);
      b < 256 && b / 16 % 8 == 0 && OpOf(b % 16) == Some(op) && (b >= 128 <==> fin)
  {
  }

  lemma ReadHeadOfEncoded(f: Frame, after: Bytes)
    requires Encodable(f)
    ensures
      var h := ReadHead(HeaderOf(f) + after);
      if f.mask.None? || (Control(f.op) && (!f.fin || |f.payload| > MAX_CONTROL)) then h == Bad
      else h == Head(f.op, f.fin, |HeaderOf(f)|, |f.payload|)
  {
    var n := |f.payload|;
    var s := HeaderOf(f) + after;
    LengthBytes(n, f.mask.Some?);
    FirstByteReads(f.fin, f.op);
    assert s[0] == HeaderOf(f)[0] && s[1] == LengthField(n, f.mask.Some?)[0];
    if 126 <= n <= 0xFFFF {
      assert s[2..4] == PutBE(2, n);
    } else if n > 0xFFFF {
      assert s[2..10] == PutBE(8, n);
    }
  }

  /** On an encoded frame the decoder does what the reference machine does with the frame. */
  lemma LookIsReact(st: Assembly, f: Frame, after: Bytes)
    requires Encodable(f)
    ensures Look(st, Encode(f) + after) ==
            match React(st, f)
            case Refuse(e) => Reject(e)
            case Accept(out, next) => Take(|Encode(f)|, out, next)
  {
    var h := HeaderOf(f);
    var s := Encode(f) + after;
    assert s == h + s[|h|..];
    ReadHeadOfEncoded(f, s[|h|..]);
    if f.mask.Some? {
      var key := f.mask.value;
      var n := |f.payload|;
      assert s[|h|..|h| + 4] == key;
      assert s[|h| + 4..|h| + 4 + n] == Masked(f.payload, key);
      MaskTwice(f.payload, key);
    }
  }

  /** Decoding an encoded frame sequence is running the reference machine over the frames,
      protocol errors and oversized messages included. */
  lemma {:induction false} DecodeUndoesEncode(st: Assembly, frames: seq<Frame>)
    requires forall i :: 0 <= i < |frames| ==> Encodable(frames[i])
    ensures Decode(st, EncodeAll(frames)) == ReactAll(st, frames)
    decreases |frames|
  {
    LookIsSound();
    if frames != [] {
      var f := frames[0];
      LookIsReact(st, f, EncodeAll(frames[1..]));
      if React(st, f).Accept? {
        assert EncodeAll(frames)[|Encode(f)|..] == EncodeAll(frames[1..]);
        DecodeUndoesEncode(React(st, f).next, frames[1..]);
      }
    }
  }

  // --------------------------------------------------------------------------
  // Fragmented messages with control frames in between
  // --------------------------------------------------------------------------

  /** A fragment of a message, with the control frames sent just before it. */
  datatype Fragment = Fragment(controls: seq<Frame>, payload: Bytes, mask: Key)

  predicate ValidControls(controls: seq<Frame>) {
    forall i :: 0 <= i < |controls| ==>
      Control(controls[i].op) && controls[i].fin && controls[i].mask.Some? && |controls[i].payload| <= MAX_CONTROL
  }

  predicate ValidFragments(frags: seq<Fragment>) {
    frags != [] && forall i :: 0 <= i < |frags| ==> ValidControls(frags[i].controls)
  }

  /** The frames of the fragments; the first carries `op`, the last ends the message. */
  function FramesOf(op: Op, frags: seq<Fragment>): seq<Frame>
    decreases |frags|
  {
    if frags == [] then []
    else
      frags[0].controls
      + [Frame(op, frags[0].payload, |frags| == 1, Some(frags[0].mask))]
      + FramesOf(Continuation, frags[1..])
  }

  function ControlMessage(f: Frame): seq<Message> {
    [Message(f.op, f.payload)]
  }

  function ControlMessages(frags: seq<Fragment>): seq<Message> {
    if frags == [] then []
    else FlatMap(ControlMessage, frags[0].controls) + ControlMessages(frags[1..])
  }

  function PayloadOf(frags: seq<Fragment>): Bytes {
    if frags == [] then [] else frags[0].payload + PayloadOf(frags[1..])
  }

  /** The size rule of the code: every payload, a control frame's included, counts against
      the bytes of the message already received. */
  predicate Fits(held: nat, frags: seq<Fragment>)
    decreases |frags|
  {
    frags != [] ==>
      && (forall i :: 0 <= i < |frags[0].controls| ==> held + |frags[0].controls[i].payload| <= MAX_MESSAGE)
      && held + |frags[0].payload| <= MAX_MESSAGE
      && Fits(held + |frags[0].payload|, frags[1..])
  }

  lemma {:induction false} ReactAllConcat(st: Assembly, a: seq<Frame>, b: seq<Frame>)
    requires ReactAll(st, a).end.Open?
    ensures
      var first := ReactAll(st, a);
      var later := ReactAll(first.end.st, b);
      ReactAll(st, a + b) == Run(first.out + later.out, later.end)
    decreases |a|
  {
    if a == [] {
      assert a + b == b;
      assert [] + ReactAll(st, b).out == ReactAll(st, b).out;
    } else {
      assert (a + b)[1..] == a[1..] + b;
      var r := React(st, a[0]);
      var first := ReactAll(r.next, a[1..]);
      ReactAllConcat(r.next, a[1..], b);
      ConcatAssociates(r.out, first.out, ReactAll(first.end.st, b).out);
    }
  }

  lemma {:induction false} ReactAllRefused(st: Assembly, a: seq<Frame>, b: seq<Frame>)
    requires ReactAll(st, a).end.Closed?
    ensures ReactAll(st, a + b).end == ReactAll(st, a).end
    decreases |a|
  {
    assert (a + b)[1..] == a[1..] + b;
    if React(st, a[0]).Accept? {
      ReactAllRefused(React(st, a[0]).next, a[1..], b);
    }
  }

  /** Control frames pass through, unless one is too big for the message that is open. */
  lemma {:induction false} ReactControls(st: Assembly, controls: seq<Frame>)
    requires ValidControls(controls)
    ensures
      var fit := forall i :: 0 <= i < |controls| ==> |st.data| + |controls[i].payload| <= MAX_MESSAGE;
      if fit then ReactAll(st, controls) == Run(FlatMap(ControlMessage, controls), Open(st, []))
      else ReactAll(st, controls).end == Closed(TooBig)
    decreases |controls|
  {
    if controls != [] {
      var others := controls[1..];
      ReactControls(st, others);
      forall i | 0 <= i < |others| ensures others[i] == controls[i + 1] {
      }
    }
  }

  /** The state after the fragments received so far. */
  ghost predicate Midway(st: Assembly, op: Op) {
    !Control(op) && op.Continuation? == st.open && (!st.open ==> st.data == [])
  }

  lemma {:induction false} FragmentsRun(st: Assembly, op: Op, frags: seq<Fragment>)
    requires ValidFragments(frags) && Midway(st, op)
    ensures
      var run := ReactAll(st, FramesOf(op, frags));
      var kind := if op.Continuation? then st.op else op;
      if Fits(|st.data|, frags)
      then run.out == ControlMessages(frags) + [Message(kind, st.data + PayloadOf(frags))]
           && run.end == Open(Assembly(false, kind, []), [])
      else run.end == Closed(TooBig)
    decreases |frags|
  {
    var g := frags[0];
    var f := Frame(op, g.payload, |frags| == 1, Some(g.mask));
    var others := FramesOf(Continuation, frags[1..]);
    ReactControls(st, g.controls);
    assert FramesOf(op, frags) == g.controls + ([f] + others);
    if ReactAll(st, g.controls).end.Closed? {
      ReactAllRefused(st, g.controls, [f] + others);
    } else {
      ReactAllConcat(st, g.controls, [f] + others);
      FragmentStep(st, op, frags);
    }
  }

  lemma {:induction false} FragmentStep(st: Assembly, op: Op, frags: seq<Fragment>)
    requires ValidFragments(frags) && Midway(st, op)
    ensures
      var g := frags[0];
      var f := Frame(op, g.payload, |frags| == 1, Some(g.mask));
      var run := ReactAll(st, [f] + FramesOf(Continuation, frags[1..]));
      var kind := if op.Continuation? then st.op else op;
      if |st.data| + |g.payload| <= MAX_MESSAGE && Fits(|st.data| + |g.payload|, frags[1..])
      then run.out == ControlMessages(frags[1..]) + [Message(kind, st.data + PayloadOf(frags))]
           && run.end == Open(Assembly(false, kind, []), [])
      else run.end == Closed(TooBig)
    decreases |frags|, 0
  {
    var g := frags[0];
    var f := Frame(op, g.payload, |frags| == 1, Some(g.mask));
    var others := FramesOf(Continuation, frags[1..]);
    assert ([f] + others)[1..] == others;
    FragmentReacts(st, f);
    if React(st, f).Accept? {
      assert st.data + PayloadOf(frags) == (st.data + g.payload) + PayloadOf(frags[1..]);
      if |frags| == 1 {
        assert PayloadOf(frags[1..]) == [] && ControlMessages(frags[1..]) == [] && others == [];
        assert (st.data + g.payload) + [] == st.data + g.payload;
      } else {
        FragmentsRun(React(st, f).next, Continuation, frags[1..]);
      }
    }
  }

  /** A fragment is refused when it makes the message too big, and otherwise goes on or completes it. */
  lemma FragmentReacts(st: Assembly, f: Frame)
    requires Midway(st, f.op) && f.mask.Some?
    ensures
      var kind := if f.op.Continuation? then st.op else f.op;
      var data := st.data + f.payload;
      React(st, f) ==
        if |data| > MAX_MESSAGE then Refuse(TooBig)
        else if f.fin then Accept([Message(kind, data)], Assembly(false, kind, []))
        else Accept([], Assembly(true, kind, data))
  {
    if !f.op.Continuation? {
      assert st.data + f.payload == f.payload;
    }
  }

  /**
   Round trip: a message sent in any number of masked fragments, with control frames in
   between, comes out as those control messages in order and then the whole message, exactly
   when it meets the size rule; otherwise the connection ends as too big.
   */
  lemma MessageRoundTrip(st: Assembly, op: Op, frags: seq<Fragment>)
    requires !st.open && st.data == []
    requires op.Text? || op.Binary?
    requires ValidFragments(frags)
    requires forall i :: 0 <= i < |FramesOf(op, frags)| ==> Encodable(FramesOf(op, frags)[i])
    ensures
      var run := Decode(st, EncodeAll(FramesOf(op, frags)));
      if Fits(0, frags)
      then run == Run(ControlMessages(frags) + [Message(op, PayloadOf(frags))], Open(Assembly(false, op, []), []))
      else run.end == Closed(TooBig)
  {
    FragmentsRun(st, op, frags);
    DecodeUndoesEncode(st, FramesOf(op, frags));
    assert [] + PayloadOf(frags) == PayloadOf(frags);
  }

  /** The size rule is stricter than a limit on messages: a ping inside a message that has
      already reached the limit ends the connection, although every message is in bounds. */
  lemma PingInsideFullMessage(full: Bytes, key: Key)
    requires |full| == MAX_MESSAGE
    ensures
      var frags := [Fragment([], full, key), Fragment([Frame(Ping, [0], true, Some(key))], [], key)];
      && ValidFragments(frags)
      && |PayloadOf(frags)| <= MAX_MESSAGE
      && ReactAll(IDLE, FramesOf(Binary, frags)).end == Closed(TooBig)
  {
    var frags := [Fragment([], full, key), Fragment([Frame(Ping, [0], true, Some(key))], [], key)];
    assert frags[1..] == [frags[1]];
    assert frags[1..][1..] == [];
    assert PayloadOf(frags[1..]) == [] + PayloadOf(frags[1..][1..]) == [];
    assert PayloadOf(frags) == full;
    assert frags[1].controls[0].payload == [0];
    assert !Fits(MAX_MESSAGE, frags[1..]);
    FragmentsRun(IDLE, Binary, frags);
  }

  // --------------------------------------------------------------------------
  // Nothing but frames is taken
  // --------------------------------------------------------------------------

  /** The length field in a given number of extra bytes, which need not be the fewest. */
  function LengthIn(extra: nat, n: nat): Bytes
    requires extra == 0 || extra == 2 || extra == 8
    requires extra == 0 ==> n < 126
  {
    if extra == 0 then [128 + n] else [if extra == 2 then 254 else 255] + PutBE(extra, n)
  }

  /** A client frame with its length in that many extra bytes. */
  function ClientForm(extra: nat, op: Op, fin: bool, key: Key, payload: Bytes): Bytes
    requires extra == 0 || extra == 2 || extra == 8
    requires extra == 0 ==> |payload| < 126
  {
    [(if fin then 128 else 0) + Code(op)] + LengthIn(extra, |payload|) + key + Masked(payload, key)
  }

  lemma FirstByteCanonical(b: Byte, op: Op)
    requires b / 16 % 8 == 0 && OpOf(b % 16) == Some(op)
    ensures b == (if b >= 128 then 128 else 0) + Code(op)
  {
    assert Code(op) == b % 16;
    assert b == b / 128 * 128 + b / 16 % 8 * 16 + b % 16;
  }

  lemma LengthCanonical(s: Bytes)
    requires ReadHead(s).Head?
    ensures
      var h := ReadHead(s);
      var extra := h.size - 2;
      && (extra == 0 || extra == 2 || extra == 8) && (extra == 0 ==> h.length < 126)
      && s[1..h.size] == LengthIn(extra, h.length)
  {
    var h := ReadHead(s);
    assert s[1..h.size] == [s[1]] + s[2..h.size];
    BECanonical(s[2..h.size]);
    assert |s[2..h.size]| == h.size - 2;
  }

  lemma ReadHeadCanonical(s: Bytes)
    requires ReadHead(s).Head?
    ensures
      var h := ReadHead(s);
      var extra := h.size - 2;
      && (extra == 0 || extra == 2 || extra == 8) && (extra == 0 ==> h.length < 126)
      && s[..h.size] == [(if h.fin then 128 else 0) + Code(h.op)] + LengthIn(extra, h.length)
      && (Control(h.op) ==> h.fin)
  {
    var h := ReadHead(s);
    FirstByteCanonical(s[0], h.op);
    LengthCanonical(s);
    assert s[..h.size] == [s[0]] + s[1..h.size];
  }

  /** A control frame that is taken is short: its length fits the first length byte. */
  lemma ControlIsShort(s: Bytes)
    requires ReadHead(s).Head? && Control(ReadHead(s).op)
    ensures ReadHead(s).length <= MAX_CONTROL
  {
  }

  /** Whatever the decoder takes is one masked frame, with a known opcode and no reserved bit, that
      the reference machine accepts with the same effect. The length may take more bytes than needed. */
  lemma TakesOnlyClientFrames(st: Assembly, s: Bytes)
    requires Look(st, s).Take?
    ensures exists extra: nat, f: Frame :: TakenFrame(st, s, extra, f)
  {
    var h := ReadHead(s);
    var f := FrameIn(s);
    TakenIsAccepted(st, s);
    TakenBytesAreForm(s);
    assert TakenFrame(st, s, h.size - 2, f);
  }

  predicate HasFrame(s: Bytes) {
    ReadHead(s).Head? && ReadHead(s).size + 4 + ReadHead(s).length <= |s|
  }

  /** The frame these bytes begin with. */
  function FrameIn(s: Bytes): (f: Frame)
    requires HasFrame(s)
    ensures f.mask.Some? && |f.payload| == ReadHead(s).length
  {
    var h := ReadHead(s);
    var key: Key := s[h.size..h.size + 4];
    Frame(h.op, Masked(s[h.size + 4..h.size + 4 + h.length], key), h.fin, Some(key))
  }

  lemma TakenIsAccepted(st: Assembly, s: Bytes)
    requires Look(st, s).Take?
    ensures HasFrame(s) && Look(st, s).size == ReadHead(s).size + 4 + ReadHead(s).length
    ensures React(st, FrameIn(s)) == Accept(Look(st, s).out, Look(st, s).next)
  {
    ReadHeadCanonical(s);
    if Control(ReadHead(s).op) {
      ControlIsShort(s);
    }
  }

  lemma TakenBytesAreForm(s: Bytes)
    requires HasFrame(s)
    ensures
      var h := ReadHead(s);
      var f := FrameIn(s);
      var extra := h.size - 2;
      && (extra == 0 || extra == 2 || extra == 8) && (extra == 0 ==> |f.payload| < 126)
      && s[..h.size + 4 + h.length] == ClientForm(extra, f.op, f.fin, f.mask.value, f.payload)
  {
    var h := ReadHead(s);
    var end := h.size + 4 + h.length;
    ReadHeadCanonical(s);
    MaskTwice(s[h.size + 4..end], s[h.size..h.size + 4]);
    FrameParts(s, h.size, end);
  }

  lemma FrameParts(s: Bytes, size: nat, end: nat)
    requires size + 4 <= end <= |s|
    ensures s[..end] == s[..size] + s[size..size + 4] + s[size + 4..end]
  {
  }

  ghost predicate TakenFrame(st: Assembly, s: Bytes, extra: nat, f: Frame)
    requires Look(st, s).Take?
  {
    var v := Look(st, s);
    && (extra == 0 || extra == 2 || extra == 8) && (extra == 0 ==> |f.payload| < 126)
    && f.mask.Some?
    && s[..v.size] == ClientForm(extra, f.op, f.fin, f.mask.value, f.payload)
    && React(st, f) == Accept(v.out, v.next)
  }

  /** A payload length that this length form can carry. */
  predicate FitsForm(extra: nat, n: nat) {
    || (extra == 0 && n < 126)
    || (extra == 2 && n <= 0xFFFF)
    || (extra == 8 && n < 0x1_0000_0000_0000_0000)
  }

  /** The form section 5.2 of RFC 6455 asks for. */
  function ShortestForm(n: nat): nat {
    if n < 126 then 0 else if n <= 0xFFFF then 2 else 8
  }

  lemma LengthInReads(extra: nat, n: nat)
    requires FitsForm(extra, n)
    ensures extra > 0 ==> GetBE(PutBE(extra, n)) == n
  {
    assert Pow256(2) == 0x1_0000;
    assert Pow256(4) == 0x1_0000_0000;
    assert Pow256(6) == 0x1_0000_0000_0000;
    assert Pow256(8) == 0x1_0000_0000_0000_0000;
    if extra > 0 {
      BERoundTrip(extra, n);
    }
  }

  lemma ReadHeadOfForm(extra: nat, op: Op, fin: bool, n: nat, after: Bytes)
    requires FitsForm(extra, n)
    ensures
      var s := [(if fin then 128 else 0) + Code(op)] + LengthIn(extra, n) + after;
      ReadHead(s) ==
        if Control(op) && (!fin || extra > 0 || n > MAX_CONTROL) then Bad else Head(op, fin, 2 + extra, n)
  {
    var first := (if fin then 128 else 0) + Code(op);
    var s := [first] + LengthIn(extra, n) + after;
    LengthInReads(extra, n);
    FirstByteReads(fin, op);
    assert s[0] == first && s[1] == LengthIn(extra, n)[0];
    if extra > 0 {
      assert s[2..2 + extra] == PutBE(extra, n);
    }
  }

  lemma FormSplits(extra: nat, op: Op, fin: bool, key: Key, payload: Bytes, after: Bytes)
    requires FitsForm(extra, |payload|)
    ensures
      var head := [(if fin then 128 else 0) + Code(op)] + LengthIn(extra, |payload|);
      var s := ClientForm(extra, op, fin, key, payload) + after;
      var body := 2 + extra + 4;
      && s == head + (key + (Masked(payload, key) + after)) && |head| == 2 + extra
      && |s| >= body + |payload|
      && s[2 + extra..body] == key && s[body..body + |payload|] == Masked(payload, key)
  {
  }

  /** What the decoder does with a client frame in any length form: a control frame with extra length
      bytes is a protocol error; any other frame has the effect the reference machine gives it. */
  lemma AnyFormIsReact(st: Assembly, extra: nat, op: Op, fin: bool, key: Key, payload: Bytes, after: Bytes)
    requires FitsForm(extra, |payload|)
    ensures
      var wire := ClientForm(extra, op, fin, key, payload);
      Look(st, wire + after) ==
        if Control(op) && extra > 0 then Reject(ProtocolError)
        else match React(st, Frame(op, payload, fin, Some(key)))
             case Refuse(e) => Reject(e)
             case Accept(out, next) => Take(|wire|, out, next)
  {
    FormSplits(extra, op, fin, key, payload, after);
    ReadHeadOfForm(extra, op, fin, |payload|, key + (Masked(payload, key) + after));
    MaskTwice(payload, key);
  }

  /** The decoder does not insist on the shortest length form. A frame with a longer one is refused
      exactly when it is a control frame, or the reference machine refuses it in its shortest form too. */
  lemma LongerFormRefusedExactlyWhen(st: Assembly, extra: nat, op: Op, fin: bool, key: Key, payload: Bytes, after: Bytes)
    requires FitsForm(extra, |payload|) && extra != ShortestForm(|payload|)
    ensures
      var wire := ClientForm(extra, op, fin, key, payload);
      var short := ClientForm(ShortestForm(|payload|), op, fin, key, payload);
      && (Look(st, wire + after).Reject? <==> Control(op) || Look(st, short + after).Reject?)
      && (!Look(st, wire + after).Reject? ==>
            && Look(st, wire + after).Take? && Look(st, short + after).Take?
            && Look(st, wire + after).out == Look(st, short + after).out
            && Look(st, wire + after).next == Look(st, short + after).next)
  {
    AnyFormIsReact(st, extra, op, fin, key, payload, after);
    AnyFormIsReact(st, ShortestForm(|payload|), op, fin, key, payload, after);
  }
}
