/**
 Which sequences of client frames are a conversation and what it says, told from the frames alone: a message
 is a text or binary frame and the continuations up to the final one (section 5.4 of RFC 6455).
 */
module WebSocketGrammar {
  import opened Bytes
  import opened Options
  import opened Seqs
  import opened Incremental
  import opened WebSocket

  /** Text and binary frames begin a message, continuations carry it on; other frames are no part of one. */
  predicate Begins(f: Frame) {
    f.op.Text? || f.op.Binary?
  }

  predicate IsData(f: Frame) {
    Begins(f) || f.op.Continuation?
  }

  /** The latest data frame is not the final one of its message. */
  predicate IsOpen(frames: seq<Frame>) {
    exists d :: 0 <= d < |frames| && LatestData(frames, d) && !frames[d].fin
  }

  predicate LatestData(frames: seq<Frame>, d: nat)
    requires d < |frames|
  {
    IsData(frames[d]) && forall j :: d < j < |frames| ==> !IsData(frames[j])
  }

  /** Where the latest message begins. */
  function Start(frames: seq<Frame>): (s: Option<nat>)
    ensures s.Some? ==> s.value < |frames| && Begins(frames[s.value])
  {
    if frames == [] then None
    else if Begins(frames[|frames| - 1]) then Some(|frames| - 1)
    else Start(frames[..|frames| - 1])
  }

  function DataOf(f: Frame): Bytes {
    if IsData(f) then f.payload else []
  }

  /** The payloads of the latest message, as far as it has come. */
  function LatestPayload(frames: seq<Frame>): Bytes {
    var s := Start(frames);
    FlatMap(DataOf, if s.Some? then frames[s.value..] else frames)
  }

  function Held(frames: seq<Frame>): Bytes {
    if IsOpen(frames) then LatestPayload(frames) else []
  }

  /** What is wrong with frame f behind these: it is not masked, or a control frame in parts or too long; it
      does not fit with what is held; or it carries on nothing, or begins a message inside another. */
  function Fault(before: seq<Frame>, f: Frame): Option<Error> {
    if f.mask.None? || (!IsData(f) && (!f.fin || |f.payload| > 125)) then Some(ProtocolError)
    else if |Held(before)| + |f.payload| > 1024 * 1024 then Some(TooBig)
    else if IsData(f) && (f.op.Continuation? != IsOpen(before)) then Some(ProtocolError)
    else None
  }

  /** The message that frame f completes, if it does. */
  function Completes(before: seq<Frame>, f: Frame): seq<Message> {
    if !IsData(f) then [Message(f.op, f.payload)]
    else if !f.fin then []
    else
      var all := before + [f];
      var s := Start(all);
      [Message(if s.Some? then all[s.value].op else Text, LatestPayload(all))]
  }

  function Messages(frames: seq<Frame>): seq<Message> {
    if frames == [] then []
    else
      var n := |frames| - 1;
      Messages(frames[..n]) + Completes(frames[..n], frames[n])
  }

  predicate Proper(frames: seq<Frame>) {
    forall k :: 0 <= k < |frames| ==> Fault(frames[..k], frames[k]).None?
  }

  // --------------------------------------------------------------------------
  // One more frame
  // --------------------------------------------------------------------------

  lemma OpenStep(before: seq<Frame>, f: Frame)
    ensures IsOpen(before + [f]) <==> if IsData(f) then !f.fin else IsOpen(before)
  {
    var all, n := before + [f], |before|;
    if IsData(f) {
      assert LatestData(all, n);
      forall d | 0 <= d < n ensures !LatestData(all, d) {
        assert IsData(all[n]);
      }
    } else {
      forall d | 0 <= d < n ensures LatestData(all, d) <==> LatestData(before, d) {
        if LatestData(all, d) {
          forall j | d < j < n ensures !IsData(before[j]) {
            assert all[j] == before[j];
          }
        }
      }
      assert !LatestData(all, n);
      if IsOpen(before) {
        var d :| 0 <= d < n && LatestData(before, d) && !before[d].fin;
        assert LatestData(all, d) && !all[d].fin;
      }
    }
  }

  lemma StartStep(before: seq<Frame>, f: Frame)
    ensures Start(before + [f]) == if Begins(f) then Some(|before|) else Start(before)
  {
    assert (before + [f])[..|before|] == before;
  }

  lemma PayloadStep(before: seq<Frame>, f: Frame)
    ensures LatestPayload(before + [f]) == if Begins(f) then f.payload else LatestPayload(before) + DataOf(f)
  {
    var all := before + [f];
    StartStep(before, f);
    var s := Start(before);
    if Begins(f) {
      assert all[|before|..] == [f];
      FlatMapOne(DataOf, f);
    } else {
      var part := if s.Some? then before[s.value..] else before;
      assert (if s.Some? then all[s.value..] else all) == part + [f];
      FlatMapAppend(DataOf, part, f);
    }
  }

  // --------------------------------------------------------------------------
  // The decoder follows the grammar
  // --------------------------------------------------------------------------

  /** The decoder's open message is the one the frames leave open. */
  predicate Matches(st: Assembly, frames: seq<Frame>) {
    && st.open == IsOpen(frames) && st.data == Held(frames)
    && (st.open ==> Start(frames).Some? && st.op == frames[Start(frames).value].op)
  }

  /** The decoder's reaction is what the grammar says about this frame. */
  predicate Agrees(st: Assembly, before: seq<Frame>, f: Frame) {
    match Fault(before, f)
    case Some(e) => React(st, f) == Refuse(e)
    case None =>
      && React(st, f).Accept? && React(st, f).out == Completes(before, f)
      && Matches(React(st, f).next, before + [f])
  }

  lemma ControlMatches(st: Assembly, before: seq<Frame>, f: Frame)
    requires Matches(st, before) && !IsData(f)
    ensures Agrees(st, before, f)
  {
    OpenStep(before, f);
    StartStep(before, f);
    PayloadStep(before, f);
  }

  lemma FirstFrameMatches(st: Assembly, before: seq<Frame>, f: Frame)
    requires Matches(st, before) && Begins(f)
    ensures Agrees(st, before, f)
  {
    OpenStep(before, f);
    StartStep(before, f);
    PayloadStep(before, f);
  }

  lemma ContinuationMatches(st: Assembly, before: seq<Frame>, f: Frame)
    requires Matches(st, before) && f.op.Continuation?
    ensures Agrees(st, before, f)
  {
    OpenStep(before, f);
    StartStep(before, f);
    PayloadStep(before, f);
  }

  lemma FrameMatches(st: Assembly, before: seq<Frame>, f: Frame)
    requires Matches(st, before)
    ensures Agrees(st, before, f)
  {
    if !IsData(f) {
      ControlMatches(st, before, f);
    } else if Begins(f) {
      FirstFrameMatches(st, before, f);
    } else {
      ContinuationMatches(st, before, f);
    }
  }

  lemma OneFrame(st: Assembly, f: Frame)
    requires React(st, f).Accept?
    ensures ReactAll(st, [f]) == Run(React(st, f).out, Open(React(st, f).next, []))
  {
    assert [f][1..] == [];
    assert React(st, f).out + [] == React(st, f).out;
  }

  /** The run stays open, has delivered what the grammar says, and keeps nothing but the open message. */
  predicate RunMatches(run: Run<Assembly, Byte, Message, Error>, frames: seq<Frame>) {
    run.out == Messages(frames) && run.end.Open? && run.end.rest == [] && Matches(run.end.st, frames)
  }

  lemma OneMoreFrame(before: seq<Frame>, f: Frame)
    requires RunMatches(ReactAll(IDLE, before), before) && Fault(before, f).None?
    ensures RunMatches(ReactAll(IDLE, before + [f]), before + [f])
  {
    var st := ReactAll(IDLE, before).end.st;
    FrameMatches(st, before, f);
    ReactAllConcat(IDLE, before, [f]);
    OneFrame(st, f);
    assert (before + [f])[..|before|] == before;
  }

  lemma NothingRuns()
    ensures RunMatches(ReactAll(IDLE, []), [])
  {
  }

  predicate RunsAs(frames: seq<Frame>) {
    RunMatches(ReactAll(IDLE, frames), frames)
  }

  lemma RunGoesOn(before: seq<Frame>, f: Frame)
    requires RunsAs(before) && Fault(before, f).None?
    ensures RunsAs(before + [f])
  {
    OneMoreFrame(before, f);
  }

  lemma ProperFramesRun(frames: seq<Frame>)
    requires Proper(frames)
    ensures RunsAs(frames)
  {
    NothingRuns();
    forall j | 0 <= j < |frames| && RunsAs(frames[..j]) ensures RunsAs(frames[..j] + [frames[j]]) {
      RunGoesOn(frames[..j], frames[j]);
    }
    PrefixInduction(frames, RunsAs, |frames|);
    assert frames[..|frames|] == frames;
  }

  lemma RefusedFirst(st: Assembly, frames: seq<Frame>, e: Error)
    requires frames != [] && React(st, frames[0]) == Refuse(e)
    ensures ReactAll(st, frames) == Run([], Closed(e))
  {
  }

  lemma FaultEndsRun(frames: seq<Frame>, k: nat)
    requires k < |frames| && Proper(frames[..k]) && Fault(frames[..k], frames[k]).Some?
    ensures ReactAll(IDLE, frames) == Run(Messages(frames[..k]), Closed(Fault(frames[..k], frames[k]).value))
  {
    var before, rest := frames[..k], frames[k..];
    ProperFramesRun(before);
    var st := ReactAll(IDLE, before).end.st;
    FrameMatches(st, before, rest[0]);
    RefusedFirst(st, rest, Fault(before, rest[0]).value);
    ReactAllConcat(IDLE, before, rest);
    assert frames == before + rest;
    assert Messages(before) + [] == Messages(before);
  }

  /**
   Over any client frames in any order: the decoder stays open exactly when no frame is at fault. It has then
   delivered the control frames and the complete messages, each in its place, and holds what the one left open
   has brought. Otherwise it ends at the first frame at fault, with that fault and exactly the messages before.
   */
  lemma DecodesByGrammar(frames: seq<Frame>)
    requires forall i :: 0 <= i < |frames| ==> Encodable(frames[i])
    ensures
      var run := Decode(IDLE, EncodeAll(frames));
      && (run.end.Open? <==> Proper(frames))
      && (Proper(frames) ==> run.out == Messages(frames) && run.end.rest == [] && Matches(run.end.st, frames))
      && forall k: nat {:trigger Proper(frames[..k])} ::
           k < |frames| && Proper(frames[..k]) && Fault(frames[..k], frames[k]).Some? ==>
             run == Run(Messages(frames[..k]), Closed(Fault(frames[..k], frames[k]).value))
  {
    DecodeUndoesEncode(IDLE, frames);
    forall k: nat | k < |frames| && Proper(frames[..k]) && Fault(frames[..k], frames[k]).Some?
      ensures ReactAll(IDLE, frames) == Run(Messages(frames[..k]), Closed(Fault(frames[..k], frames[k]).value))
    {
      FaultEndsRun(frames, k);
    }
    if Proper(frames) {
      ProperFramesRun(frames);
    } else {
      var k := FirstFault(frames);
      FaultEndsRun(frames, k);
    }
  }

  lemma {:induction false} FirstFault(frames: seq<Frame>) returns (k: nat)
    requires !Proper(frames)
    ensures k < |frames| && Proper(frames[..k]) && Fault(frames[..k], frames[k]).Some?
    decreases |frames|
  {
    var j: nat :| j < |frames| && Fault(frames[..j], frames[j]).Some?;
    if Proper(frames[..j]) {
      k := j;
    } else {
      k := FirstFault(frames[..j]);
      assert frames[..j][..k] == frames[..k];
    }
  }

  /** For instance, a new message inside an open one: the first is not dropped, the connection ends. */
  lemma InterruptedMessageIsFault(op: Op, first: Bytes, second: Bytes, fin: bool, key: Key)
    requires (op.Text? || op.Binary?) && |first| + |second| <= 1024 * 1024
    ensures
      var frames := [Frame(op, first, false, Some(key)), Frame(Text, second, fin, Some(key))];
      Decode(IDLE, EncodeAll(frames)) == Run([], Closed(ProtocolError))
  {
    var a, b := Frame(op, first, false, Some(key)), Frame(Text, second, fin, Some(key));
    var frames := [a, b];
    DecodesByGrammar(frames);
    OpenStep([], a);
    PayloadStep([], a);
    assert [] + [a] == [a] == frames[..1] && frames[..0] == [] && frames[..1][..0] == [];
    assert Fault([], a).None?;
    assert Proper(frames[..1]) && Messages(frames[..1]) == [];
    assert Fault(frames[..1], frames[1]) == Some(ProtocolError);
  }

  // --------------------------------------------------------------------------
  // What the bytes at the front decide
  // --------------------------------------------------------------------------

  /** A reserved bit, no mask, an opcode that is not known, or a control frame in parts or with a length
      field of more than one byte. */
  predicate BadHeader(s: Bytes)
    requires |s| >= 2
  {
    || s[0] / 16 % 8 != 0
    || s[1] < 128
    || s[0] % 16 !in {0, 1, 2, 8, 9, 10}
    || (s[0] % 16 >= 8 && (s[0] < 128 || s[1] > 128 + 125))
  }

  /** Header bytes before the key. */
  function HeaderSize(s: Bytes): nat
    requires |s| >= 2
  {
    if s[1] % 128 == 126 then 4 else if s[1] % 128 == 127 then 10 else 2
  }

  function PayloadSize(s: Bytes): nat
    requires |s| >= 2 && |s| >= HeaderSize(s)
  {
    if HeaderSize(s) == 2 then s[1] % 128 else GetBE(s[2..HeaderSize(s)])
  }

  /** The opcode begins a message inside another one, or carries on where none is open. */
  predicate Misplaced(st: Assembly, s: Bytes)
    requires |s| >= 2
  {
    s[0] % 16 < 8 && ((s[0] % 16 == 0) != st.open)
  }

  lemma HeadByBytes(s: Bytes)
    ensures
      var h := ReadHead(s);
      if |s| < 2 then h == Short
      else if BadHeader(s) then h == Bad
      else if |s| < HeaderSize(s) then h == Short
      else
        && h.Head? && h.size == HeaderSize(s) && h.length == PayloadSize(s)
        && (Control(h.op) <==> s[0] % 16 >= 8) && (h.op.Continuation? <==> s[0] % 16 == 0)
  {
  }

  lemma VerdictByHead(st: Assembly, s: Bytes, h: Head)
    requires h.Head? && 2 <= h.size <= |s|
    ensures
      var v := FollowHead(st, s, h);
      if h.length > 1024 * 1024 - |st.data| then v == Reject(TooBig)
      else if |s| < h.size + 4 + h.length then v == Wait
      else if !Control(h.op) && h.op.Continuation? != st.open then v == Reject(ProtocolError)
      else v.Take? && v.size == h.size + 4 + h.length
  {
  }

  /** A frame that breaks the rules of the header is refused with its second byte, one that is too big as soon as
      its length is there, and one out of place when it is complete. Only an incomplete frame that may still be
      good is waited for. */
  lemma VerdictByBytes(st: Assembly, s: Bytes)
    ensures
      var v := Look(st, s);
      if |s| < 2 then v == Wait
      else if BadHeader(s) then v == Reject(ProtocolError)
      else if |s| < HeaderSize(s) then v == Wait
      else if PayloadSize(s) > 1024 * 1024 - |st.data| then v == Reject(TooBig)
      else if |s| < HeaderSize(s) + 4 + PayloadSize(s) then v == Wait
      else if Misplaced(st, s) then v == Reject(ProtocolError)
      else v.Take? && v.size == HeaderSize(s) + 4 + PayloadSize(s)
  {
    HeadByBytes(s);
    if ReadHead(s).Head? {
      VerdictByHead(st, s, ReadHead(s));
    }
  }
}
