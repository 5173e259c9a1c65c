/**
 The console's frame parser object: one pass over the buffered and new bytes, with skipped
 stretches collected as ranges and copied out as text at the end.
 */
module FrameParsing {
  import opened Bytes
  import opened Options
  import opened Seqs
  import opened Incremental
  import opened Crc32
  import opened FrameStream

  /** Half-open stretches of the input that were skipped. */
  type Ranges = seq<(nat, nat)>

  predicate RangesWithin(ranges: Ranges, n: nat) {
    forall i :: 0 <= i < |ranges| ==> ranges[i].0 <= ranges[i].1 <= n
  }

  function Extract(s: Bytes, ranges: Ranges): Bytes
    requires RangesWithin(ranges, |s|)
  {
    if ranges == [] then []
    else
      var last := ranges[|ranges| - 1];
      Extract(s, ranges[..|ranges| - 1]) + s[last.0..last.1]
  }

  /** Adds a stretch, growing the last one when it starts where that one ends. */
  function AddRange(s: Bytes, ranges: Ranges, start: nat, end: nat): (r: Ranges)
    requires RangesWithin(ranges, |s|)
    requires start <= end <= |s|
    ensures RangesWithin(r, |s|)
    ensures Extract(s, r) == Extract(s, ranges) + s[start..end]
  {
    if end == start then
      assert Extract(s, ranges) + s[start..end] == Extract(s, ranges);
      ranges
    else if ranges != [] && ranges[|ranges| - 1].1 == start then
      var n := |ranges| - 1;
      var r := ranges[..n] + [(ranges[n].0, end)];
      assert r[..n] == ranges[..n];
      assert s[ranges[n].0..end] == s[ranges[n].0..start] + s[start..end];
      r
    else
      var r := ranges + [(start, end)];
      assert r[..|ranges|] == ranges;
      r
  }

  type Decision = ((), Bytes) -> Verdict<(), Item, ()>

  /** `look` is the parser's decision, for code that only follows it. */
  ghost predicate IsDecision(sum: Sum, look: Decision) {
    && Progressing(look)
    && forall s {:trigger Look(sum, s)} :: look((), s) == Look(sum, s)
  }

  lemma {:induction false} DecisionScans(sum: Sum, look: Decision, s: Bytes)
    requires IsDecision(sum, look)
    ensures Drive(look, (), s) == Scan(sum, s)
    decreases |s|
  {
    DecideIsSound(sum);
    if Look(sum, s).Take? {
      DecisionScans(sum, look, s[Look(sum, s).size..]);
    }
  }

  /** The output variables hold what `done` says. */
  ghost predicate Collected(s: Bytes, done: seq<Item>, frames: seq<Frame>, ranges: Ranges) {
    && RangesWithin(ranges, |s|)
    && frames == FlatMap(FrameOf, done)
    && Extract(s, ranges) == FlatMap(TextOf, done)
  }

  lemma CollectedText(s: Bytes, done: seq<Item>, frames: seq<Frame>, ranges: Ranges, start: nat, end: nat)
    requires Collected(s, done, frames, ranges)
    requires start <= end <= |s|
    ensures Collected(s, done + TextItems(s[start..end]), frames, AddRange(s, ranges, start, end))
  {
    FlatMapConcat(FrameOf, done, TextItems(s[start..end]));
    FlatMapConcat(TextOf, done, TextItems(s[start..end]));
    TextItemsProject(s[start..end]);
  }

  lemma {:induction false} TextItemsProject(t: Bytes)
    ensures FlatMap(FrameOf, TextItems(t)) == []
    ensures FlatMap(TextOf, TextItems(t)) == t
  {
    if t != [] {
      assert TextItems(t)[1..] == TextItems(t[1..]);
      TextItemsProject(t[1..]);
    }
  }

  lemma CollectedByte(s: Bytes, done: seq<Item>, frames: seq<Frame>, ranges: Ranges, pos: nat)
    requires Collected(s, done, frames, ranges)
    requires pos < |s|
    ensures Collected(s, done + [Text(s[pos])], frames, AddRange(s, ranges, pos, pos + 1))
  {
    CollectedText(s, done, frames, ranges, pos, pos + 1);
    assert TextItems(s[pos..pos + 1]) == [Text(s[pos])];
  }

  lemma CollectedFrame(s: Bytes, done: seq<Item>, frames: seq<Frame>, ranges: Ranges, item: Item)
    requires Collected(s, done, frames, ranges)
    requires item.Delivered?
    ensures Collected(s, done + [item], frames + [item.frame], ranges)
  {
    FlatMapAppend(FrameOf, done, item);
    FlatMapAppend(TextOf, done, item);
  }

  class FrameParser {
    const table: seq<Word>
    ghost const sum: Sum
    ghost const look: Decision
    var buf: Bytes
    var lastActivity: int

    ghost predicate Ready() {
      IsTable(table) && IsChecksum(sum) && IsDecision(sum, look)
    }

    constructor ()
      ensures Ready() && buf == []
    {
      var t := BuildTable();
      table := t;
      sum := Crc;
      look := Decide(Crc);
      buf := [];
      lastActivity := 0;
      new;
      DecideIsSound(Crc);
    }

    /** Takes in one chunk; returns the frames completed by it and the bytes that turned
        out to be plain text. */
    method Feed(chunk: Bytes, now: int) returns (frames: seq<Frame>, text: Bytes)
      requires Ready()
      modifies this
      ensures buf == Rest(sum, old(buf) + chunk)
      ensures frames == FlatMap(FrameOf, Scan(sum, old(buf) + chunk).out)
      ensures text == FlatMap(TextOf, Scan(sum, old(buf) + chunk).out)
      ensures lastActivity == now
    {
      var merged := buf + chunk;
      var pos, ranges;
      frames, pos, ranges := Split(merged);
      buf := merged[pos..];
      lastActivity := now;
      text := [];
      for i := 0 to |ranges|
        invariant text == Extract(merged, ranges[..i])
      {
        assert ranges[..i + 1][..i] == ranges[..i];
        text := text + merged[ranges[i].0..ranges[i].1];
      }
      assert ranges[..|ranges|] == ranges;
      DecisionScans(sum, look, merged);
    }

    /** Gives up on bytes that wait for more, once nothing has come for long enough. */
    method FlushStale(maxAge: int, now: int) returns (text: Option<Bytes>)
      modifies this
      ensures text.Some? <==> old(buf) != [] && now - old(lastActivity) >= maxAge
      ensures text.Some? ==> text.value == old(buf) && buf == []
      ensures text.None? ==> buf == old(buf)
      ensures lastActivity == old(lastActivity)
    {
      if buf == [] || now - lastActivity < maxAge {
        return None;
      }
      text := Some(buf);
      buf := [];
    }

    /** One pass over the bytes: the frames, where the undecided rest begins, and the
        stretches that are text. */
    method Split(merged: Bytes) returns (frames: seq<Frame>, pos: nat, ranges: Ranges)
      requires Ready()
      ensures pos <= |merged| && Drive(look, (), merged).end == Open((), merged[pos..])
      ensures RangesWithin(ranges, |merged|)
      ensures frames == FlatMap(FrameOf, Drive(look, (), merged).out)
      ensures Extract(merged, ranges) == FlatMap(TextOf, Drive(look, (), merged).out)
    {
      frames, ranges, pos := [], [], 0;
      ghost var done: seq<Item> := [];
      ReachedStart(look, (), merged);
      while true
        invariant Reached(look, (), merged, pos, (), done)
        invariant Collected(merged, done, frames, ranges)
        decreases |merged| - pos
      {
        var runStart := pos;
        ghost var before := done;
        pos, done := SkipPlain(merged, pos, done);
        CollectedText(merged, before, frames, ranges, runStart, pos);
        ranges := AddRange(merged, ranges, runStart, pos);
        var more;
        more, pos, done, frames, ranges := TakeOne(merged, pos, done, frames, ranges);
        if !more {
          break;
        }
      }
      ReachedEnd(look, (), merged, pos, (), done);
    }

    /** Acts on the bytes at `pos`: a frame, a byte that turned out to be text, or nothing yet. */
    method TakeOne(merged: Bytes, pos: nat, ghost done: seq<Item>, frames: seq<Frame>, ranges: Ranges)
      returns (more: bool, pos': nat, ghost done': seq<Item>, frames': seq<Frame>, ranges': Ranges)
      requires Ready()
      requires Reached(look, (), merged, pos, (), done)
      requires Collected(merged, done, frames, ranges)
      requires pos == |merged| || MayStart(merged[pos..])
      ensures Reached(look, (), merged, pos', (), done')
      ensures Collected(merged, done', frames', ranges')
      ensures if more then pos' > pos else pos' == pos && look((), merged[pos..]).Wait?
    {
      more, pos', done', frames', ranges' := true, pos, done, frames, ranges;
      var v := LookAt(merged, pos);
      OneItem(merged, pos);
      if v.Wait? {
        more := false;
      } else {
        ReachedStep(look, (), merged, pos, (), done);
        assert v.out == [v.out[0]];
        done' := done + v.out;
        pos' := pos + v.size;
        if v.out[0].Text? {
          CollectedByte(merged, done, frames, ranges, pos);
          ranges' := AddRange(merged, ranges, pos, pos + 1);
        } else {
          CollectedFrame(merged, done, frames, ranges, v.out[0]);
          frames' := frames + [v.out[0].frame];
        }
      }
    }

    /** Moves past bytes that cannot start a frame. */
    method SkipPlain(merged: Bytes, start: nat, ghost before: seq<Item>)
      returns (pos: nat, ghost done: seq<Item>)
      requires Ready()
      requires Reached(look, (), merged, start, (), before)
      ensures start <= pos && Reached(look, (), merged, pos, (), done)
      ensures done == before + TextItems(merged[start..pos])
      ensures pos == |merged| || MayStart(merged[pos..])
    {
      pos := start;
      done := before;
      assert before + TextItems(merged[start..pos]) == before;
      while pos < |merged| && !(merged[pos] == 0x54 && (pos + 1 >= |merged| || merged[pos + 1] == 0x4F))
        invariant start <= pos && Reached(look, (), merged, pos, (), done)
        invariant done == before + TextItems(merged[start..pos])
      {
        PlainByte(merged, pos);
        ReachedStep(look, (), merged, pos, (), done);
        assert TextItems(merged[start..pos + 1]) == TextItems(merged[start..pos]) + [Text(merged[pos])];
        done := done + [Text(merged[pos])];
        pos := pos + 1;
      }
    }

    lemma PlainByte(s: Bytes, pos: nat)
      requires Ready()
      requires pos < |s| && !MayStart(s[pos..])
      ensures look((), s[pos..]) == Take(1, [Text(s[pos])], ())
    {
      assert Look(sum, s[pos..]) == Skip(s[pos..]);
    }

    /** A decision is to wait, to pass one byte on as text, or to deliver one frame. */
    lemma OneItem(s: Bytes, pos: nat)
      requires Ready() && pos <= |s|
      ensures
        var v := look((), s[pos..]);
        && (v.Wait? || (v.Take? && 0 < v.size && |v.out| == 1 && v.next == ()))
        && (v.Take? && v.out[0].Text? ==> pos < |s| && v == Take(1, [Text(s[pos])], ()))
    {
      assert look((), s[pos..]) == Look(sum, s[pos..]);
    }

    /** Decides about the bytes at `pos`, where a frame may start. */
    method LookAt(merged: Bytes, pos: nat) returns (v: Verdict<(), Item, ()>)
      requires Ready()
      requires pos <= |merged|
      requires pos == |merged| || MayStart(merged[pos..])
      ensures v == look((), merged[pos..])
    {
      ghost var here := merged[pos..];
      assert look((), here) == Look(sum, here);
      if |merged| - pos < 3 {
        return Wait;
      }
      var flags := merged[pos + 2];
      var ext := if flags / 2 % 2 == 1 then 2 else 0;
      var header := HEADER_SIZE + ext;
      if |merged| - pos < header {
        return Wait;
      }
      var len := GetU32(merged[pos + 5 + ext..pos + header]);
      SliceOfRest(merged, pos, 5 + ext, header);
      if len > MAX_PAYLOAD {
        return Take(1, [Text(merged[pos])], ());
      }
      var total := header + len + CRC_SIZE;
      if |merged| - pos < total {
        return Wait;
      }
      var genuine := ChecksumHolds(merged, pos, header + len);
      if !genuine {
        return Take(1, [Text(merged[pos])], ());
      }
      var frame := FieldsAt(merged, pos, ext, len);
      SliceOfRest(merged, pos, 0, total);
      v := Take(total, [Delivered(merged[pos..pos + total], frame)], ());
    }

    /** The fields of the frame at `pos`. */
    static method FieldsAt(merged: Bytes, pos: nat, ext: nat, len: nat) returns (frame: Frame)
      requires ext <= 2 && pos + HEADER_SIZE + ext + len <= |merged|
      ensures frame == FrameAt(merged[pos..], ext, len)
    {
      var header := HEADER_SIZE + ext;
      var flags := merged[pos + 2];
      var correlation := if ext == 2 then Some(merged[pos + 5] as int + 256 * merged[pos + 6] as int) else None;
      SliceOfRest(merged, pos, header, header + len);
      frame := Frame(flags, flags % 2 == 1, correlation, merged[pos + 3], merged[pos + 4],
                     merged[pos + header..pos + header + len]);
    }

    /** The checksum after `n` bytes is that of those bytes. */
    method ChecksumHolds(merged: Bytes, pos: nat, n: nat) returns (genuine: bool)
      requires Ready()
      requires pos + n + CRC_SIZE <= |merged|
      ensures
        var here := merged[pos..];
        genuine == (sum(here[..n]) == GetU32(here[n..n + CRC_SIZE]))
    {
      var expected := GetU32(merged[pos + n..pos + n + CRC_SIZE]);
      var actual := Checksum(table, sum, merged[pos..pos + n]);
      SliceOfRest(merged, pos, n, n + CRC_SIZE);
      SliceOfRest(merged, pos, 0, n);
      genuine := actual == expected;
    }
  }
}
