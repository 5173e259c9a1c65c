/**
 The diagnostics reply: written by the firmware with as much of the reset history as one frame
 holds, read by the console.
 */
module Diagnostics {
  import opened Bytes
  import opened Options
  import opened Seqs

  datatype Reset = Reset(boot: Word, reason: Byte, abnormal: bool, name: Bytes)

  datatype Report = Report(sensorFault: Byte, firstFault: Byte, faultCount: Word, bootCount: Word,
                           resets: seq<Reset>, calibration: Byte)

  /** What the console makes of a reply; older firmware sends no calibration state. */
  datatype Decoded = Decoded(sensorFault: Byte, firstFault: Byte, faultCount: Word, bootCount: Word,
                             resets: seq<Reset>, calibration: Option<Byte>)

  const MAX_PAYLOAD: nat := 4096
  const MAX_NAME: nat := 255
  const MAX_RESETS: nat := 255
  const FIXED_SIZE: nat := 12
  const MIN_REPLY: nat := 11

  // --------------------------------------------------------------------------
  // Writing
  // --------------------------------------------------------------------------

  /** The first 255 bytes of a name. */
  function Clip(name: Bytes): (r: Bytes)
    ensures r <= name && |r| <= MAX_NAME
    ensures |r| == |name| || |r| == 255
  {
    if |name| <= MAX_NAME then name else name[..MAX_NAME]
  }

  function Clipped(r: Reset): Reset {
    r.(name := Clip(r.name))
  }

  function EntryHead(r: Reset): (bs: Bytes)
    ensures |bs| == 7
  {
    PutU32(r.boot) + [r.reason, if r.abnormal then 1 else 0, |Clip(r.name)|]
  }

  function Entry(r: Reset): Bytes {
    EntryHead(r) + Clip(r.name)
  }

  function EntrySizes(resets: seq<Reset>): nat {
    if resets == [] then 0 else |Entry(resets[0])| + EntrySizes(resets[1..])
  }

  /** The entries from this one on fit into one frame. */
  predicate Fits(resets: seq<Reset>, first: nat)
    requires first <= |resets|
  {
    FIXED_SIZE + EntrySizes(resets[first..]) <= MAX_PAYLOAD && |resets| - first <= MAX_RESETS
  }

  /** The first of the entries that are kept, when those from k on are kept anyway. */
  function KeptFrom(resets: seq<Reset>, k: nat): (first: nat)
    requires k <= |resets|
    ensures first <= k
  {
    if k == 0 || !Fits(resets, k - 1) then k else KeptFrom(resets, k - 1)
  }

  function Kept(resets: seq<Reset>): seq<Reset> {
    resets[KeptFrom(resets, |resets|)..]
  }

  function Head(d: Report): (bs: Bytes)
    ensures |bs| == 10
  {
    [d.sensorFault, d.firstFault] + (PutU32(d.faultCount) + PutU32(d.bootCount))
  }

  lemma {:induction false} KeptFits(resets: seq<Reset>, k: nat)
    requires k <= |resets| && Fits(resets, k)
    ensures Fits(resets, KeptFrom(resets, k))
    ensures forall j :: 0 <= j < KeptFrom(resets, k) ==> !Fits(resets, j)
  {
    if k > 0 {
      if Fits(resets, k - 1) {
        KeptFits(resets, k - 1);
      } else {
        NoneFits(resets, k - 1);
      }
    }
  }

  lemma NoneFits(resets: seq<Reset>, k: nat)
    requires k <= |resets| && !Fits(resets, k)
    ensures forall j :: 0 <= j <= k ==> !Fits(resets, j)
  {
    forall j | 0 <= j <= k ensures !Fits(resets, j) {
      FitsFewer(resets, j, k);
    }
  }

  lemma {:induction false} FitsFewer(resets: seq<Reset>, j: nat, k: nat)
    requires j <= k <= |resets|
    ensures Fits(resets, j) ==> Fits(resets, k)
    decreases k - j
  {
    if j < k {
      assert resets[j..][1..] == resets[j + 1..];
      FitsFewer(resets, j + 1, k);
    }
  }

  lemma {:induction false} EntrySizesOf(resets: seq<Reset>)
    ensures |FlatMap(Entry, resets)| == EntrySizes(resets)
  {
    if resets != [] {
      EntrySizesOf(resets[1..]);
    }
  }

  lemma KeptAreFew(resets: seq<Reset>)
    ensures |Kept(resets)| <= MAX_RESETS
  {
    assert Fits(resets, |resets|);
    KeptFits(resets, |resets|);
  }

  function Payload(d: Report): Bytes {
    KeptAreFew(d.resets);
    Head(d) + ([|Kept(d.resets)|] + (FlatMap(Entry, Kept(d.resets)) + [d.calibration]))
  }

  /** The reply fits into one frame and keeps the longest run of newest entries that does. */
  lemma KeepsTheMostThatFits(d: Report)
    ensures |Payload(d)| <= MAX_PAYLOAD
    ensures Kept(d.resets) == d.resets[|d.resets| - |Kept(d.resets)|..]
    ensures forall j :: 0 <= j < |d.resets| - |Kept(d.resets)| ==> !Fits(d.resets, j)
  {
    assert Fits(d.resets, |d.resets|);
    KeptFits(d.resets, |d.resets|);
    EntrySizesOf(Kept(d.resets));
  }

  /** Picks the newest entries that fit. */
  method ChooseFirst(resets: seq<Reset>) returns (first: nat)
    ensures first == KeptFrom(resets, |resets|)
  {
    first := |resets|;
    var used := FIXED_SIZE;
    while first > 0
      invariant first <= |resets|
      invariant KeptFrom(resets, first) == KeptFrom(resets, |resets|)
      invariant used == FIXED_SIZE + EntrySizes(resets[first..])
    {
      var r := resets[first - 1];
      var size := 4 + 1 + 1 + 1 + |Clip(r.name)|;
      assert resets[first - 1..][1..] == resets[first..];
      if used + size > MAX_PAYLOAD || |resets| - (first - 1) > MAX_RESETS {
        break;
      }
      used := used + size;
      first := first - 1;
    }
  }

  method PutEntry(payload: Bytes, r: Reset) returns (out: Bytes)
    ensures out == payload + Entry(r)
  {
    EntryParts(payload, r);
    var name := Clip(r.name);
    out := payload + PutU32(r.boot);
    out := out + [r.reason];
    out := out + [if r.abnormal then 1 else 0];
    out := out + [|name|];
    out := out + name;
  }

  method BuildPayload(d: Report) returns (payload: Bytes)
    ensures payload == Payload(d)
  {
    payload := [d.sensorFault, d.firstFault];
    payload := payload + PutU32(d.faultCount);
    payload := payload + PutU32(d.bootCount);
    assert payload == Head(d);
    var first := ChooseFirst(d.resets);
    KeptAreFew(d.resets);
    ghost var kept := Kept(d.resets);
    payload := payload + [|d.resets| - first];
    ghost var start := payload;
    for i := first to |d.resets|
      invariant payload == start + FlatMap(Entry, kept[..i - first])
    {
      var r := d.resets[i];
      FlatMapPrefix(Entry, kept, i - first);
      assert kept[i - first] == r;
      ConcatAssociates(start, FlatMap(Entry, kept[..i - first]), Entry(r));
      payload := PutEntry(payload, r);
    }
    assert kept[..|kept|] == kept;
    payload := payload + [d.calibration];
    PayloadParts(Head(d), [|kept|], FlatMap(Entry, kept), [d.calibration]);
  }

  lemma EntryParts(out: Bytes, r: Reset)
    ensures out + PutU32(r.boot) + [r.reason] + [if r.abnormal then 1 else 0] + [|Clip(r.name)|] + Clip(r.name)
            == out + Entry(r)
  {
    assert out + PutU32(r.boot) + [r.reason] + [if r.abnormal then 1 else 0] + [|Clip(r.name)|] == out + EntryHead(r);
    ConcatAssociates(out, EntryHead(r), Clip(r.name));
  }

  lemma PayloadParts(head: Bytes, count: Bytes, entries: Bytes, last: Bytes)
    ensures head + count + entries + last == head + (count + (entries + last))
  {
    ConcatAssociates(head + count, entries, last);
    ConcatAssociates(head, count, entries + last);
  }

  // --------------------------------------------------------------------------
  // Reading
  // --------------------------------------------------------------------------

  /** One entry at the front, and the bytes left over. */
  function ReadEntry(s: Bytes): (r: Option<(Reset, Bytes)>)
    ensures r.Some? ==> |r.value.1| <= |s|
  {
    if |s| < 7 then None
    else
      var end := 7 + s[6] as int;
      if |s| < end then None else Some((Reset(GetU32(s[..4]), s[4], s[5] != 0, s[7..end]), s[end..]))
  }

  function ReadEntries(s: Bytes, count: nat): Option<(seq<Reset>, Bytes)> {
    if count == 0 then Some(([], s))
    else
      var first := ReadEntry(s);
      if first.None? then None
      else
        var others := ReadEntries(first.value.1, count - 1);
        if others.None? then None else Some(([first.value.0] + others.value.0, others.value.1))
  }

  function Decode(p: Bytes): Option<Decoded> {
    if |p| < MIN_REPLY then None
    else
      var entries := ReadEntries(p[11..], p[10]);
      if entries.None? then None
      else
        var (resets, tail) := entries.value;
        Some(Decoded(p[0], p[1], GetU32(p[2..6]), GetU32(p[6..10]), resets,
                     if tail == [] then None else Some(tail[0])))
  }

  method DecodeEntry(p: Bytes, at: nat) returns (r: Option<Reset>, o: nat)
    requires at <= |p|
    ensures at <= o
    ensures ReadEntry(p[at..]) == if r.None? then None else if o <= |p| then Some((r.value, p[o..])) else None
    ensures r.Some? ==> o <= |p|
  {
    o := at;
    if |p| < o + 7 {
      return None, o;
    }
    var boot, reason, abnormal := GetU32(p[o..o + 4]), p[o + 4], p[o + 5] != 0;
    var nameLen := p[o + 6];
    EntryAt(p, o, nameLen);
    o := o + 7;
    if |p| < o + nameLen {
      return None, o;
    }
    r := Some(Reset(boot, reason, abnormal, p[o..o + nameLen]));
    o := o + nameLen;
  }

  method DecodePayload(p: Bytes) returns (d: Option<Decoded>)
    ensures d == Decode(p)
  {
    if |p| < MIN_REPLY {
      return None;
    }
    var count := p[10];
    var o := 11;
    var resets: seq<Reset> := [];
    AfterNothing(ReadEntries(p[11..], count));
    for i := 0 to count
      invariant 11 <= o <= |p|
      invariant ReadEntries(p[11..], count) == After(resets, ReadEntries(p[o..], count - i))
    {
      ReadNext(resets, p[o..], count - i);
      var r, next := DecodeEntry(p, o);
      if r.None? {
        return None;
      }
      resets := resets + [r.value];
      o := next;
    }
    assert resets + [] == resets;
    return Some(Decoded(p[0], p[1], GetU32(p[2..6]), GetU32(p[6..10]), resets, if o < |p| then Some(p[o]) else None));
  }

  lemma EntryAt(p: Bytes, o: nat, nameLen: nat)
    requires o + 7 <= |p| && nameLen == p[o + 6]
    ensures
      var first := ReadEntry(p[o..]);
      if |p| < o + 7 + nameLen then first == None
      else first == Some((Reset(GetU32(p[o..o + 4]), p[o + 4], p[o + 5] != 0, p[o + 7..o + 7 + nameLen]), p[o + 7 + nameLen..]))
  {
    var s := p[o..];
    assert s[..4] == p[o..o + 4];
    if o + 7 + nameLen <= |p| {
      assert s[7..7 + nameLen] == p[o + 7..o + 7 + nameLen];
      assert s[7 + nameLen..] == p[o + 7 + nameLen..];
    }
  }

  lemma AfterNothing(more: Option<(seq<Reset>, Bytes)>)
    ensures After([], more) == more
  {
    if more.Some? {
      assert [] + more.value.0 == more.value.0;
    }
  }

  function After(resets: seq<Reset>, more: Option<(seq<Reset>, Bytes)>): Option<(seq<Reset>, Bytes)> {
    if more.None? then None else Some((resets + more.value.0, more.value.1))
  }

  lemma ReadNext(before: seq<Reset>, s: Bytes, count: nat)
    requires count > 0
    ensures After(before, ReadEntries(s, count)) ==
            var first := ReadEntry(s);
            if first.None? then None
            else After(before + [first.value.0], ReadEntries(first.value.1, count - 1))
  {
    var first := ReadEntry(s);
    if first.Some? {
      var others := ReadEntries(first.value.1, count - 1);
      if others.Some? {
        ConcatAssociates(before, [first.value.0], others.value.0);
      }
    }
  }

  // --------------------------------------------------------------------------
  // Round trip
  // --------------------------------------------------------------------------

  lemma EntryReads(r: Reset, rest: Bytes)
    ensures ReadEntry(Entry(r) + rest) == Some((Clipped(r), rest))
  {
    var s := Entry(r) + rest;
    var n := |Clip(r.name)|;
    ConcatAssociates(EntryHead(r), Clip(r.name), rest);
    assert s[..4] == PutU32(r.boot);
    assert s[6] == n;
    assert s[7..7 + n] == Clip(r.name);
    assert s[7 + n..] == rest;
    U32RoundTrip(r.boot);
  }

  function ClippedAll(resets: seq<Reset>): (r: seq<Reset>)
    ensures |r| == |resets|
    ensures forall i :: 0 <= i < |r| ==> r[i] == Clipped(resets[i])
  {
    if resets == [] then [] else [Clipped(resets[0])] + ClippedAll(resets[1..])
  }

  lemma {:induction false} EntriesRead(resets: seq<Reset>, rest: Bytes)
    ensures ReadEntries(FlatMap(Entry, resets) + rest, |resets|) == Some((ClippedAll(resets), rest))
  {
    if resets == [] {
      assert [] + rest == rest;
    } else {
      var tail := FlatMap(Entry, resets[1..]);
      ConcatAssociates(Entry(resets[0]), tail, rest);
      EntryReads(resets[0], tail + rest);
      EntriesRead(resets[1..], rest);
    }
  }

  lemma HeadReads(d: Report, count: Byte, body: Bytes)
    ensures
      var p := Head(d) + ([count] + body);
      && |p| >= MIN_REPLY && p[0] == d.sensorFault && p[1] == d.firstFault
      && GetU32(p[2..6]) == d.faultCount && GetU32(p[6..10]) == d.bootCount
      && p[10] == count && p[11..] == body
  {
    var p := Head(d) + ([count] + body);
    assert p[11..] == body;
    assert p[2..6] == PutU32(d.faultCount);
    assert p[6..10] == PutU32(d.bootCount);
    U32RoundTrip(d.faultCount);
    U32RoundTrip(d.bootCount);
  }

  /** A reply of any firmware: the fixed fields, a list of entries, and whatever follows it. */
  lemma ReplyReads(d: Report, resets: seq<Reset>, tail: Bytes)
    requires |resets| <= MAX_RESETS
    ensures Decode(Head(d) + ([|resets|] + (FlatMap(Entry, resets) + tail))) ==
            Some(Decoded(d.sensorFault, d.firstFault, d.faultCount, d.bootCount, ClippedAll(resets),
                         if tail == [] then None else Some(tail[0])))
  {
    HeadReads(d, |resets|, FlatMap(Entry, resets) + tail);
    EntriesRead(resets, tail);
  }

  /** The console reads back what the firmware wrote: every field, and the resets that fit with
      their names clipped. */
  lemma DecodeUndoesPayload(d: Report)
    ensures Decode(Payload(d)) ==
            Some(Decoded(d.sensorFault, d.firstFault, d.faultCount, d.bootCount,
                         ClippedAll(Kept(d.resets)), Some(d.calibration)))
  {
    KeptAreFew(d.resets);
    ReplyReads(d, Kept(d.resets), [d.calibration]);
  }

  /** Fields that later firmware appends do not change what is read. */
  lemma LaterFieldsIgnored(d: Report, more: Bytes)
    ensures Decode(Payload(d) + more) == Decode(Payload(d))
  {
    KeptAreFew(d.resets);
    var kept := Kept(d.resets);
    ReplyReads(d, kept, [d.calibration] + more);
    DecodeUndoesPayload(d);
    AppendInside(Head(d), [|kept|], FlatMap(Entry, kept), [d.calibration], more);
  }

  lemma AppendInside(a: Bytes, b: Bytes, c: Bytes, e: Bytes, more: Bytes)
    ensures a + (b + (c + e)) + more == a + (b + (c + (e + more)))
  {
    ConcatAssociates(c, e, more);
    ConcatAssociates(b, c + e, more);
    ConcatAssociates(a, b + (c + e), more);
  }

  // --------------------------------------------------------------------------
  // Exactly what the console takes
  // --------------------------------------------------------------------------

  /** An entry of any firmware; any flag but zero says abnormal. */
  datatype Wired = Wired(reset: Reset, flag: Byte)

  predicate Sent(w: Wired) {
    |w.reset.name| <= MAX_NAME && (w.reset.abnormal <==> w.flag != 0)
  }

  function WireOf(w: Wired): Bytes
    requires Sent(w)
  {
    PutU32(w.reset.boot) + ([w.reset.reason, w.flag, |w.reset.name|] + w.reset.name)
  }

  function WiresOf(ws: seq<Wired>): Bytes
    requires forall i :: 0 <= i < |ws| ==> Sent(ws[i])
  {
    if ws == [] then [] else WireOf(ws[0]) + WiresOf(ws[1..])
  }

  /** A whole reply: these fields, these entries, and whatever else the firmware sends. */
  predicate IsReply(p: Bytes, d: Decoded, ws: seq<Wired>, tail: Bytes) {
    && |ws| == |d.resets| <= MAX_RESETS
    && (forall i :: 0 <= i < |ws| ==> Sent(ws[i]) && ws[i].reset == d.resets[i])
    && p == [d.sensorFault, d.firstFault] + (PutU32(d.faultCount) + (PutU32(d.bootCount) + ([|ws|] + (WiresOf(ws) + tail))))
    && d.calibration == if tail == [] then None else Some(tail[0])
  }

  lemma WireReads(w: Wired, rest: Bytes)
    requires Sent(w)
    ensures ReadEntry(WireOf(w) + rest) == Some((w.reset, rest))
  {
    var s := WireOf(w) + rest;
    var n := |w.reset.name|;
    assert s[..4] == PutU32(w.reset.boot);
    assert s[6] == n;
    assert s[7..7 + n] == w.reset.name;
    assert s[7 + n..] == rest;
    U32RoundTrip(w.reset.boot);
  }

  lemma WireTaken(s: Bytes) returns (w: Wired)
    requires ReadEntry(s).Some?
    ensures Sent(w) && w.reset == ReadEntry(s).value.0 && s == WireOf(w) + ReadEntry(s).value.1
  {
    w := Wired(ReadEntry(s).value.0, s[5]);
    U32Canonical(s[..4]);
  }

  lemma {:induction false} WiresRead(ws: seq<Wired>, resets: seq<Reset>, rest: Bytes)
    requires |ws| == |resets| && forall i :: 0 <= i < |ws| ==> Sent(ws[i]) && ws[i].reset == resets[i]
    ensures ReadEntries(WiresOf(ws) + rest, |ws|) == Some((resets, rest))
    decreases |ws|
  {
    if ws == [] {
      assert [] + rest == rest;
    } else {
      ConcatAssociates(WireOf(ws[0]), WiresOf(ws[1..]), rest);
      WireReads(ws[0], WiresOf(ws[1..]) + rest);
      WiresRead(ws[1..], resets[1..], rest);
      assert [resets[0]] + resets[1..] == resets;
    }
  }

  lemma {:induction false} WiresTaken(s: Bytes, count: nat) returns (ws: seq<Wired>)
    requires ReadEntries(s, count).Some?
    ensures
      var (resets, rest) := ReadEntries(s, count).value;
      && |ws| == |resets| == count && (forall i :: 0 <= i < count ==> Sent(ws[i]) && ws[i].reset == resets[i])
      && s == WiresOf(ws) + rest
  {
    if count == 0 {
      ws := [];
    } else {
      var first := WireTaken(s);
      var more := WiresTaken(ReadEntry(s).value.1, count - 1);
      ws := [first] + more;
      assert ws[1..] == more;
      ConcatAssociates(WireOf(first), WiresOf(more), ReadEntries(s, count).value.1);
    }
  }

  lemma ReplyTaken(p: Bytes)
    requires Decode(p).Some?
    ensures exists ws, tail :: IsReply(p, Decode(p).value, ws, tail)
  {
    var ws := WiresTaken(p[11..], p[10]);
    var tail := ReadEntries(p[11..], p[10]).value.1;
    U32Canonical(p[2..6]);
    U32Canonical(p[6..10]);
    assert p == [p[0], p[1]] + (p[2..6] + (p[6..10] + ([p[10]] + p[11..])));
    assert IsReply(p, Decode(p).value, ws, tail);
  }

  /** A reply is taken exactly when it has that layout, and is read as what it says; one that is cut short inside
      its fields, an entry or a name is refused. */
  lemma DecodesExactlyReplies(p: Bytes, d: Decoded)
    ensures Decode(p) == Some(d) <==> exists ws, tail :: IsReply(p, d, ws, tail)
  {
    if Decode(p) == Some(d) {
      ReplyTaken(p);
    }
    if ws, tail :| IsReply(p, d, ws, tail) {
      var body := WiresOf(ws) + tail;
      assert p[2..6] == PutU32(d.faultCount) && p[6..10] == PutU32(d.bootCount) && p[11..] == body;
      U32RoundTrip(d.faultCount);
      U32RoundTrip(d.bootCount);
      WiresRead(ws, d.resets, tail);
    }
  }
}
