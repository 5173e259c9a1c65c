/** What comes out of the frame parser of a stream of device text and frames. */
module FrameRoundTrip {
  import opened Bytes
  import opened Seqs
  import opened Incremental
  import opened FrameStream

  // --------------------------------------------------------------------------
  // What arrives
  // --------------------------------------------------------------------------

  /** Device output between frames, followed by a frame. */
  datatype Burst = Burst(text: Bytes, frame: Frame)

  predicate Sendable(bursts: seq<Burst>) {
    forall i :: 0 <= i < |bursts| ==> WellFormed(bursts[i].frame)
  }

  /** The bytes of these bursts, with `more` behind them. */
  function Stream(sum: Sum, bursts: seq<Burst>, more: Bytes): Bytes
    requires Sendable(bursts)
  {
    if bursts == [] then more else bursts[0].text + (Wire(sum, bursts[0].frame) + Stream(sum, bursts[1..], more))
  }

  function SentItems(sum: Sum, bursts: seq<Burst>): seq<Item>
    requires Sendable(bursts)
  {
    if bursts == [] then []
    else
      var f := bursts[0].frame;
      TextItems(bursts[0].text) + ([Delivered(Wire(sum, f), f)] + SentItems(sum, bursts[1..]))
  }

  /** At every byte of the text the parser sees that no frame starts, given what follows. */
  ghost predicate Passes(sum: Sum, t: Bytes, after: Bytes) {
    forall i :: 0 <= i < |t| ==> Look(sum, t[i..] + after) == Skip(t[i..] + after)
  }

  ghost predicate TextsPass(sum: Sum, bursts: seq<Burst>, more: Bytes)
    requires Sendable(bursts)
  {
    bursts == [] ||
    (&& Passes(sum, bursts[0].text, Wire(sum, bursts[0].frame) + Stream(sum, bursts[1..], more))
     && TextsPass(sum, bursts[1..], more))
  }

  lemma ScanStep(sum: Sum, s: Bytes)
    requires Look(sum, s).Take?
    ensures
      var later := Scan(sum, s[Look(sum, s).size..]);
      Scan(sum, s) == Run(Look(sum, s).out + later.out, later.end)
  {
    DecideIsSound(sum);
  }

  lemma ScanWaits(sum: Sum, s: Bytes)
    requires Look(sum, s).Wait?
    ensures Scan(sum, s) == Run([], Open((), s))
  {
    DecideIsSound(sum);
  }

  lemma PassesStep(sum: Sum, t: Bytes, after: Bytes)
    requires t != []
    ensures Passes(sum, t, after) <==> Look(sum, t + after) == Skip(t + after) && Passes(sum, t[1..], after)
  {
    assert t[0..] == t;
    forall i | 0 <= i < |t| - 1 ensures t[1..][i..] == t[i + 1..] {
    }
    if Look(sum, t + after) == Skip(t + after) && Passes(sum, t[1..], after) {
      forall i | 0 <= i < |t| ensures Look(sum, t[i..] + after) == Skip(t[i..] + after) {
        if i > 0 {
          assert t[1..][i - 1..] == t[i..];
        }
      }
    }
  }

  lemma ItemsStep(t: Bytes)
    requires t != []
    ensures TextItems(t) == [Text(t[0])] + TextItems(t[1..])
  {
  }

  lemma ScanSkips(sum: Sum, t: Bytes, after: Bytes)
    requires t != [] && Look(sum, t + after) == Skip(t + after)
    ensures
      var later := Scan(sum, t[1..] + after);
      Scan(sum, t + after) == Run([Text(t[0])] + later.out, later.end)
  {
    ScanStep(sum, t + after);
    assert (t + after)[1..] == t[1..] + after;
  }

  /** Text that passes comes out as text, and then whatever follows it. */
  lemma {:induction false} ScanText(sum: Sum, t: Bytes, after: Bytes)
    requires Passes(sum, t, after)
    ensures Scan(sum, t + after) == Run(TextItems(t) + Scan(sum, after).out, Scan(sum, after).end)
  {
    if t == [] {
      assert t + after == after;
      assert TextItems(t) + Scan(sum, after).out == Scan(sum, after).out;
    } else {
      PassesStep(sum, t, after);
      ScanSkips(sum, t, after);
      ScanText(sum, t[1..], after);
      ItemsStep(t);
      ConcatAssociates([Text(t[0])], TextItems(t[1..]), Scan(sum, after).out);
    }
  }

  /** One byte comes out as text only where no frame starts. */
  lemma TextMeansSkip(sum: Sum, s: Bytes)
    requires s != []
    ensures Scan(sum, s).out != [] && Scan(sum, s).out[0] == Text(s[0]) ==> Look(sum, s) == Skip(s)
  {
    if Look(sum, s).Wait? {
      ScanWaits(sum, s);
    } else {
      ScanStep(sum, s);
    }
  }

  /** Nothing but text that passes comes out as text. */
  lemma {:induction false} OnlyPassingText(sum: Sum, t: Bytes, after: Bytes, items: seq<Item>)
    ensures Scan(sum, t + after).out == TextItems(t) + items ==> Passes(sum, t, after)
  {
    var s := t + after;
    if t != [] && Scan(sum, s).out == TextItems(t) + items {
      ItemsStep(t);
      TextMeansSkip(sum, s);
      ScanStep(sum, s);
      assert s[1..] == t[1..] + after;
      assert Scan(sum, s[1..]).out == Scan(sum, s).out[1..] == TextItems(t[1..]) + items;
      OnlyPassingText(sum, t[1..], after, items);
      PassesStep(sum, t, after);
    }
  }

  lemma ScanWire(sum: Sum, f: Frame, s: Bytes)
    requires WellFormed(f)
    ensures Scan(sum, Wire(sum, f) + s) == Run([Delivered(Wire(sum, f), f)] + Scan(sum, s).out, Scan(sum, s).end)
  {
    DecideIsSound(sum);
    LookDeliversWire(sum, f, s);
    assert (Wire(sum, f) + s)[|Wire(sum, f)|..] == s;
  }

  /** The stream comes out as sent: these texts and frames, in order, and then what comes of the rest. */
  ghost predicate ComesOutAsSent(sum: Sum, bursts: seq<Burst>, more: Bytes)
    requires Sendable(bursts)
  {
    var run := Scan(sum, more);
    Scan(sum, Stream(sum, bursts, more)) == Run(SentItems(sum, bursts) + run.out, run.end)
  }

  lemma {:induction false} PassingTextsComeOut(sum: Sum, bursts: seq<Burst>, more: Bytes)
    requires Sendable(bursts) && TextsPass(sum, bursts, more)
    ensures ComesOutAsSent(sum, bursts, more)
  {
    if bursts == [] {
      assert SentItems(sum, bursts) + Scan(sum, more).out == Scan(sum, more).out;
    } else {
      var f, text, later := bursts[0].frame, bursts[0].text, Stream(sum, bursts[1..], more);
      PassingTextsComeOut(sum, bursts[1..], more);
      ScanText(sum, text, Wire(sum, f) + later);
      ScanWire(sum, f, later);
      var frame := [Delivered(Wire(sum, f), f)];
      ConcatAssociates(frame, SentItems(sum, bursts[1..]), Scan(sum, more).out);
      ConcatAssociates(TextItems(text), frame + SentItems(sum, bursts[1..]), Scan(sum, more).out);
    }
  }

  lemma {:induction false} OnlyPassingTextsComeOut(sum: Sum, bursts: seq<Burst>, more: Bytes)
    requires Sendable(bursts)
    ensures ComesOutAsSent(sum, bursts, more) ==> TextsPass(sum, bursts, more)
  {
    if bursts != [] && ComesOutAsSent(sum, bursts, more) {
      var f, text, later := bursts[0].frame, bursts[0].text, Stream(sum, bursts[1..], more);
      var frame := [Delivered(Wire(sum, f), f)];
      var sent := SentItems(sum, bursts[1..]) + Scan(sum, more).out;
      ConcatAssociates(frame, SentItems(sum, bursts[1..]), Scan(sum, more).out);
      ConcatAssociates(TextItems(text), frame + SentItems(sum, bursts[1..]), Scan(sum, more).out);
      OnlyPassingText(sum, text, Wire(sum, f) + later, frame + sent);
      ScanText(sum, text, Wire(sum, f) + later);
      ScanWire(sum, f, later);
      assert (TextItems(text) + (frame + sent))[|text|..] == frame + sent;
      assert (frame + sent)[1..] == sent && (frame + Scan(sum, later).out)[1..] == Scan(sum, later).out;
      OnlyPassingTextsComeOut(sum, bursts[1..], more);
    }
  }

  /** Round trip, for any text at all and anything behind it: interleaved text and frames come out as sent if
      and only if the parser sees at every byte of the text that no frame starts there. By the chunking
      theorem this holds however the stream is cut. */
  lemma StreamRoundTripExactlyWhen(sum: Sum, bursts: seq<Burst>, more: Bytes)
    requires Sendable(bursts)
    ensures ComesOutAsSent(sum, bursts, more) <==> TextsPass(sum, bursts, more)
  {
    if TextsPass(sum, bursts, more) {
      PassingTextsComeOut(sum, bursts, more);
    }
    OnlyPassingTextsComeOut(sum, bursts, more);
  }

  // --------------------------------------------------------------------------
  // Text that passes
  // --------------------------------------------------------------------------

  predicate StartsAt(t: Bytes, i: nat) {
    i + 1 < |t| && t[i] == 0x54 && t[i + 1] == 0x4F
  }

  /** Behind the "TO" at `i` the text itself goes on to a length field that no frame can have. */
  predicate TooLongAt(t: Bytes, i: nat) {
    i + 2 < |t| &&
    var field := i + 5 + Extension(t[i + 2]);
    field + 4 <= |t| && GetU32(t[field..field + 4]) > MAX_PAYLOAD
  }

  /** Wherever the text says "TO", it can be told from a frame. */
  predicate Harmless(t: Bytes) {
    forall i :: 0 <= i < |t| && StartsAt(t, i) ==> TooLongAt(t, i)
  }

  /** Text that says no "TO" is harmless, and so is text without NUL bytes that goes on for nine more bytes
      behind each "TO": every character that can be printed is at least one. */
  lemma PrintedTextIsHarmless(t: Bytes)
    requires forall i :: 0 <= i < |t| ==> t[i] != 0
    requires forall i :: 0 <= i < |t| && StartsAt(t, i) ==> i + 11 <= |t|
    ensures Harmless(t)
  {
    forall i: nat | i < |t| && StartsAt(t, i) ensures TooLongAt(t, i) {
      var field := i + 5 + Extension(t[i + 2]);
      U32TopByte(t[field..field + 4]);
    }
  }

  lemma U32TopByte(bs: Bytes)
    requires |bs| == 4 && bs[3] != 0
    ensures GetU32(bs) > MAX_PAYLOAD
  {
  }

  lemma TooLongIsSkipped(sum: Sum, t: Bytes, i: nat, after: Bytes)
    requires StartsAt(t, i) && TooLongAt(t, i)
    ensures Look(sum, t[i..] + after) == Skip(t[i..] + after)
  {
    var s := t[i..] + after;
    var field := 5 + Extension(t[i + 2]);
    assert s[0] == t[i] && s[1] == t[i + 1] && s[2] == t[i + 2];
    assert s[field..field + 4] == t[i + field..i + field + 4];
  }

  /** Harmless text passes, whatever frame follows: its last byte may even be the frame's own first one. */
  lemma HarmlessPasses(sum: Sum, t: Bytes, after: Bytes)
    requires Harmless(t) && after != [] && after[0] != 0x4F
    ensures Passes(sum, t, after)
  {
    forall i: nat | i < |t| ensures Look(sum, t[i..] + after) == Skip(t[i..] + after) {
      if StartsAt(t, i) {
        TooLongIsSkipped(sum, t, i, after);
      } else {
        var s := t[i..] + after;
        assert s[1] == if i + 1 < |t| then t[i + 1] else after[0];
      }
    }
  }

  /** What stays undecided at the end of harmless text: a final 'T'. */
  function Held(t: Bytes): Bytes {
    if t != [] && t[|t| - 1] == 0x54 then [0x54] else []
  }

  /** What comes out at once. */
  function Shown(t: Bytes): Bytes {
    t[..|t| - |Held(t)|]
  }

  lemma ClosingTextComesOut(sum: Sum, t: Bytes)
    requires Harmless(t)
    ensures Scan(sum, t) == Run(TextItems(Shown(t)), Open((), Held(t)))
  {
    var rest, shown := Held(t), Shown(t);
    assert shown + rest == t;
    forall i: nat | i < |shown| ensures Look(sum, shown[i..] + rest) == Skip(shown[i..] + rest) {
      assert shown[i..] + rest == t[i..] + [];
      if StartsAt(t, i) {
        TooLongIsSkipped(sum, t, i, []);
      }
    }
    ScanText(sum, shown, rest);
    ScanWaits(sum, rest);
    assert TextItems(shown) + [] == TextItems(shown);
  }

  predicate AllHarmless(bursts: seq<Burst>) {
    forall i :: 0 <= i < |bursts| ==> Harmless(bursts[i].text)
  }

  lemma {:induction false} HarmlessTextsPass(sum: Sum, bursts: seq<Burst>, more: Bytes)
    requires Sendable(bursts) && AllHarmless(bursts)
    ensures TextsPass(sum, bursts, more)
  {
    if bursts != [] {
      HarmlessPasses(sum, bursts[0].text, Wire(sum, bursts[0].frame) + Stream(sum, bursts[1..], more));
      HarmlessTextsPass(sum, bursts[1..], more);
    }
  }

  /** Harmless texts around any frames, and one behind the last, come out whole; only a 'T' at the very end
      waits for the byte after it. */
  lemma StreamRoundTrip(sum: Sum, bursts: seq<Burst>, closing: Bytes)
    requires Sendable(bursts) && AllHarmless(bursts) && Harmless(closing)
    ensures Scan(sum, Stream(sum, bursts, closing)) ==
            Run(SentItems(sum, bursts) + TextItems(Shown(closing)), Open((), Held(closing)))
  {
    HarmlessTextsPass(sum, bursts, closing);
    PassingTextsComeOut(sum, bursts, closing);
    ClosingTextComesOut(sum, closing);
  }

  /** Text that ends in "TO" right before a short frame is not harmless: the frame's own fields are read as the
      length of a longer one, and everything waits. */
  lemma TextEndingInStartWaits(sum: Sum, dest: Byte, kind: Byte)
    requires 1 <= kind <= 15
    ensures
      var bursts := [Burst([0x54, 0x4F], Request(dest, kind, []))];
      var stream := Stream(sum, bursts, []);
      && Scan(sum, stream) == Run([], Open((), stream))
      && !TextsPass(sum, bursts, [])
  {
    var f := Request(dest, kind, []);
    var bursts := [Burst([0x54, 0x4F], f)];
    var stream := Stream(sum, bursts, []);
    assert bursts[1..] == [] && Stream(sum, [], []) == [];
    assert stream == [0x54, 0x4F] + Wire(sum, f);
    HeaderParts(f);
    assert stream[2] == 0x54 && stream[5..9] == [dest, kind, 0, 0];
    ScanWaits(sum, stream);
    StreamRoundTripExactlyWhen(sum, bursts, []);
  }
}
