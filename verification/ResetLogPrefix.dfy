/** What a load makes of a log text that was cut short: the text of a first boot, up to any point. */
module ResetLogPrefix {
  import opened Options
  import opened Seqs
  import opened ResetLogText

  const COUNTER_LINE: string := "boot_count=1"

  // --------------------------------------------------------------------------
  // Cut inside the counter line
  // --------------------------------------------------------------------------

  lemma CounterLineText()
    ensures COUNTER_LINE == KeyValue("boot_count", Decimal(1))
    ensures ReadLine(COUNTER_LINE) == Counter(1) && '\n' !in COUNTER_LINE
  {
    assert Decimal(1) == "1";
    CounterLineReads(1);
  }

  lemma LinesOne(p: string)
    requires p != "" && '\n' !in p
    ensures Lines(p) == [p]
  {
    assert Find(p, '\n') == |p|;
    assert p[..|p|] == p && p[|p|..] == "";
  }

  lemma ReadOneLine(p: string)
    requires p != "" && '\n' !in p
    ensures ReadText(p) == Add(EMPTY_LOG, ReadLine(p))
  {
    LinesOne(p);
    AddAllStep(ReadLine, EMPTY_LOG, p, []);
    assert [p] + [] == [p];
  }

  lemma KeyPrefixSaysNothing(p: string)
    requires '=' !in p && '\r' !in p
    ensures ReadLine(p) == Nothing
  {
    assert WithoutCR(p) == p;
    assert Find(p, '=') == |p|;
  }

  lemma CounterCutSaysNothing(n: nat)
    requires n < |COUNTER_LINE|
    ensures ReadLine(COUNTER_LINE[..n]) == Nothing && '\n' !in COUNTER_LINE[..n]
  {
    var p := COUNTER_LINE[..n];
    if n <= 10 {
      assert COUNTER_LINE[..10] == "boot_count";
      assert p == COUNTER_LINE[..10][..n];
      KeyPrefixSaysNothing(p);
    } else {
      assert p == KeyValue("boot_count", "");
      KeyValueReads("boot_count", "");
    }
  }

  // --------------------------------------------------------------------------
  // Cut inside the entry line
  // --------------------------------------------------------------------------

  lemma CutPrefix(p: string, rest: string, m: nat)
    requires ',' !in p && m <= |Comma(p, rest)|
    ensures CutAtComma(Comma(p, rest)[..m]) == if m > |p| then Some((p, rest[..m - |p| - 1])) else None
  {
    var s := Comma(p, rest)[..m];
    if m > |p| {
      var tail := rest[..m - |p| - 1];
      assert s == p + "," + tail;
      CutComma(p, tail);
    } else {
      assert s == p[..m];
      assert Find(s, ',') == |s|;
    }
  }

  /** What follows n commas, if there are that many. */
  function AfterCommas(s: string, n: nat): Option<string> {
    if n == 0 then Some(s)
    else
      var c := CutAtComma(s);
      if c.None? then None else AfterCommas(c.value.1, n - 1)
  }

  /** An entry that is read has the name that follows four commas. */
  lemma EntryName(v: string)
    requires ReadEntry(v, true).Some?
    ensures AfterCommas(v, 4) == Some(ReadEntry(v, true).value.name)
  {
    var r1 := CutAtComma(v).value.1;
    var r2 := CutAtComma(r1).value.1;
    var r3 := CutAtComma(r2).value.1;
    var r4 := CutAtComma(r3).value.1;
    assert AfterCommas(r4, 0) == Some(r4);
    assert AfterCommas(r3, 1) == Some(r4);
    assert AfterCommas(r2, 2) == Some(r4);
    assert AfterCommas(r1, 3) == Some(r4);
  }

  lemma CutAfterCommas(p: string, rest: string, m: nat, n: nat)
    requires ',' !in p && m <= |Comma(p, rest)| && n > 0
    ensures AfterCommas(Comma(p, rest)[..m], n) == if m > |p| then AfterCommas(rest[..m - |p| - 1], n - 1) else None
  {
    CutPrefix(p, rest, m);
  }

  /** Fields, each with a comma, and then a name. */
  function Fielded(fields: seq<string>, name: string): string {
    if fields == [] then name else Comma(fields[0], Fielded(fields[1..], name))
  }

  /** A value that stops before its end has no name, or a shorter one. */
  lemma {:induction false} NameCutShort(fields: seq<string>, name: string, m: nat)
    requires forall f :: f in fields ==> ',' !in f
    requires m < |Fielded(fields, name)|
    ensures
      var kept := AfterCommas(Fielded(fields, name)[..m], |fields|);
      kept.Some? ==> |kept.value| < |name|
  {
    if fields != [] {
      assert fields[0] in fields;
      var rest := Fielded(fields[1..], name);
      CutAfterCommas(fields[0], rest, m, |fields|);
      if m > |fields[0]| {
        NameCutShort(fields[1..], name, m - |fields[0]| - 1);
      }
    }
  }

  lemma ValueIsFielded(e: Entry)
    ensures EntryValue(e) == Fielded([Decimal(e.boot), FormatInt(e.reason), Flag(e.abnormal), Cleaned(e.slot)], e.name)
  {
    var b, r, a, slot := Decimal(e.boot), FormatInt(e.reason), Flag(e.abnormal), Cleaned(e.slot);
    assert [b, r, a, slot][1..] == [r, a, slot] && [r, a, slot][1..] == [a, slot];
    assert [a, slot][1..] == [slot] && [slot][1..] == [];
    assert Fielded([], e.name) == e.name;
    assert Fielded([slot], e.name) == Comma(slot, e.name);
    assert Fielded([a, slot], e.name) == Comma(a, Comma(slot, e.name));
    assert Fielded([r, a, slot], e.name) == Comma(r, Comma(a, Comma(slot, e.name)));
  }

  lemma ValueCutShort(e: Entry, m: nat)
    requires m < |EntryValue(e)|
    ensures ReadEntry(EntryValue(e)[..m], true) != Some(e)
  {
    NumbersHaveNo(e.boot, e.reason, ',');
    CleanedIsClean(e.slot);
    ValueIsFielded(e);
    NameCutShort([Decimal(e.boot), FormatInt(e.reason), Flag(e.abnormal), Cleaned(e.slot)], e.name, m);
    if ReadEntry(EntryValue(e)[..m], true).Some? {
      EntryName(EntryValue(e)[..m]);
    }
  }

  /** A line that stops before its end says neither the entry nor a counter. */
  lemma EntryLineCutShort(e: Entry, k: nat)
    requires k < |KeyValue("entry2", EntryValue(e))|
    ensures
      var fact := ReadLine(KeyValue("entry2", EntryValue(e))[..k]);
      fact != Logged(e) && !fact.Counter?
  {
    var v := EntryValue(e);
    var p := KeyValue("entry2", v)[..k];
    if k <= 6 {
      assert p == "entry2"[..k];
      KeyPrefixSaysNothing(p);
    } else {
      assert p == KeyValue("entry2", v[..k - 7]);
      ValueCutLine(e, k - 7);
    }
  }

  lemma ValueCutLine(e: Entry, m: nat)
    requires m < |EntryValue(e)|
    ensures
      var fact := ReadLine(KeyValue("entry2", EntryValue(e)[..m]));
      fact != Logged(e) && !fact.Counter?
  {
    var cut := EntryValue(e)[..m];
    var kept := WithoutCR(cut);
    KeyValueReads("entry2", cut);
    KeyValueReads("entry2", kept);
    assert kept == EntryValue(e)[..|kept|];
    ValueCutShort(e, |kept|);
  }

  // --------------------------------------------------------------------------
  // The text of a first boot
  // --------------------------------------------------------------------------

  function FirstText(e: Entry): string {
    SaveText(Log(1, [e]))
  }

  function FirstLine(e: Entry): string {
    KeyValue("entry2", EntryValue(e))
  }

  lemma FirstTextParts(e: Entry)
    ensures FirstText(e) == COUNTER_LINE + "\n" + (FirstLine(e) + "\n")
  {
    CounterLineText();
    FlatMapOne(EntryLine, e);
  }

  /** The text up to a point in the entry line is read as the counter and what that part says. */
  lemma CutInEntryLine(e: Entry, k: nat)
    requires Faithful(e) && k <= |FirstLine(e)|
    ensures
      var read := ReadText(COUNTER_LINE + "\n" + FirstLine(e)[..k]);
      read == if k == 0 then Log(1, []) else Add(Log(1, []), ReadLine(FirstLine(e)[..k]))
  {
    var p := FirstLine(e)[..k];
    CounterLineText();
    NoBreakInLine(e);
    LinesStep(COUNTER_LINE, p);
    AddAllStep(ReadLine, EMPTY_LOG, COUNTER_LINE, Lines(p));
    if k > 0 {
      LinesOne(p);
      AddAllStep(ReadLine, Log(1, []), p, []);
      assert [p] + [] == [p];
    } else {
      assert p == "";
    }
  }

  /** Where a cut makes the text say something that never was: behind the counter, before the end of the name. */
  predicate Misleading(e: Entry, n: nat) {
    |COUNTER_LINE| <= n < |FirstText(e)| - 1
  }

  lemma CutText(e: Entry, n: nat)
    requires n <= |COUNTER_LINE|
    ensures n < |FirstText(e)| && FirstText(e)[..n] == COUNTER_LINE[..n]
  {
    FirstTextParts(e);
  }

  lemma ReadCounterCut(n: nat)
    requires n <= |COUNTER_LINE|
    ensures ReadText(COUNTER_LINE[..n]) == if n < |COUNTER_LINE| then EMPTY_LOG else Log(1, [])
  {
    var p := COUNTER_LINE[..n];
    if n == |COUNTER_LINE| {
      CounterLineText();
      assert p == COUNTER_LINE;
      ReadOneLine(p);
    } else if n > 0 {
      CounterCutSaysNothing(n);
      ReadOneLine(p);
    }
  }

  lemma CutBeforeEntry(e: Entry, n: nat)
    requires n <= |COUNTER_LINE|
    ensures n < |FirstText(e)|
    ensures ReadText(FirstText(e)[..n]) == if n < |COUNTER_LINE| then EMPTY_LOG else Log(1, [])
  {
    CutText(e, n);
    ReadCounterCut(n);
  }

  lemma CutBehindCounter(e: Entry, n: nat)
    requires Recordable(e) && Faithful(e)
    requires |COUNTER_LINE| < n < |FirstText(e)|
    ensures (ReadText(FirstText(e)[..n]) == Log(1, [e])) == (n == |FirstText(e)| - 1)
    ensures ReadText(FirstText(e)[..n]).bootCount == 1
  {
    FirstTextParts(e);
    var k := n - |COUNTER_LINE| - 1;
    assert FirstText(e)[..n] == COUNTER_LINE + "\n" + FirstLine(e)[..k];
    CutInEntryLine(e, k);
    if k == |FirstLine(e)| {
      assert FirstLine(e)[..k] == FirstLine(e);
      EntryLineReads(e);
      CleanedSlotIsSlot(e);
    } else if k > 0 {
      EntryLineCutShort(e, k);
    }
  }

  lemma CleanedSlotIsSlot(e: Entry)
    requires Faithful(e)
    ensures Cleaned(e.slot) == e.slot && WithoutCR(e.name) == e.name
  {
    CleanedIsClean(e.slot);
  }

  /** A load of the text cut after n characters finds nothing, or all of it, or, exactly when the cut lies
      behind the counter and before the end of the name, a log that never was. */
  lemma CutLoads(e: Entry, n: nat, max: nat)
    requires e.boot == 1 && Recordable(e) && Faithful(e) && max > 0
    requires n <= |FirstText(e)|
    ensures LoadText(FirstText(e)[..n], max) in {EMPTY_LOG, Log(1, [e])} <==> !Misleading(e, n)
    ensures n < |COUNTER_LINE| ==> LoadText(FirstText(e)[..n], max) == EMPTY_LOG
    ensures n >= |FirstText(e)| - 1 ==> LoadText(FirstText(e)[..n], max) == Log(1, [e])
  {
    FirstTextParts(e);
    if n <= |COUNTER_LINE| {
      CutBeforeEntry(e, n);
    } else if n < |FirstText(e)| {
      CutBehindCounter(e, n);
      AtMostOneEntry(e, n);
    } else {
      assert FirstText(e)[..n] == FirstText(e);
      LogRoundTrip(Log(1, [e]), max);
    }
  }

  lemma CounterText()
    ensures SaveText(Log(1, [])) == COUNTER_LINE + "\n"
  {
    CounterLineText();
  }

  /** A log that keeps no entries has nothing to mislead with: its text is the counter line alone. */
  lemma CounterOnlyLoads(n: nat)
    requires n <= |SaveText(Log(1, []))|
    ensures LoadText(SaveText(Log(1, []))[..n], 0) in {EMPTY_LOG, Log(1, [])}
  {
    var text := SaveText(Log(1, []));
    CounterText();
    if n <= |COUNTER_LINE| {
      assert text[..n] == COUNTER_LINE[..n];
      ReadCounterCut(n);
    } else {
      assert text[..n] == text;
      LogRoundTrip(Log(1, []), 0);
    }
  }

  lemma AtMostOneEntry(e: Entry, n: nat)
    requires Faithful(e) && |COUNTER_LINE| < n < |FirstText(e)|
    ensures |ReadText(FirstText(e)[..n]).entries| <= 1
  {
    FirstTextParts(e);
    var k := n - |COUNTER_LINE| - 1;
    assert FirstText(e)[..n] == COUNTER_LINE + "\n" + FirstLine(e)[..k];
    CutInEntryLine(e, k);
  }
}
