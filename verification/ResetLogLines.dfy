/** Which lines of a reset log say what, in any form they may have, and what a whole text then holds. */
module ResetLogLines {
  import opened Options
  import opened Seqs
  import opened ResetLogText

  // --------------------------------------------------------------------------
  // Numbers
  // --------------------------------------------------------------------------

  predicate AllDigits(text: string) {
    text != "" && forall i :: 0 <= i < |text| ==> Digit(text[i])
  }

  /** The value of decimal digits, leading zeros allowed. */
  function Positional(text: string): nat
    requires forall i :: 0 <= i < |text| ==> Digit(text[i])
  {
    if text == "" then 0
    else
      var c := text[|text| - 1];
      assert Digit(c);
      10 * Positional(text[..|text| - 1]) + (c as nat - '0' as nat)
  }

  predicate IsU32(text: string, n: int) {
    AllDigits(text) && Positional(text) == n && n <= UINT32_MAX
  }

  /** With a sign, and not the most negative number. */
  predicate IsI32(text: string, n: int) {
    if text != "" && text[0] == '-' then IsU32(text[1..], -n) && -n <= INT32_MAX else IsU32(text, n) && n <= INT32_MAX
  }

  lemma {:induction false} PositionalGrows(p: string, q: string)
    requires forall i :: 0 <= i < |p + q| ==> Digit((p + q)[i])
    requires forall i :: 0 <= i < |p| ==> Digit(p[i])
    ensures Positional(p + q) >= Positional(p)
    decreases |q|
  {
    if q == "" {
      assert p + q == p;
    } else {
      var n := |q| - 1;
      assert (p + q)[..|p + q| - 1] == p + q[..n];
      PositionalGrows(p, q[..n]);
    }
  }

  lemma PositionalStep(p: string, c: char)
    requires (forall i :: 0 <= i < |p| ==> Digit(p[i])) && Digit(c)
    ensures forall i :: 0 <= i < |p + [c]| ==> Digit((p + [c])[i])
    ensures Positional(p + [c]) == 10 * Positional(p) + (c as nat - '0' as nat)
  {
    assert (p + [c])[..|p|] == p;
  }

  /** Reading goes on after the digits so far exactly as long as the whole number fits. */
  lemma {:induction false} DigitsExactlyWhen(p: string, text: string, n: nat)
    requires (forall i :: 0 <= i < |p| ==> Digit(p[i])) && Positional(p) <= UINT32_MAX
    ensures ReadDigits(text, Positional(p)) == Some(n) <==>
            (forall i :: 0 <= i < |text| ==> Digit(text[i])) && DigitsSay(p + text, n)
    decreases |text|
  {
    if text == "" {
      assert p + text == p;
    } else {
      var (c, rest) := (text[0], text[1..]);
      assert p + text == (p + [c]) + rest;
      if Digit(c) {
        PositionalStep(p, c);
        if Positional(p + [c]) <= UINT32_MAX {
          DigitsExactlyWhen(p + [c], rest, n);
        } else if forall i :: 0 <= i < |text| ==> Digit(text[i]) {
          PositionalGrows(p + [c], rest);
        }
      }
    }
  }

  predicate DigitsSay(text: string, n: nat) {
    (forall i :: 0 <= i < |text| ==> Digit(text[i])) && Positional(text) == n && n <= UINT32_MAX
  }

  /** A number is taken exactly when it is decimal digits whose value fits 32 bits. */
  lemma U32ExactlyWhen(text: string, n: nat)
    ensures ReadU32(text) == Some(n) <==> IsU32(text, n)
  {
    if text != "" {
      DigitsExactlyWhen("", text, n);
      assert "" + text == text;
    }
  }

  lemma I32ExactlyWhen(text: string, n: int)
    ensures ReadInt(text) == Some(n) <==> IsI32(text, n)
  {
    var digits := if text != "" && text[0] == '-' then text[1..] else text;
    if ReadU32(digits).Some? {
      U32ExactlyWhen(digits, ReadU32(digits).value);
    }
    if n >= 0 {
      U32ExactlyWhen(digits, n);
    }
    if n <= 0 {
      U32ExactlyWhen(digits, -n);
    }
  }

  // --------------------------------------------------------------------------
  // Entries
  // --------------------------------------------------------------------------

  /** The fields of an entry, with everything behind the last comma in `last`. */
  predicate HasFields(value: string, e: Entry, b: string, r: string, a: string, n: nat, last: string) {
    && value == Comma(b, Comma(r, Comma(a, last)))
    && IsU32(b, e.boot) && IsI32(r, e.reason) && IsU32(a, n) && e.abnormal == (n != 0)
  }

  /** The present form: the slot, and then the name, which may hold commas. */
  ghost predicate IsEntry(value: string, e: Entry) {
    exists b, r, a, n: nat :: ',' !in e.slot && HasFields(value, e, b, r, a, n, Comma(e.slot, e.name))
  }

  /** A name with the label of a slot in parentheses behind it, or one without. */
  ghost predicate NameAndSlot(text: string, name: string, slot: string) {
    if exists nm, s :: Labelled(text, nm, s) then Labelled(text, name, slot) else name == text && slot == ""
  }

  predicate Labelled(text: string, name: string, slot: string) {
    Label(slot) && text == LegacyText(name, slot)
  }

  /** The older form. */
  ghost predicate IsOldEntry(value: string, e: Entry) {
    exists b, r, a, n: nat, text :: NameAndSlot(text, e.name, e.slot) && HasFields(value, e, b, r, a, n, text)
  }

  lemma CutExactlyWhen(s: string, p: string, rest: string)
    ensures CutAtComma(s) == Some((p, rest)) <==> ',' !in p && s == Comma(p, rest)
  {
    if ',' !in p && s == Comma(p, rest) {
      CutComma(p, rest);
    }
    var i := Find(s, ',');
    if i < |s| {
      assert s == Comma(s[..i], s[i + 1..]);
    }
  }

  lemma DigitsHaveNoComma(text: string, n: int)
    ensures IsU32(text, n) || IsI32(text, n) ==> ',' !in text
  {
    if IsI32(text, n) && text[0] == '-' {
      assert text == ['-'] + text[1..];
    }
  }

  /** An entry is assembled exactly from fields that say it. */
  lemma AssembledExactlyWhen(b: string, r: string, a: string, slot: string, name: string, e: Entry)
    ensures Assemble(b, r, a, slot, name) == Some(e) <==>
            && e.slot == slot && e.name == name && IsU32(b, e.boot) && IsI32(r, e.reason)
            && exists n: nat :: IsU32(a, n) && e.abnormal == (n != 0)
  {
    U32ExactlyWhen(b, e.boot);
    I32ExactlyWhen(r, e.reason);
    if ReadU32(a).Some? {
      U32ExactlyWhen(a, ReadU32(a).value);
    }
    if n: nat :| IsU32(a, n) {
      U32ExactlyWhen(a, n);
    }
  }

  lemma EntryFields(value: string, e: Entry)
    requires ReadEntry(value, true) == Some(e)
    ensures IsEntry(value, e)
  {
    var (b, v1) := CutAtComma(value).value;
    var (r, v2) := CutAtComma(v1).value;
    var (a, v3) := CutAtComma(v2).value;
    var (slot, name) := CutAtComma(v3).value;
    CutExactlyWhen(value, b, v1);
    CutExactlyWhen(v1, r, v2);
    CutExactlyWhen(v2, a, v3);
    CutExactlyWhen(v3, slot, name);
    AssembledExactlyWhen(b, r, a, slot, name, e);
    var n: nat :| IsU32(a, n) && e.abnormal == (n != 0);
    assert HasFields(value, e, b, r, a, n, Comma(e.slot, e.name));
  }

  /** A value is an entry of the present form exactly when its fields say so. */
  lemma EntryExactlyWhen(value: string, e: Entry)
    ensures ReadEntry(value, true) == Some(e) <==> IsEntry(value, e)
  {
    if ReadEntry(value, true) == Some(e) {
      EntryFields(value, e);
    }
    if IsEntry(value, e) {
      var b, r, a, n: nat :| ',' !in e.slot && HasFields(value, e, b, r, a, n, Comma(e.slot, e.name));
      DigitsHaveNoComma(b, e.boot);
      DigitsHaveNoComma(r, e.reason);
      DigitsHaveNoComma(a, n);
      FieldsReadBack(b, r, a, e.slot, e.name);
      AssembledExactlyWhen(b, r, a, e.slot, e.name, e);
    }
  }

  lemma {:induction false} LastOpenFinds(s: string, i: nat)
    requires i < |s| && LastOpen(s, i).Some?
    ensures
      var k := LastOpen(s, i).value;
      k <= i && k + 1 < |s| && s[k] == ' ' && s[k + 1] == '('
  {
    if !(i + 1 < |s| && s[i] == ' ' && s[i + 1] == '(') {
      LastOpenFinds(s, i - 1);
    }
  }

  /** The name and the slot of the older form are the only ones the text can stand for. */
  lemma LegacyExactlyWhen(text: string, name: string, slot: string)
    ensures LegacyName(text) == (name, slot) <==> NameAndSlot(text, name, slot)
  {
    if nm, s :| Labelled(text, nm, s) {
      LegacyNameReads(nm, s);
      if Labelled(text, name, slot) {
        LegacyNameReads(name, slot);
      }
    } else if LegacyName(text) != (text, "") {
      LastOpenFinds(text, |text| - 1);
      var (nm, s) := LegacyName(text);
      assert text == LegacyText(nm, s);
      assert Labelled(text, nm, s);
    }
  }

  lemma OldEntryFields(value: string, e: Entry)
    requires ReadEntry(value, false) == Some(e)
    ensures IsOldEntry(value, e)
  {
    var (b, v1) := CutAtComma(value).value;
    var (r, v2) := CutAtComma(v1).value;
    var (a, text) := CutAtComma(v2).value;
    CutExactlyWhen(value, b, v1);
    CutExactlyWhen(v1, r, v2);
    CutExactlyWhen(v2, a, text);
    LegacyExactlyWhen(text, e.name, e.slot);
    AssembledExactlyWhen(b, r, a, e.slot, e.name, e);
    var n: nat :| IsU32(a, n) && e.abnormal == (n != 0);
    assert HasFields(value, e, b, r, a, n, text);
  }

  /** A value is an entry of the older form exactly when its fields say so. */
  lemma OldEntryExactlyWhen(value: string, e: Entry)
    ensures ReadEntry(value, false) == Some(e) <==> IsOldEntry(value, e)
  {
    if ReadEntry(value, false) == Some(e) {
      OldEntryFields(value, e);
    }
    if IsOldEntry(value, e) {
      var b, r, a, n: nat, text :| NameAndSlot(text, e.name, e.slot) && HasFields(value, e, b, r, a, n, text);
      DigitsHaveNoComma(b, e.boot);
      DigitsHaveNoComma(r, e.reason);
      DigitsHaveNoComma(a, n);
      LegacyExactlyWhen(text, e.name, e.slot);
      LegacyFieldsReadBack(b, r, a, text);
      AssembledExactlyWhen(b, r, a, e.slot, e.name, e);
    }
  }

  // --------------------------------------------------------------------------
  // Lines
  // --------------------------------------------------------------------------

  /** The text of a line: one carriage return at its end does not belong to it. */
  function Body(line: string): string {
    if line != "" && line[|line| - 1] == '\r' then line[..|line| - 1] else line
  }

  /** What a line says: a counter, an entry of either form, or nothing. */
  ghost predicate Says(line: string, fact: Fact) {
    match fact
    case Counter(n) => exists v :: Body(line) == KeyValue("boot_count", v) && IsU32(v, n)
    case Logged(e) =>
      || (exists v :: Body(line) == KeyValue("entry2", v) && IsEntry(v, e))
      || (exists v :: Body(line) == KeyValue("entry", v) && IsOldEntry(v, e))
    case Nothing => false
  }

  /** The key of a text, up to its first equals sign, and the value behind. */
  predicate Keyed(text: string, key: string, v: string) {
    var i := Find(text, '=');
    i < |text| && text[..i] == key && text[i + 1..] == v
  }

  lemma KeyExactlyWhen(text: string, key: string, v: string)
    requires '=' !in key
    ensures text == KeyValue(key, v) <==> Keyed(text, key, v)
  {
    if text == KeyValue(key, v) {
      KeyValueReads(key, v);
    }
    var i := Find(text, '=');
    if i < |text| {
      assert text == text[..i] + "=" + text[i + 1..];
    }
  }

  lemma LineGoes(line: string, key: string, v: string)
    requires Keyed(Body(line), key, v)
    ensures ReadLine(line) ==
            if key == "boot_count" then (if ReadU32(v).Some? then Counter(ReadU32(v).value) else Nothing)
            else if key == "entry" || key == "entry2" then
              (if ReadEntry(v, key == "entry2").Some? then Logged(ReadEntry(v, key == "entry2").value) else Nothing)
            else Nothing
  {
  }

  lemma UnkeyedLine(line: string)
    requires Find(Body(line), '=') == |Body(line)|
    ensures ReadLine(line) == Nothing
  {
  }

  lemma CounterRead(line: string, n: nat)
    requires ReadLine(line) == Counter(n)
    ensures Says(line, Counter(n))
  {
    var text := Body(line);
    var i := Find(text, '=');
    if i == |text| {
      UnkeyedLine(line);
    } else {
      var v := text[i + 1..];
      LineGoes(line, text[..i], v);
      U32ExactlyWhen(v, n);
      KeyExactlyWhen(text, "boot_count", v);
    }
  }

  lemma LoggedRead(line: string, e: Entry)
    requires ReadLine(line) == Logged(e)
    ensures Says(line, Logged(e))
  {
    var text := Body(line);
    var i := Find(text, '=');
    if i == |text| {
      UnkeyedLine(line);
    } else {
      var v := text[i + 1..];
      LineGoes(line, text[..i], v);
      if text[..i] == "entry2" {
        EntryExactlyWhen(v, e);
        KeyExactlyWhen(text, "entry2", v);
      } else {
        OldEntryExactlyWhen(v, e);
        KeyExactlyWhen(text, "entry", v);
      }
    }
  }

  lemma SaidIsRead(line: string, fact: Fact)
    requires Says(line, fact)
    ensures ReadLine(line) == fact
  {
    var text := Body(line);
    match fact
    case Counter(n) =>
      var v :| text == KeyValue("boot_count", v) && IsU32(v, n);
      KeyExactlyWhen(text, "boot_count", v);
      U32ExactlyWhen(v, n);
      LineGoes(line, "boot_count", v);
    case Logged(e) =>
      if v :| text == KeyValue("entry2", v) && IsEntry(v, e) {
        KeyExactlyWhen(text, "entry2", v);
        EntryExactlyWhen(v, e);
        LineGoes(line, "entry2", v);
      } else {
        var v :| text == KeyValue("entry", v) && IsOldEntry(v, e);
        KeyExactlyWhen(text, "entry", v);
        OldEntryExactlyWhen(v, e);
        LineGoes(line, "entry", v);
      }
  }

  /** A line is read as a counter or an entry exactly when it says that, and otherwise as nothing. */
  lemma LineExactlyWhen(line: string, fact: Fact)
    requires fact != Nothing
    ensures ReadLine(line) == fact <==> Says(line, fact)
  {
    if ReadLine(line) == fact {
      match fact
      case Counter(n) => CounterRead(line, n);
      case Logged(e) => LoggedRead(line, e);
    }
    if Says(line, fact) {
      SaidIsRead(line, fact);
    }
  }

  // --------------------------------------------------------------------------
  // Whole texts
  // --------------------------------------------------------------------------

  /** These lines, each with its line break. */
  function JoinLines(lines: seq<string>): string {
    if lines == [] then "" else lines[0] + ("\n" + JoinLines(lines[1..]))
  }

  /** The line break that a text lacks at its end. */
  function Missing(text: string): string {
    if text == "" || text[|text| - 1] == '\n' then "" else "\n"
  }

  lemma CutAtBreak(text: string, i: nat)
    requires i < |text| && text[i] == '\n'
    ensures text == text[..i] + ("\n" + text[i + 1..])
    ensures Missing(text) == Missing(text[i + 1..])
  {
    var rest := text[i + 1..];
    if rest != "" {
      assert rest[|rest| - 1] == text[|text| - 1];
    }
  }

  lemma FirstLine(text: string, i: nat)
    requires text != "" && i == Find(text, '\n')
    ensures i < |text| ==> Lines(text) == [text[..i]] + Lines(text[i + 1..])
    ensures i == |text| ==> Lines(text) == [text] && Missing(text) == "\n"
  {
    if i == |text| {
      assert text[..i] == text && text[i..] == "";
    }
  }

  /** A text is split into lines at its line breaks, and nowhere else; the last one may be missing. */
  lemma {:induction false} LinesOfText(text: string)
    ensures forall i :: 0 <= i < |Lines(text)| ==> '\n' !in Lines(text)[i]
    ensures JoinLines(Lines(text)) == text + Missing(text)
    decreases |text|
  {
    if text != "" {
      var i := Find(text, '\n');
      FirstLine(text, i);
      if i < |text| {
        var line, rest := text[..i], text[i + 1..];
        CutAtBreak(text, i);
        LinesOfText(rest);
        assert Lines(text)[1..] == Lines(rest);
        ConcatAssociates("\n", rest, Missing(rest));
        ConcatAssociates(line, "\n" + rest, Missing(rest));
      } else {
        assert Lines(text)[1..] == [];
        assert "\n" + "" == "\n";
      }
    }
  }

  /** The entries among what the lines say, in order. */
  function EntriesOf(facts: seq<Fact>): seq<Entry> {
    if facts == [] then []
    else (if facts[0].Logged? then [facts[0].e] else []) + EntriesOf(facts[1..])
  }

  /** The last counter among what the lines say, or the one before. */
  function CounterOf(facts: seq<Fact>, before: nat): nat {
    if facts == [] then before
    else if facts[|facts| - 1].Counter? then facts[|facts| - 1].n
    else CounterOf(facts[..|facts| - 1], before)
  }

  lemma {:induction false} CounterInFront(fact: Fact, facts: seq<Fact>, before: nat)
    ensures CounterOf([fact] + facts, before) == CounterOf(facts, if fact.Counter? then fact.n else before)
    decreases |facts|
  {
    if facts == [] {
      assert ([fact] + facts)[..0] == [];
    } else {
      var n := |facts| - 1;
      assert ([fact] + facts)[..n + 1] == [fact] + facts[..n];
      CounterInFront(fact, facts[..n], before);
    }
  }

  lemma {:induction false} FactsAdded(log: Log, facts: seq<Fact>)
    ensures AddAll(log, facts) == Log(CounterOf(facts, log.bootCount), log.entries + EntriesOf(facts))
    decreases |facts|
  {
    if facts == [] {
      assert log.entries + [] == log.entries;
    } else {
      FactsAdded(Add(log, facts[0]), facts[1..]);
      assert [facts[0]] + facts[1..] == facts;
      CounterInFront(facts[0], facts[1..], log.bootCount);
      if facts[0].Logged? {
        ConcatAssociates(log.entries, [facts[0].e], EntriesOf(facts[1..]));
      } else {
        assert [] + EntriesOf(facts[1..]) == EntriesOf(facts[1..]);
      }
    }
  }

  /** A load finds the counter that the last counter line of the text says, zero when there is none, and the newest
      of the entries its lines say, in their order; lines that say nothing leave no trace. */
  lemma TextHolds(text: string, max: nat)
    ensures
      var facts := Facts(ReadLine, Lines(text));
      LoadText(text, max) == Log(CounterOf(facts, 0), Newest(EntriesOf(facts), max))
    ensures forall i, fact :: 0 <= i < |Lines(text)| && fact != Nothing ==>
              (Facts(ReadLine, Lines(text))[i] == fact <==> Says(Lines(text)[i], fact))
  {
    var facts := Facts(ReadLine, Lines(text));
    FactsAdded(EMPTY_LOG, facts);
    assert [] + EntriesOf(facts) == EntriesOf(facts);
    forall i, fact | 0 <= i < |Lines(text)| && fact != Nothing
      ensures facts[i] == fact <==> Says(Lines(text)[i], fact)
    {
      LineExactlyWhen(Lines(text)[i], fact);
    }
  }
}
