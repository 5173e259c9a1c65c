/**
 The text form of the reset log: one line for the boot counter, one per entry, and the
 tolerant parser that reads it back.
 */
module ResetLogText {
  import opened Options
  import opened Seqs

  const UINT32_MAX: nat := 0xFFFF_FFFF
  const INT32_MAX: nat := 0x7FFF_FFFF
  const INT32_MIN: int := -0x8000_0000

  datatype Entry = Entry(boot: nat, reason: int, abnormal: bool, name: string, slot: string)

  datatype Log = Log(bootCount: nat, entries: seq<Entry>)

  const EMPTY_LOG := Log(0, [])

  // --------------------------------------------------------------------------
  // Numbers
  // --------------------------------------------------------------------------

  predicate Digit(c: char) {
    '0' <= c <= '9'
  }

  function DigitOf(d: nat): char
    requires d < 10
  {
    d as char + '0'
  }

  function Decimal(n: nat): string {
    if n < 10 then [DigitOf(n)] else Decimal(n / 10) + [DigitOf(n % 10)]
  }

  /** Reads digits on top of `value`, refusing to pass 32 bits. */
  function ReadDigits(text: string, value: nat): Option<nat> {
    if text == "" then Some(value)
    else if !Digit(text[0]) then None
    else
      var next := value * 10 + (text[0] as nat - '0' as nat);
      if next > UINT32_MAX then None else ReadDigits(text[1..], next)
  }

  function ReadU32(text: string): Option<nat> {
    if text == "" then None else ReadDigits(text, 0)
  }

  function ReadInt(text: string): (r: Option<int>)
    ensures r.Some? ==> -(INT32_MAX as int) <= r.value <= INT32_MAX
  {
    var negative := text != "" && text[0] == '-';
    var magnitude := ReadU32(if negative then text[1..] else text);
    if magnitude.None? || magnitude.value > INT32_MAX then None
    else Some(if negative then -(magnitude.value as int) else magnitude.value as int)
  }

  method ParseU32(text: string) returns (out: Option<nat>)
    ensures out == ReadU32(text)
  {
    if text == "" {
      return None;
    }
    var value: nat := 0;
    for i := 0 to |text|
      invariant ReadDigits(text[i..], value) == ReadDigits(text, 0)
    {
      assert text[i..][1..] == text[i + 1..];
      if !Digit(text[i]) {
        return None;
      }
      value := value * 10 + (text[i] as nat - '0' as nat);
      if value > UINT32_MAX {
        return None;
      }
    }
    out := Some(value);
  }

  function FormatInt(n: int): string {
    if n < 0 then "-" + Decimal(-n) else Decimal(n)
  }

  lemma {:induction false} DecimalDigits(n: nat)
    ensures Decimal(n) != ""
    ensures forall i :: 0 <= i < |Decimal(n)| ==> Digit(Decimal(n)[i])
  {
    if n >= 10 {
      DecimalDigits(n / 10);
    }
  }

  lemma {:induction false} ReadDecimal(n: nat, more: string)
    requires n <= UINT32_MAX
    ensures ReadDigits(Decimal(n) + more, 0) == ReadDigits(more, n)
  {
    if n < 10 {
      assert (Decimal(n) + more)[1..] == more;
    } else {
      var last := [DigitOf(n % 10)];
      assert Decimal(n) + more == Decimal(n / 10) + (last + more);
      ReadDecimal(n / 10, last + more);
      assert (last + more)[1..] == more;
    }
  }

  lemma U32TextRoundTrip(n: nat)
    requires n <= UINT32_MAX
    ensures ReadU32(Decimal(n)) == Some(n)
  {
    DecimalDigits(n);
    ReadDecimal(n, "");
    assert Decimal(n) + "" == Decimal(n);
  }

  /** Every 32-bit value but the most negative survives. */
  lemma IntTextRoundTrip(n: int)
    requires INT32_MIN <= n <= INT32_MAX
    ensures ReadInt(FormatInt(n)) == Some(n) <==> n != INT32_MIN
    ensures n == INT32_MIN ==> ReadInt(FormatInt(n)) == None
  {
    if n < 0 {
      assert FormatInt(n)[1..] == Decimal(-n);
      U32TextRoundTrip(-n);
    } else {
      DecimalDigits(n);
      U32TextRoundTrip(n);
    }
  }

  // --------------------------------------------------------------------------
  // Writing
  // --------------------------------------------------------------------------

  predicate Breaking(c: char) {
    c == ',' || c == '\n' || c == '\r'
  }

  /** A slot label without the characters that would break the line. */
  function Cleaned(slot: string): string {
    if slot == "" then ""
    else (if Breaking(slot[0]) then "" else [slot[0]]) + Cleaned(slot[1..])
  }

  lemma {:induction false} CleanedIsClean(slot: string)
    ensures forall c :: c in Cleaned(slot) ==> !Breaking(c)
    ensures Cleaned(slot) == slot <==> forall i :: 0 <= i < |slot| ==> !Breaking(slot[i])
    ensures |Cleaned(slot)| <= |slot|
  {
    if slot != "" {
      CleanedIsClean(slot[1..]);
      if Breaking(slot[0]) {
        assert |Cleaned(slot)| < |slot|;
      } else {
        assert slot == [slot[0]] + slot[1..];
        assert Cleaned(slot)[1..] == Cleaned(slot[1..]);
      }
    }
  }

  /** A field, a comma, and the fields after it. */
  function Comma(field: string, rest: string): string {
    field + "," + rest
  }

  function Flag(b: bool): string {
    if b then "1" else "0"
  }

  /** The name comes last, so a comma in it breaks nothing. */
  function EntryValue(e: Entry): string {
    Comma(Decimal(e.boot), Comma(FormatInt(e.reason), Comma(Flag(e.abnormal), Comma(Cleaned(e.slot), e.name))))
  }

  function KeyValue(key: string, value: string): string {
    key + "=" + value
  }

  function EntryLine(e: Entry): string {
    KeyValue("entry2", EntryValue(e)) + "\n"
  }

  function SaveText(log: Log): string {
    KeyValue("boot_count", Decimal(log.bootCount)) + "\n" + FlatMap(EntryLine, log.entries)
  }

  // --------------------------------------------------------------------------
  // Reading
  // --------------------------------------------------------------------------

  /** Position of the first `c`, or the length when there is none. */
  function Find(s: string, c: char): (i: nat)
    ensures i <= |s|
    ensures i < |s| ==> s[i] == c
    ensures forall j :: 0 <= j < i ==> s[j] != c
  {
    if s == "" || s[0] == c then 0 else 1 + Find(s[1..], c)
  }

  lemma {:induction false} FindAfter(p: string, c: char, rest: string)
    requires c !in p
    ensures Find(p + [c] + rest, c) == |p|
  {
    var s := p + [c] + rest;
    assert s[|p|] == c;
    forall j | 0 <= j < |p| ensures s[j] != c {
      assert s[j] == p[j] && p[j] in p;
    }
  }

  /** Text before and after the first comma. */
  function CutAtComma(s: string): Option<(string, string)> {
    var i := Find(s, ',');
    if i == |s| then None else Some((s[..i], s[i + 1..]))
  }

  predicate LabelChar(c: char) {
    c != ' ' && c != ',' && c != '(' && c != ')'
  }

  /** Start of the last " (" at or before `i`. */
  function LastOpen(s: string, i: nat): Option<nat>
    requires i < |s|
  {
    if i + 1 < |s| && s[i] == ' ' && s[i + 1] == '(' then Some(i)
    else if i == 0 then None
    else LastOpen(s, i - 1)
  }

  /** The older form kept the slot as a trailing " (label)" in the name. */
  function LegacyName(name: string): (string, string) {
    if |name| <= 3 || name[|name| - 1] != ')' then (name, "")
    else
      var open := LastOpen(name, |name| - 1);
      if open.None? || open.value + 3 > |name| then (name, "")
      else
        var slot := name[open.value + 2..|name| - 1];
        if slot == "" || exists i :: 0 <= i < |slot| && !LabelChar(slot[i]) then (name, "")
        else (name[..open.value], slot)
  }

  /** An entry from its fields, if they are all readable. */
  function Assemble(boot: string, reason: string, abnormal: string, slot: string, name: string): (e: Option<Entry>)
    ensures e.Some? ==> e.value.reason > INT32_MIN
  {
    var b, r, a := ReadU32(boot), ReadInt(reason), ReadU32(abnormal);
    if b.None? || r.None? || a.None? then None
    else Some(Entry(b.value, r.value, a.value != 0, name, slot))
  }

  function ReadEntry(value: string, hasSlot: bool): (e: Option<Entry>)
    ensures e.Some? ==> e.value.reason > INT32_MIN
  {
    var c1 := CutAtComma(value);
    if c1.None? then None else
    var c2 := CutAtComma(c1.value.1);
    if c2.None? then None else
    var c3 := CutAtComma(c2.value.1);
    if c3.None? then None
    else if hasSlot then
      var c4 := CutAtComma(c3.value.1);
      if c4.None? then None
      else Assemble(c1.value.0, c2.value.0, c3.value.0, c4.value.0, c4.value.1)
    else
      var (name, slot) := LegacyName(c3.value.1);
      Assemble(c1.value.0, c2.value.0, c3.value.0, slot, name)
  }

  function WithoutCR(line: string): string {
    if line != "" && line[|line| - 1] == '\r' then line[..|line| - 1] else line
  }

  /** What one line says. */
  datatype Fact = Nothing | Counter(n: nat) | Logged(e: Entry)

  /** Reads one line; no line yields the most negative reason. */
  function ReadLine(line: string): (fact: Fact)
    ensures fact.Logged? ==> fact.e.reason > INT32_MIN
  {
    var text := WithoutCR(line);
    var eq := Find(text, '=');
    if eq == |text| then Nothing
    else
      var key, value := text[..eq], text[eq + 1..];
      if key == "boot_count" then
        var n := ReadU32(value);
        if n.Some? then Counter(n.value) else Nothing
      else if key == "entry" || key == "entry2" then
        var e := ReadEntry(value, key == "entry2");
        if e.Some? then Logged(e.value) else Nothing
      else Nothing
  }

  function Add(log: Log, fact: Fact): Log {
    match fact
    case Nothing => log
    case Counter(n) => log.(bootCount := n)
    case Logged(e) => log.(entries := log.entries + [e])
  }

  function AddAll(log: Log, facts: seq<Fact>): Log
    decreases |facts|
  {
    if facts == [] then log else AddAll(Add(log, facts[0]), facts[1..])
  }

  /** The lines of a text; the last one need not end in a line break. */
  function Lines(text: string): seq<string>
    decreases |text|
  {
    if text == "" then []
    else
      var i := Find(text, '\n');
      [text[..i]] + Lines(text[if i == |text| then i else i + 1..])
  }

  function Facts(read: string -> Fact, lines: seq<string>): seq<Fact> {
    seq(|lines|, i requires 0 <= i < |lines| => read(lines[i]))
  }

  function ReadText(text: string): Log {
    AddAll(EMPTY_LOG, Facts(ReadLine, Lines(text)))
  }

  /** The newest `max` entries. */
  function Trimmed(log: Log, max: nat): Log {
    log.(entries := Newest(log.entries, max))
  }

  function LoadText(text: string, max: nat): Log {
    Trimmed(ReadText(text), max)
  }

  // --------------------------------------------------------------------------
  // Round trip
  // --------------------------------------------------------------------------

  /** Values the fields can hold on the device. */
  predicate Recordable(e: Entry) {
    e.boot <= UINT32_MAX && INT32_MIN <= e.reason <= INT32_MAX
  }

  /** Entries the text form keeps. */
  predicate Faithful(e: Entry) {
    && e.reason != INT32_MIN
    && (forall i :: 0 <= i < |e.slot| ==> !Breaking(e.slot[i]))
    && '\n' !in e.name
    && (e.name != "" ==> e.name[|e.name| - 1] != '\r')
  }

  lemma CutComma(p: string, rest: string)
    requires ',' !in p
    ensures CutAtComma(Comma(p, rest)) == Some((p, rest))
  {
    FindAfter(p, ',', rest);
    assert Comma(p, rest)[..|p|] == p;
    assert Comma(p, rest)[|p| + 1..] == rest;
  }

  lemma FieldsReadBack(b: string, r: string, a: string, slot: string, name: string)
    requires ',' !in b && ',' !in r && ',' !in a && ',' !in slot
    ensures ReadEntry(Comma(b, Comma(r, Comma(a, Comma(slot, name)))), true) == Assemble(b, r, a, slot, name)
  {
    CutComma(b, Comma(r, Comma(a, Comma(slot, name))));
    CutComma(r, Comma(a, Comma(slot, name)));
    CutComma(a, Comma(slot, name));
    CutComma(slot, name);
  }

  lemma NumbersHaveNo(n: nat, r: int, c: char)
    requires !Digit(c) && c != '-'
    ensures c !in Decimal(n) && c !in FormatInt(r)
  {
    DecimalDigits(n);
    DecimalDigits(if r < 0 then -r else r);
  }

  /** The value of an entry line is read back field by field. */
  lemma ValueRoundTrip(e: Entry)
    requires Recordable(e)
    ensures ReadEntry(EntryValue(e), true) ==
            if e.reason == INT32_MIN then None else Some(e.(slot := Cleaned(e.slot)))
  {
    NumbersHaveNo(e.boot, e.reason, ',');
    CleanedIsClean(e.slot);
    FieldsReadBack(Decimal(e.boot), FormatInt(e.reason), Flag(e.abnormal), Cleaned(e.slot), e.name);
    U32TextRoundTrip(e.boot);
    IntTextRoundTrip(e.reason);
    FlagReadsBack(e.abnormal);
  }

  function LegacyText(name: string, slot: string): string {
    name + " (" + slot + ")"
  }

  predicate Label(slot: string) {
    slot != "" && forall i :: 0 <= i < |slot| ==> LabelChar(slot[i])
  }

  lemma {:induction false} LastOpenBeforeLabel(name: string, slot: string, i: nat)
    requires Label(slot) && |name| <= i < |LegacyText(name, slot)|
    ensures LastOpen(LegacyText(name, slot), i) == Some(|name|)
    decreases i
  {
    var s := LegacyText(name, slot);
    if i > |name| {
      assert s[i] == if i == |name| + 1 then '(' else if i == |s| - 1 then ')' else slot[i - |name| - 2];
      LastOpenBeforeLabel(name, slot, i - 1);
    }
  }

  lemma LegacyNameReads(name: string, slot: string)
    requires Label(slot)
    ensures LegacyName(LegacyText(name, slot)) == (name, slot)
  {
    var s := LegacyText(name, slot);
    LastOpenBeforeLabel(name, slot, |s| - 1);
    assert s[|name| + 2..|s| - 1] == slot;
    assert s[..|name|] == name;
  }

  lemma LegacyFieldsReadBack(b: string, r: string, a: string, name: string)
    requires ',' !in b && ',' !in r && ',' !in a
    ensures ReadEntry(Comma(b, Comma(r, Comma(a, name))), false) ==
            Assemble(b, r, a, LegacyName(name).1, LegacyName(name).0)
  {
    CutComma(b, Comma(r, Comma(a, name)));
    CutComma(r, Comma(a, name));
    CutComma(a, name);
  }

  /** Entries of the older form, which kept the slot in parentheses after the name, are still read. */
  lemma LegacyRoundTrip(e: Entry)
    requires Recordable(e) && e.reason != INT32_MIN && Label(e.slot)
    ensures
      var value := Comma(Decimal(e.boot), Comma(FormatInt(e.reason), Comma(Flag(e.abnormal), LegacyText(e.name, e.slot))));
      ReadEntry(value, false) == Some(e)
  {
    NumbersHaveNo(e.boot, e.reason, ',');
    LegacyFieldsReadBack(Decimal(e.boot), FormatInt(e.reason), Flag(e.abnormal), LegacyText(e.name, e.slot));
    LegacyNameReads(e.name, e.slot);
    U32TextRoundTrip(e.boot);
    IntTextRoundTrip(e.reason);
    FlagReadsBack(e.abnormal);
  }

  lemma FlagReadsBack(b: bool)
    ensures ReadU32(Flag(b)) == Some(if b then 1 else 0)
  {
    assert Flag(b) == Decimal(if b then 1 else 0);
    U32TextRoundTrip(if b then 1 else 0);
  }

  lemma KeyValueReads(key: string, value: string)
    requires '=' !in key
    ensures
      var line := KeyValue(key, value);
      && Find(line, '=') == |key| && line[..|key|] == key && line[|key| + 1..] == value
      && WithoutCR(line) == KeyValue(key, WithoutCR(value))
  {
    var line := KeyValue(key, value);
    FindAfter(key, '=', value);
    if value == "" {
      assert line[|line| - 1] == '=';
    } else {
      assert line[|line| - 1] == value[|value| - 1];
    }
  }

  /** Reading an entry line drops one trailing carriage return from the name. */
  lemma EntryLineReads(e: Entry)
    requires Recordable(e)
    ensures ReadLine(KeyValue("entry2", EntryValue(e))) ==
            if e.reason == INT32_MIN then Nothing
            else Logged(e.(name := WithoutCR(e.name), slot := Cleaned(e.slot)))
  {
    var kept := e.(name := WithoutCR(e.name));
    NameAtEnd(e);
    KeyValueReads("entry2", EntryValue(e));
    KeyValueReads("entry2", EntryValue(kept));
    ValueRoundTrip(kept);
  }

  lemma NameAtEnd(e: Entry)
    ensures WithoutCR(EntryValue(e)) == EntryValue(e.(name := WithoutCR(e.name)))
  {
    CommaAtEnd(Cleaned(e.slot), e.name);
    CommaKeepsEnd(Flag(e.abnormal), Comma(Cleaned(e.slot), e.name));
    CommaKeepsEnd(FormatInt(e.reason), Comma(Flag(e.abnormal), Comma(Cleaned(e.slot), e.name)));
    CommaKeepsEnd(Decimal(e.boot), Comma(FormatInt(e.reason), Comma(Flag(e.abnormal), Comma(Cleaned(e.slot), e.name))));
  }

  lemma CommaKeepsEnd(p: string, rest: string)
    requires rest != ""
    ensures WithoutCR(Comma(p, rest)) == Comma(p, WithoutCR(rest))
    ensures Comma(p, rest) != ""
  {
    var s := Comma(p, rest);
    assert s[|s| - 1] == rest[|rest| - 1];
  }

  lemma CommaAtEnd(p: string, name: string)
    ensures WithoutCR(Comma(p, name)) == Comma(p, WithoutCR(name))
  {
    var s := Comma(p, name);
    assert s[|s| - 1] == if name == "" then ',' else name[|name| - 1];
  }

  lemma NoBreakInLine(e: Entry)
    requires '\n' !in e.name
    ensures '\n' !in KeyValue("entry2", EntryValue(e))
  {
    NumbersHaveNo(e.boot, e.reason, '\n');
    CleanedIsClean(e.slot);
  }

  lemma LinesStep(line: string, rest: string)
    requires '\n' !in line
    ensures Lines(line + "\n" + rest) == [line] + Lines(rest)
  {
    var text := line + "\n" + rest;
    FindAfter(line, '\n', rest);
    assert text[..|line|] == line;
    assert text[|line| + 1..] == rest;
  }

  lemma FactsStep(read: string -> Fact, line: string, lines: seq<string>)
    ensures Facts(read, [line] + lines) == [read(line)] + Facts(read, lines)
  {
  }

  lemma AddAllStep(read: string -> Fact, log: Log, line: string, lines: seq<string>)
    ensures AddAll(log, Facts(read, [line] + lines)) == AddAll(Add(log, read(line)), Facts(read, lines))
  {
    FactsStep(read, line, lines);
    assert Facts(read, [line] + lines)[1..] == Facts(read, lines);
  }

  function LoggedAll(entries: seq<Entry>): seq<Fact> {
    seq(|entries|, i requires 0 <= i < |entries| => Logged(entries[i]))
  }

  predicate AllFaithful(entries: seq<Entry>) {
    forall i :: 0 <= i < |entries| ==> Recordable(entries[i]) && Faithful(entries[i])
  }

  lemma FaithfulLineReads(e: Entry, rest: string)
    requires Recordable(e) && Faithful(e)
    ensures Facts(ReadLine, Lines(EntryLine(e) + rest)) == [Logged(e)] + Facts(ReadLine, Lines(rest))
  {
    var line := KeyValue("entry2", EntryValue(e));
    NoBreakInLine(e);
    LinesStep(line, rest);
    EntryLineReads(e);
    CleanedIsClean(e.slot);
    assert e.(name := WithoutCR(e.name), slot := Cleaned(e.slot)) == e;
    FactsStep(ReadLine, line, Lines(rest));
  }

  lemma {:induction false} EntryLinesRead(entries: seq<Entry>)
    requires AllFaithful(entries)
    ensures Facts(ReadLine, Lines(FlatMap(EntryLine, entries))) == LoggedAll(entries)
  {
    if entries != [] {
      EntryLinesRead(entries[1..]);
      FaithfulLineReads(entries[0], FlatMap(EntryLine, entries[1..]));
      assert LoggedAll(entries) == [Logged(entries[0])] + LoggedAll(entries[1..]);
    }
  }

  lemma {:induction false} AddLogged(log: Log, entries: seq<Entry>)
    ensures AddAll(log, LoggedAll(entries)) == log.(entries := log.entries + entries)
    decreases |entries|
  {
    if entries == [] {
      assert log.entries + [] == log.entries;
    } else {
      assert LoggedAll(entries)[1..] == LoggedAll(entries[1..]);
      AddLogged(log.(entries := log.entries + [entries[0]]), entries[1..]);
      assert log.entries + [entries[0]] + entries[1..] == log.entries + entries;
    }
  }

  /** Logs whose text form reads back unchanged. */
  predicate Sound(log: Log, max: nat) {
    log.bootCount <= UINT32_MAX && |log.entries| <= max && AllFaithful(log.entries)
  }

  lemma CounterLineReads(n: nat)
    requires n <= UINT32_MAX
    ensures ReadLine(KeyValue("boot_count", Decimal(n))) == Counter(n)
    ensures '\n' !in KeyValue("boot_count", Decimal(n))
  {
    NumbersHaveNo(n, 0, '\n');
    NumbersHaveNo(n, 0, '\r');
    KeyValueReads("boot_count", Decimal(n));
    assert WithoutCR(Decimal(n)) == Decimal(n);
    U32TextRoundTrip(n);
  }

  /** Parsing a saved log gives it back: the counter and every entry, names with commas and
      equals signs included. */
  lemma LogRoundTrip(log: Log, max: nat)
    requires Sound(log, max)
    ensures LoadText(SaveText(log), max) == log
  {
    var line := KeyValue("boot_count", Decimal(log.bootCount));
    var rest := FlatMap(EntryLine, log.entries);
    CounterLineReads(log.bootCount);
    LinesStep(line, rest);
    FactsStep(ReadLine, line, Lines(rest));
    EntryLinesRead(log.entries);
    var facts := [Counter(log.bootCount)] + LoggedAll(log.entries);
    assert facts[1..] == LoggedAll(log.entries);
    AddLogged(EMPTY_LOG.(bootCount := log.bootCount), log.entries);
    assert [] + log.entries == log.entries;
  }

  // --------------------------------------------------------------------------
  // Exactly which entries survive
  // --------------------------------------------------------------------------

  lemma {:induction false} AddAllKeepsEntries(log: Log, facts: seq<Fact>)
    ensures log.entries <= AddAll(log, facts).entries
    decreases |facts|
  {
    if facts != [] {
      AddAllKeepsEntries(Add(log, facts[0]), facts[1..]);
    }
  }

  lemma {:induction false} NeverLogged(log: Log, facts: seq<Fact>, e: Entry)
    requires e !in log.entries
    requires forall i :: 0 <= i < |facts| ==> facts[i] != Logged(e)
    ensures e !in AddAll(log, facts).entries
    decreases |facts|
  {
    if facts != [] {
      NeverLogged(Add(log, facts[0]), facts[1..], e);
    }
  }

  lemma NeverRead(e: Entry, lines: seq<string>)
    requires e.reason == INT32_MIN
    ensures e !in AddAll(EMPTY_LOG, Facts(ReadLine, lines)).entries
  {
    var facts := Facts(ReadLine, lines);
    forall i | 0 <= i < |facts| ensures facts[i] != Logged(e) {
      var fact := ReadLine(lines[i]);
      assert facts[i] == fact;
    }
    NeverLogged(EMPTY_LOG, facts, e);
  }

  /** The text of a log that holds nothing but `e`'s line. */
  lemma FirstEntryRead(e: Entry)
    requires Recordable(e) && e.reason != INT32_MIN
    ensures
      var name := e.name[..Find(e.name, '\n')];
      var back := ReadText(EntryLine(e)).entries;
      |back| > 0 && back[0] == e.(name := WithoutCR(name), slot := Cleaned(e.slot))
  {
    var n := Find(e.name, '\n');
    var first := e.(name := e.name[..n]);
    var line := KeyValue("entry2", EntryValue(first));
    var rest := if n == |e.name| then "" else e.name[n + 1..] + "\n";
    assert '\n' !in first.name;
    NoBreakInLine(first);
    SplitEntryLine(e, n);
    EntryLineReads(first);
    FirstLineLogged(ReadLine, line, rest, first.(name := WithoutCR(first.name), slot := Cleaned(first.slot)));
  }

  /** An entry on the first line comes first in the log. */
  lemma FirstLineLogged(read: string -> Fact, line: string, rest: string, e: Entry)
    requires '\n' !in line && read(line) == Logged(e)
    ensures
      var back := AddAll(EMPTY_LOG, Facts(read, Lines(line + "\n" + rest))).entries;
      |back| > 0 && back[0] == e
  {
    LinesStep(line, rest);
    AddAllStep(read, EMPTY_LOG, line, Lines(rest));
    AddAllKeepsEntries(Add(EMPTY_LOG, Logged(e)), Facts(read, Lines(rest)));
  }

  lemma SplitEntryLine(e: Entry, n: nat)
    requires n == Find(e.name, '\n')
    ensures EntryLine(e) == KeyValue("entry2", EntryValue(e.(name := e.name[..n]))) + "\n"
                            + (if n == |e.name| then "" else e.name[n + 1..] + "\n")
  {
    if n == |e.name| {
      assert e.name[..n] == e.name;
    } else {
      assert e.name == e.name[..n] + "\n" + e.name[n + 1..];
    }
  }

  /**
   A recorded entry survives its text form exactly when its reason is not the most negative
   integer, its slot has no comma or line break, and its name no line break and no trailing
   carriage return.
   */
  lemma EntrySurvivesExactlyWhenFaithful(e: Entry)
    requires Recordable(e)
    ensures ReadText(EntryLine(e)).entries == [e] <==> Faithful(e)
  {
    if Faithful(e) {
      EntryLinesRead([e]);
      FlatMapOne(EntryLine, e);
      AddLogged(EMPTY_LOG, [e]);
    } else if e.reason == INT32_MIN {
      NeverRead(e, Lines(EntryLine(e)));
      assert e in [e];
    } else {
      FirstEntryRead(e);
      CleanedIsClean(e.slot);
    }
  }
}
