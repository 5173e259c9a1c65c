/**
 How the reset log survives power loss: it is written to a temporary file that then replaces
 the log, and a load falls back to that file. Every file-system step is a point where the
 power may fail.
 */
module ResetLogFiles {
  import opened Options
  import opened Seqs
  import opened ResetLogText
  import opened ResetLogPrefix

  datatype Files = Files(log: Option<string>, temp: Option<string>)

  /** What the file system refuses during one save. */
  datatype Faults = Faults(open: bool, writeError: Option<nat>, close: bool, rename: bool, remove: bool, retry: bool,
                           discard: bool)

  /** This boot's reset, as it is recorded. */
  datatype ResetInfo = ResetInfo(reason: int, name: string, abnormal: bool, slot: string)

  function Recorded(log: Log, r: ResetInfo, max: nat): Log {
    var boot := (log.bootCount + 1) % (UINT32_MAX + 1);
    Trimmed(Log(boot, log.entries + [Entry(boot, r.reason, r.abnormal, r.name, r.slot)]), max)
  }

  /** The text a load reads: the log, or else a complete temporary file. */
  function Readable(f: Files): Option<string> {
    if f.log.Some? then f.log else f.temp
  }

  /** A load moves a lone temporary file into place first. */
  function Adopted(f: Files): Files {
    if f.log.None? && f.temp.Some? then Files(f.temp, None) else f
  }

  function LogIn(f: Files, max: nat): Log {
    if Readable(f).Some? then LoadText(Readable(f).value, max) else EMPTY_LOG
  }

  /** The file states while `text` goes into the temporary file, up to an error at `n`. */
  function Writes(f: Files, text: string, n: nat): seq<Files>
    requires n <= |text|
  {
    seq(n + 1, k requires 0 <= k < n + 1 => f.(temp := Some(text[..k])))
  }

  /** Every file state a save passes through, in order. */
  function SaveTrace(f: Files, text: string, x: Faults): seq<Files> {
    if !x.open then []
    else
      var n := if x.writeError.Some? && x.writeError.value < |text| then x.writeError.value else |text|;
      var writes := Writes(f, text, n);
      var written := f.(temp := Some(text[..n]));
      if x.writeError.Some? || !x.close then writes + [if x.discard then f.(temp := None) else written]
      else if x.rename then writes + [Files(Some(text), None)]
      else
        var removed := if x.remove then Files(None, Some(text)) else written;
        writes + [removed, if x.retry then Files(Some(text), None) else removed]
  }

  predicate Saves(x: Faults) {
    x.open && x.writeError.None? && x.close && (x.rename || x.retry)
  }

  /** One boot: this boot's reset; whether its load can move a lone temporary file into place and open
      the log for reading; what its save meets; and when `cut` is set, the power fails in that
      state of the boot. */
  datatype BootRun = BootRun(reset: ResetInfo, moves: bool, opens: bool, faults: Faults, cut: Option<nat>)

  /** The load moves a lone temporary file into place first, if it can. */
  function Moved(f: Files, moves: bool): Files {
    if moves then Adopted(f) else f
  }

  /** The load succeeds: there is nothing to read, or there is a log by then and it can be opened. */
  predicate Loads(f: Files, b: BootRun) {
    Readable(f).None? || ((f.log.Some? || b.moves) && b.opens)
  }

  /** The log a boot starts from; after a load that failed it goes on with an empty one. */
  function Loaded(f: Files, b: BootRun, max: nat): Log {
    if Loads(f, b) then LogIn(f, max) else EMPTY_LOG
  }

  /** Load, record and save of one boot, state by state. */
  function BootTrace(f: Files, b: BootRun, max: nat): seq<Files> {
    var g := Moved(f, b.moves);
    [f, g] + SaveTrace(g, SaveText(Recorded(Loaded(f, b, max), b.reset, max)), b.faults)
  }

  function AfterBoot(f: Files, b: BootRun, max: nat): Files {
    var trace := BootTrace(f, b, max);
    if b.cut.Some? && b.cut.value < |trace| then trace[b.cut.value] else trace[|trace| - 1]
  }

  function AfterBoots(f: Files, boots: seq<BootRun>, max: nat): Files
    decreases |boots|
  {
    if boots == [] then f else AfterBoots(AfterBoot(f, boots[0], max), boots[1..], max)
  }

  // --------------------------------------------------------------------------
  // One boot
  // --------------------------------------------------------------------------

  /** At every point of a save the next load reads the old text or the new one, complete. */
  lemma SaveIsAtomic(f: Files, text: string, x: Faults, i: nat)
    requires f.log.Some?
    requires i < |SaveTrace(f, text, x)|
    ensures Readable(SaveTrace(f, text, x)[i]) in {f.log, Some(text)}
    ensures Saves(x) && i == |SaveTrace(f, text, x)| - 1 ==> Readable(SaveTrace(f, text, x)[i]) == Some(text)
  {
  }

  predicate GoodReset(r: ResetInfo) {
    Recordable(Entry(0, r.reason, r.abnormal, r.name, r.slot)) && Faithful(Entry(0, r.reason, r.abnormal, r.name, r.slot))
  }

  lemma RecordedIsSound(log: Log, r: ResetInfo, max: nat)
    requires Sound(log, max) && GoodReset(r)
    ensures Sound(Recorded(log, r, max), max)
  {
  }

  /** The files hold exactly this log, whichever file it is in. */
  predicate Holds(f: Files, log: Log, max: nat) {
    Readable(f) == Some(SaveText(log)) && Sound(log, max)
  }

  /** What a boot leaves when its save gets through: its reset on top of the log, or on its own when
      the log could not be opened. */
  function Extended(log: Log, b: BootRun, max: nat): Log {
    Recorded(if b.opens then log else EMPTY_LOG, b.reset, max)
  }

  /** Wherever the power fails during a boot, the next load sees the log as it was or with
      this boot recorded; when the save completes undisturbed, the latter. */
  lemma BootIsAtomic(f: Files, log: Log, b: BootRun, max: nat) returns (kept: bool)
    requires Holds(f, log, max) && GoodReset(b.reset)
    requires f.log.Some? || b.moves
    ensures Holds(AfterBoot(f, b, max), if kept then Extended(log, b, max) else log, max)
    ensures b.cut.None? && Saves(b.faults) ==> kept
  {
    LogRoundTrip(log, max);
    RecordedIsSound(log, b.reset, max);
    RecordedIsSound(EMPTY_LOG, b.reset, max);
    assert Loaded(f, b, max) == if b.opens then log else EMPTY_LOG;
    kept := TraceIsAtomic(f, SaveText(Extended(log, b, max)), b);
  }

  /** The state a boot ends in: before its save, or one the save passes through. */
  lemma TraceIsAtomic(f: Files, text: string, b: BootRun) returns (kept: bool)
    requires Readable(f).Some? && (f.log.Some? || b.moves)
    ensures
      var g := Moved(f, b.moves);
      var trace := [f, g] + SaveTrace(g, text, b.faults);
      var at := if b.cut.Some? && b.cut.value < |trace| then b.cut.value else |trace| - 1;
      && Readable(trace[at]) == (if kept then Some(text) else Readable(f))
      && (b.cut.None? && Saves(b.faults) ==> kept)
  {
    var g := Moved(f, b.moves);
    var saving := SaveTrace(g, text, b.faults);
    var trace := [f, g] + saving;
    var at := if b.cut.Some? && b.cut.value < |trace| then b.cut.value else |trace| - 1;
    if at < 2 {
      kept := false;
    } else {
      assert trace[at] == saving[at - 2];
      SaveIsAtomic(g, text, b.faults, at - 2);
      kept := Readable(saving[at - 2]) == Some(text);
    }
  }

  // --------------------------------------------------------------------------
  // Any number of boots
  // --------------------------------------------------------------------------

  /** The log after the boots whose saves got through. */
  function Replay(log: Log, boots: seq<BootRun>, kept: seq<bool>, max: nat): Log
    requires |kept| == |boots|
    decreases |boots|
  {
    if boots == [] then log
    else Replay(if kept[0] then Extended(log, boots[0], max) else log, boots[1..], kept[1..], max)
  }

  /** No boot finds a lone temporary file that it cannot move into place. */
  predicate NeverStuck(f: Files, boots: seq<BootRun>, max: nat)
    decreases |boots|
  {
    boots == [] ||
    ((f.log.Some? || boots[0].moves) && NeverStuck(AfterBoot(f, boots[0], max), boots[1..], max))
  }

  /**
   Once a complete log is on the device, any sequence of boots with power loss at any point of
   any of them leaves exactly the log of those boots whose save got through, never a truncated
   or mixed one; boots that were not disturbed are always among them.
   */
  lemma {:induction false} HistorySurvives(f: Files, log: Log, boots: seq<BootRun>, max: nat)
    returns (kept: seq<bool>)
    requires Holds(f, log, max)
    requires forall i :: 0 <= i < |boots| ==> GoodReset(boots[i].reset)
    requires NeverStuck(f, boots, max)
    ensures |kept| == |boots|
    ensures Holds(AfterBoots(f, boots, max), Replay(log, boots, kept, max), max)
    ensures LogIn(AfterBoots(f, boots, max), max) == Replay(log, boots, kept, max)
    ensures forall i :: 0 <= i < |boots| && boots[i].cut.None? && Saves(boots[i].faults) ==> kept[i]
    decreases |boots|
  {
    if boots == [] {
      kept := [];
      LogRoundTrip(log, max);
    } else {
      var first := BootIsAtomic(f, log, boots[0], max);
      var others := HistorySurvives(AfterBoot(f, boots[0], max),
                                    if first then Extended(log, boots[0], max) else log, boots[1..], max);
      kept := [first] + others;
      assert kept[1..] == others;
      forall i | 0 <= i < |boots| && boots[i].cut.None? && Saves(boots[i].faults) ensures kept[i] {
        if i > 0 {
          assert boots[i] == boots[1..][i - 1];
        }
      }
    }
  }

  function CountKept(kept: seq<bool>): nat {
    if kept == [] then 0 else (if kept[0] then 1 else 0) + CountKept(kept[1..])
  }

  lemma AddWraps(a: nat, k: nat)
    ensures ((a + 1) % 0x1_0000_0000 + k) % 0x1_0000_0000 == (a + (1 + k)) % 0x1_0000_0000
  {
  }

  /** Boots whose save got through are numbered one after the other, in 32 bits; the last of them stands at the
      end of the log, with its number and what is known of its reset. */
  lemma {:induction false} BootsAreNumbered(log: Log, boots: seq<BootRun>, kept: seq<bool>, max: nat)
    requires |kept| == |boots| && log.bootCount <= UINT32_MAX
    requires forall i :: 0 <= i < |boots| && kept[i] ==> boots[i].opens
    ensures
      var after := Replay(log, boots, kept, max);
      && after.bootCount == (log.bootCount + CountKept(kept)) % 0x1_0000_0000
      && (boots != [] && kept[|kept| - 1] && max > 0 ==>
            var r := boots[|boots| - 1].reset;
            after.entries != [] &&
            after.entries[|after.entries| - 1] == Entry(after.bootCount, r.reason, r.abnormal, r.name, r.slot))
    decreases |boots|
  {
    if boots != [] {
      var next := if kept[0] then Extended(log, boots[0], max) else log;
      BootsAreNumbered(next, boots[1..], kept[1..], max);
      if kept[0] {
        AddWraps(log.bootCount, CountKept(kept[1..]));
      }
      if |boots| == 1 {
        assert boots[1..] == [] && kept[1..] == [];
      }
    }
  }

  // --------------------------------------------------------------------------
  // Where the protection ends
  // --------------------------------------------------------------------------

  /** Whatever the save meets and whenever the power fails, a boot leaves the log as it was or with this
      boot recorded. */
  ghost predicate Protected(f: Files, log: Log, r: ResetInfo, moves: bool, max: nat) {
    forall b: BootRun | b.reset == r && b.moves == moves ::
      LogIn(AfterBoot(f, b, max), max) in {log, Recorded(Loaded(f, b, max), r, max)}
  }

  const NO_FAULTS := Faults(true, None, true, true, true, true, true)

  lemma StuckLosesLog(f: Files, log: Log, r: ResetInfo, max: nat)
    requires Holds(f, log, max) && f.log.None?
    ensures
      var b := BootRun(r, false, true, NO_FAULTS, Some(2));
      LogIn(AfterBoot(f, b, max), max) == EMPTY_LOG
  {
    var b := BootRun(r, false, true, NO_FAULTS, Some(2));
    var text := SaveText(Recorded(EMPTY_LOG, r, max));
    assert BootTrace(f, b, max)[2] == Writes(f, text, |text|)[0];
    assert Readable(AfterBoot(f, b, max)) == Some("");
    assert Lines("") == [];
  }

  lemma StuckNotProtected(f: Files, log: Log, r: ResetInfo, max: nat)
    requires Holds(f, log, max) && log != EMPTY_LOG && f.log.None?
    ensures !Protected(f, log, r, false, max)
  {
    var b := BootRun(r, false, true, NO_FAULTS, Some(2));
    StuckLosesLog(f, log, r, max);
    assert Loaded(f, b, max) == EMPTY_LOG;
    assert Recorded(EMPTY_LOG, r, max).bootCount == 1;
  }

  /** A log that is on the device is protected exactly when it is in place or can be moved there: a lone
      temporary file that cannot be moved is overwritten by the very next save. */
  lemma ProtectedExactlyWhen(f: Files, log: Log, r: ResetInfo, moves: bool, max: nat)
    requires Holds(f, log, max) && GoodReset(r) && log != EMPTY_LOG
    ensures Protected(f, log, r, moves, max) <==> f.log.Some? || moves
  {
    if f.log.Some? || moves {
      LogRoundTrip(log, max);
      forall b: BootRun | b.reset == r && b.moves == moves
        ensures LogIn(AfterBoot(f, b, max), max) in {log, Recorded(Loaded(f, b, max), r, max)}
      {
        var kept := BootIsAtomic(f, log, b, max);
        LogRoundTrip(if kept then Extended(log, b, max) else log, max);
      }
    } else {
      StuckNotProtected(f, log, r, max);
    }
  }

  /** The very first boot: how much of its text the next load can read, if any. */
  function Written(text: string, b: BootRun): (n: Option<nat>)
    ensures n.Some? ==> n.value <= |text|
  {
    var x := b.faults;
    var n := if x.writeError.Some? && x.writeError.value < |text| then x.writeError.value else |text|;
    if !x.open || (b.cut.Some? && b.cut.value < 2) then None
    else if b.cut.Some? && b.cut.value - 2 <= n then Some(b.cut.value - 2)
    else if x.writeError.Some? || !x.close then (if x.discard then None else Some(n))
    else Some(|text|)
  }

  lemma FirstSaveLeaves(text: string, b: BootRun)
    ensures
      var f := Files(None, None);
      var trace := [f, f] + SaveTrace(f, text, b.faults);
      var at := if b.cut.Some? && b.cut.value < |trace| then b.cut.value else |trace| - 1;
      Readable(trace[at]) ==
        if Written(text, b).None? then None else Some(text[..Written(text, b).value])
  {
    var f := Files(None, None);
    var saving := SaveTrace(f, text, b.faults);
    var trace := [f, f] + saving;
    var at := if b.cut.Some? && b.cut.value < |trace| then b.cut.value else |trace| - 1;
    if at >= 2 {
      assert trace[at] == saving[at - 2];
    }
    assert text[..|text|] == text;
  }

  /** The entry a first boot records. */
  function FirstEntry(r: ResetInfo): Entry {
    Entry(1, r.reason, r.abnormal, r.name, r.slot)
  }

  /** Before there is a complete log, a first boot leaves the next load with nothing or with this boot
      recorded, exactly unless its text was cut behind the boot counter and before the end of the
      reset's name; then the load reads a log that never was. */
  lemma FirstSaveIsRightExactlyWhen(b: BootRun, max: nat)
    requires GoodReset(b.reset)
    ensures
      var n := WrittenFirst(b, max);
      var next := LogIn(AfterBoot(Files(None, None), b, max), max);
      && (next in {EMPTY_LOG, Recorded(EMPTY_LOG, b.reset, max)} <==>
            n.None? || max == 0 || !Misleading(FirstEntry(b.reset), n.value))
      && (n.None? ==> next == EMPTY_LOG)
  {
    var e := FirstEntry(b.reset);
    FirstRecord(b.reset, max);
    FirstBootReads(b, max);
    var n := WrittenFirst(b, max);
    if n.Some? {
      if max == 0 {
        CounterOnlyLoads(n.value);
      } else {
        CutLoads(e, n.value, max);
      }
    }
  }

  /** The text a first boot saves. */
  function FirstSaved(r: ResetInfo, max: nat): string {
    if max == 0 then SaveText(Log(1, [])) else FirstText(FirstEntry(r))
  }

  function WrittenFirst(b: BootRun, max: nat): Option<nat> {
    Written(FirstSaved(b.reset, max), b)
  }

  lemma FirstRecord(r: ResetInfo, max: nat)
    ensures Recorded(EMPTY_LOG, r, max) == Log(1, if max == 0 then [] else [FirstEntry(r)])
    ensures SaveText(Recorded(EMPTY_LOG, r, max)) == FirstSaved(r, max)
  {
    assert [] + [FirstEntry(r)] == [FirstEntry(r)];
    assert [FirstEntry(r)][1..] == [];
  }

  lemma FirstTrace(b: BootRun, max: nat)
    ensures
      var f := Files(None, None);
      BootTrace(f, b, max) == [f, f] + SaveTrace(f, FirstSaved(b.reset, max), b.faults)
  {
    FirstRecord(b.reset, max);
  }

  /** What the next load finds to read after a first boot. */
  lemma FirstBootReads(b: BootRun, max: nat)
    ensures
      var text := FirstSaved(b.reset, max);
      var n := WrittenFirst(b, max);
      && (n.Some? ==> n.value <= |text|)
      && Readable(AfterBoot(Files(None, None), b, max)) == if n.None? then None else Some(text[..n.value])
  {
    FirstTrace(b, max);
    FirstSaveLeaves(FirstSaved(b.reset, max), b);
  }

  /** For instance: the power fails right after the first line of the very first save. The next load finds
      one boot counted and no reset logged, which was never so. */
  lemma FirstSaveMisleads(r: ResetInfo, max: nat)
    requires max > 0 && GoodReset(r)
    ensures
      var b := BootRun(r, true, true, NO_FAULTS, Some(2 + |COUNTER_LINE| + 1));
      var next := LogIn(AfterBoot(Files(None, None), b, max), max);
      next == Log(1, []) && next != EMPTY_LOG && next != Recorded(EMPTY_LOG, r, max)
  {
    var e := FirstEntry(r);
    var b := BootRun(r, true, true, NO_FAULTS, Some(2 + |COUNTER_LINE| + 1));
    FirstRecord(r, max);
    FirstTextParts(e);
    FirstBootReads(b, max);
    CutInEntryLine(e, 0);
    assert FirstText(e)[..|COUNTER_LINE| + 1] == COUNTER_LINE + "\n" + FirstLine(e)[..0];
  }

  // --------------------------------------------------------------------------
  // The log object
  // --------------------------------------------------------------------------

  function LastOr<T>(s: seq<T>, otherwise: T): T {
    if s == [] then otherwise else s[|s| - 1]
  }

  /** A log with the lines of a text added. */
  function AddLines(read: string -> Fact, log: Log, text: string): Log {
    AddAll(log, Facts(read, Lines(text)))
  }

  lemma AddLinesStep(read: string -> Fact, log: Log, text: string, line: string, rest: string)
    requires text != ""
    requires
      var i := Find(text, '\n');
      line == text[..i] && rest == text[if i == |text| then i else i + 1..]
    ensures AddLines(read, log, text) == AddLines(read, Add(log, read(line)), rest)
  {
    AddAllStep(read, log, line, Lines(rest));
  }

  /** The two files; `trace` remembers every state they have been in. */
  class Disk {
    var files: Files
    ghost var trace: seq<Files>

    constructor (files: Files)
      ensures this.files == files && trace == []
    {
      this.files := files;
      trace := [];
    }

    method Set(f: Files)
      modifies this
      ensures files == f && trace == old(trace) + [f]
    {
      files := f;
      trace := trace + [f];
    }
  }

  class ResetLog {
    const max: nat
    var bootCount: nat
    var entries: seq<Entry>

    function Contents(): Log
      reads this
    {
      Log(bootCount, entries)
    }

    constructor (max: nat)
      ensures this.max == max && Contents() == EMPTY_LOG
    {
      this.max := max;
      bootCount, entries := 0, [];
    }

    method Trim()
      modifies this`entries
      ensures Contents() == Trimmed(old(Contents()), max)
    {
      if max == 0 {
        entries := [];
        return;
      }
      if |entries| > max {
        entries := entries[|entries| - max..];
      }
    }

    /** Reads the log, if a lone temporary file can be moved into place and the log opened. */
    method Load(disk: Disk, ghost b: BootRun, moves: bool, opens: bool) returns (ok: bool)
      requires moves == b.moves && opens == b.opens
      modifies this, disk
      ensures ok == Loads(old(disk.files), b)
      ensures disk.files == Moved(old(disk.files), moves)
      ensures Contents() == Loaded(old(disk.files), b, max)
    {
      bootCount, entries := 0, [];
      if disk.files.log.None? {
        if disk.files.temp.None? {
          return true;
        }
        if !moves {
          return false;
        }
        disk.Set(Files(disk.files.temp, None));
      }
      if !opens {
        return false;
      }
      ReadAll(ReadLine, disk.files.log.value);
      Trim();
      ok := true;
    }

    /** The line at `pos`, and where the next one starts. */
    static method NextLine(text: string, pos: nat) returns (line: string, next: nat)
      requires pos < |text|
      ensures pos < next <= |text|
      ensures
        var rest := text[pos..];
        var i := Find(rest, '\n');
        line == rest[..i] && text[next..] == rest[if i == |rest| then i else i + 1..]
    {
      var rest := text[pos..];
      var i := Find(rest, '\n');
      line := rest[..i];
      next := pos + if i == |rest| then i else i + 1;
    }

    /** Takes in a text line by line. */
    method ReadAll(read: string -> Fact, text: string)
      requires Contents() == EMPTY_LOG
      modifies this
      ensures Contents() == AddLines(read, EMPTY_LOG, text)
    {
      var pos := 0;
      assert text[0..] == text;
      while pos < |text|
        invariant pos <= |text|
        invariant AddLines(read, Contents(), text[pos..]) == AddLines(read, EMPTY_LOG, text)
      {
        var line, next := NextLine(text, pos);
        AddLinesStep(read, Contents(), text[pos..], line, text[next..]);
        TakeIn(read(line));
        pos := next;
      }
    }

    method TakeIn(fact: Fact)
      modifies this
      ensures Contents() == Add(old(Contents()), fact)
    {
      match fact
      case Nothing =>
      case Counter(n) => bootCount := n;
      case Logged(e) => entries := entries + [e];
    }

    /** Appends this boot's reset and bumps the boot counter. */
    method Record(r: ResetInfo)
      modifies this
      ensures Contents() == Recorded(old(Contents()), r, max)
    {
      bootCount := (bootCount + 1) % (UINT32_MAX + 1);
      entries := entries + [Entry(bootCount, r.reason, r.abnormal, r.name, r.slot)];
      Trim();
    }

    method Format() returns (text: string)
      ensures text == SaveText(Contents())
    {
      var lines := "";
      for i := 0 to |entries|
        invariant lines == FlatMap(EntryLine, entries[..i])
      {
        FlatMapPrefix(EntryLine, entries, i);
        lines := lines + EntryLine(entries[i]);
      }
      assert entries[..|entries|] == entries;
      text := KeyValue("boot_count", Decimal(bootCount)) + "\n" + lines;
    }

    /** Writes the first `n` characters of a text to a truncated temporary file. */
    static method WriteTemp(disk: Disk, text: string, n: nat)
      requires n <= |text|
      modifies disk
      ensures disk.files == old(disk.files).(temp := Some(text[..n]))
      ensures disk.trace == old(disk.trace) + Writes(old(disk.files), text, n)
    {
      ghost var before, start := disk.trace, disk.files;
      disk.Set(disk.files.(temp := Some("")));
      assert Writes(start, text, 0) == [start.(temp := Some(""))];
      for k := 0 to n
        invariant disk.files == start.(temp := Some(text[..k]))
        invariant disk.trace == before + Writes(start, text, k)
      {
        disk.Set(disk.files.(temp := Some(text[..k + 1])));
        assert Writes(start, text, k + 1) == Writes(start, text, k) + [start.(temp := Some(text[..k + 1]))];
      }
    }

    /** Writes the log to the temporary file and moves it over the log; goes through exactly
        the states of `SaveTrace`. */
    method Save(disk: Disk, x: Faults) returns (ok: bool)
      modifies disk
      ensures disk.trace == old(disk.trace) + SaveTrace(old(disk.files), SaveText(Contents()), x)
      ensures disk.files == LastOr(SaveTrace(old(disk.files), SaveText(Contents()), x), old(disk.files))
      ensures ok == Saves(x)
    {
      var text := Format();
      ok := Store(disk, text, x);
    }

    static method Store(disk: Disk, text: string, x: Faults) returns (ok: bool)
      modifies disk
      ensures disk.trace == old(disk.trace) + SaveTrace(old(disk.files), text, x)
      ensures disk.files == LastOr(SaveTrace(old(disk.files), text, x), old(disk.files))
      ensures ok == Saves(x)
    {
      if !x.open {
        return false;
      }
      var n := if x.writeError.Some? && x.writeError.value < |text| then x.writeError.value else |text|;
      WriteTemp(disk, text, n);
      if x.writeError.Some? || !x.close {
        disk.Set(if x.discard then disk.files.(temp := None) else disk.files);
        return false;
      }
      assert text[..|text|] == text;
      if x.rename {
        disk.Set(Files(disk.files.temp, None));
        return true;
      }
      disk.Set(if x.remove then disk.files.(log := None) else disk.files);
      disk.Set(if x.retry then Files(disk.files.temp, None) else disk.files);
      ok := x.retry;
    }
  }
}
