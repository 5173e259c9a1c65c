/** Strings and numbers come back from their printed form, and whatever is accepted is a proper value. */
module JsonRoundTrip {
  import opened Bytes
  import opened Options
  import opened Seqs
  import opened Json
  import opened JsonNumbers
  import opened JsonUnicode

  // --------------------------------------------------------------------------
  // Strings
  // --------------------------------------------------------------------------

  lemma ControlEscapeReads(c: Byte, rest: Bytes)
    requires c < 0x20
    ensures ReadUnicode([0x30, 0x30, HexDigit(c / 16), HexDigit(c % 16)] + rest) == Some(([c], 4))
  {
    assert Hex4(c) == [0x30, 0x30, HexDigit(c / 16), HexDigit(c % 16)];
    EscapeReadsScalar(c, rest);
  }

  lemma EscapeReads(c: Byte, rest: Bytes)
    ensures EscapeByte(c)[0] != QUOTE
    ensures ReadChar(EscapeByte(c) + rest) == Some(([c], |EscapeByte(c)|))
  {
    var e := EscapeByte(c);
    if |e| == 6 {
      assert (e + rest)[2..] == [0x30, 0x30, HexDigit(c / 16), HexDigit(c % 16)] + rest;
      ControlEscapeReads(c, rest);
    }
  }

  lemma EscapeStep(c: Byte, tail: Bytes, out: Bytes)
    ensures ReadString(EscapeByte(c) + tail, out) == ReadString(tail, out + [c])
  {
    var e := EscapeByte(c);
    EscapeReads(c, tail);
    assert (e + tail)[|e|..] == tail;
    StringStep(e + tail, out, [c], |e|);
  }

  lemma StringTailSplits(s: Bytes, rest: Bytes)
    requires s != []
    ensures StringTail(s) + rest == EscapeByte(s[0]) + (StringTail(s[1..]) + rest)
  {
    ConcatAssociates(EscapeByte(s[0]), FlatMap(EscapeByte, s[1..]), [QUOTE]);
    ConcatAssociates(EscapeByte(s[0]), StringTail(s[1..]), rest);
  }

  lemma {:induction false} StringReads(s: Bytes, rest: Bytes, out: Bytes)
    ensures ReadString(StringTail(s) + rest, out) == Some((out + s, rest))
    decreases |s|
  {
    if s == [] {
      assert StringTail(s) + rest == [QUOTE] + rest;
      assert ([QUOTE] + rest)[1..] == rest;
      assert out + s == out;
    } else {
      StringTailSplits(s, rest);
      EscapeStep(s[0], StringTail(s[1..]) + rest, out);
      StringReads(s[1..], rest, out + [s[0]]);
      ConcatAssociates(out, [s[0]], s[1..]);
      assert [s[0]] + s[1..] == s;
    }
  }

  // --------------------------------------------------------------------------
  // Numbers
  // --------------------------------------------------------------------------

  lemma {:induction false} DecimalValue(n: nat)
    ensures DigitsValue(DecimalBytes(n)) == n
    ensures DecimalBytes(n)[0] == 0x30 ==> |DecimalBytes(n)| == 1
  {
    if n >= 10 {
      DecimalValue(n / 10);
      assert DecimalBytes(n)[..|DecimalBytes(n)| - 1] == DecimalBytes(n / 10);
    }
  }

  lemma NumberOfInteger(n: int)
    requires -(EXACT as int) < n < EXACT
    ensures NumberOf(Integer(n)) == Number(n)
  {
    var m := if n < 0 then -n else n;
    var ds := DecimalBytes(m);
    DecimalValue(m);
    DigitsLengthOf(ds, []);
    assert ds + [] == ds;
    assert ds[0] != MINUS;
    assert n < 0 ==> Integer(n)[1..] == ds;
  }

  /** A printed integer is a numeral without fraction and exponent. */
  lemma IntegerIsNumeral(n: int)
    ensures
      var m := Numeral(n < 0, DecimalBytes(if n < 0 then -n else n), None, None);
      Allowed(m) && Text(m) == Integer(n)
  {
    var ds := DecimalBytes(if n < 0 then -n else n);
    DecimalValue(if n < 0 then -n else n);
    assert ds + ([] + []) == ds;
    assert [] + ds == ds;
  }

  lemma NumberReads(n: int, rest: Bytes)
    requires -(EXACT as int) < n < EXACT
    requires Delimited(rest)
    ensures ReadNumber(Integer(n) + rest) == Some((Number(n), rest))
  {
    IntegerIsNumeral(n);
    NumberOfInteger(n);
    NumeralReads(Numeral(n < 0, DecimalBytes(if n < 0 then -n else n), None, None), rest);
  }

  /** A literal starts like a number and is read back whole, whatever may follow a number. */
  lemma LiteralReads(text: Bytes, rest: Bytes)
    requires IsLiteral(text) && Delimited(rest)
    ensures ReadNumber(text + rest) == Some((Literal(text), rest))
  {
    TakesOnlyNumerals(text);
    var n :| Allowed(n) && text[..|text|] == Text(n);
    assert text[..|text|] == text;
    NumeralReads(n, rest);
  }

  // --------------------------------------------------------------------------
  // Values
  // --------------------------------------------------------------------------

  predicate Blanks(w: Bytes) {
    forall i :: 0 <= i < |w| ==> Blank(w[i])
  }

  lemma {:induction false} SkipsBlanks(w: Bytes, s: Bytes)
    requires Blanks(w) && (s == [] || !Blank(s[0]))
    ensures SkipBlanks(w + s) == s
    decreases |w|
  {
    if w == [] {
      assert w + s == s;
    } else {
      assert (w + s)[1..] == w[1..] + s;
      SkipsBlanks(w[1..], s);
    }
  }

  /** Reading a text takes exactly the text and gives the value, or refuses it, whatever follows. */
  ghost predicate ReadsBack<T(!new)>(read: Reader<T>, text: Bytes, v: T, fits: bool) {
    && text != [] && !Blank(text[0]) && text[0] != CLOSE_BRACKET && text[0] != CLOSE_BRACE
    && forall rest: Bytes {:trigger read(text + rest)} | Delimited(rest) ::
         read(text + rest) == if fits then Some((v, rest)) else None
  }

  lemma DelimitedByBlanks(w: Bytes, rest: Bytes)
    requires Blanks(w) && Delimited(rest)
    ensures Delimited(w + rest)
  {
    if w == [] {
      assert w + rest == rest;
    } else {
      assert Blank(w[0]) && (w + rest)[0] == w[0];
    }
  }

  lemma RowGoesOn<T>(read: Reader<T>, close: Byte, s: Bytes, v: T, w: Bytes, after: Bytes)
    requires read(SkipBlanks(s)) == Some((v, w + after)) && SkipBlanks(w + after) == after
    requires after != [] && after[0] == COMMA != close && |after| <= |s|
    ensures Row(read, close, s) == Before([v], Row(read, close, after[1..]))
  {
  }

  lemma ScalarReads(v: Value, rest: Bytes)
    requires v.Null? || v.Bool? || v.String?
    ensures ReadScalar(Dump(v) + rest) == Some((v, rest))
  {
    var s := Dump(v) + rest;
    match v
    case String(t) =>
      assert s[1..] == StringTail(t) + rest;
      StringReads(t, rest, []);
      assert [] + t == t;
    case Bool(b) =>
      assert s[..|Dump(v)|] == Dump(v);
      assert s[|Dump(v)|..] == rest;
    case Null =>
      assert s[..4] == NULL_WORD;
      assert s[4..] == rest;
  }

  lemma NumberStarts(s: Bytes)
    requires s != [] && (s[0] == MINUS || Digit(s[0]))
    ensures ReadScalar(s) == ReadNumber(s)
  {
    assert TRUE_WORD[0] != s[0] && FALSE_WORD[0] != s[0] && NULL_WORD[0] != s[0];
  }

  lemma {:induction false} SetNewMember(members: seq<Member>, m: Member)
    requires forall i :: 0 <= i < |members| ==> members[i].key != m.key
    ensures SetMember(members, m) == members + [m]
  {
    if members != [] {
      SetNewMember(members[1..], m);
    }
  }

  lemma {:induction false} SetAllDistinct(members: seq<Member>)
    requires DistinctKeys(members)
    ensures SetAll([], members) == members
  {
    if members != [] {
      var n := |members| - 1;
      SetAllDistinct(members[..n]);
      SetNewMember(members[..n], members[n]);
      assert members[..n] + [members[n]] == members;
    }
  }

  lemma {:induction false} ItemsHeightFits(items: seq<Value>, levels: int)
    ensures ItemsHeight(items) <= levels <==>
            levels >= 0 && forall i :: 0 <= i < |items| ==> 1 + Height(items[i]) <= levels
  {
    if items != [] {
      ItemsHeightFits(items[1..], levels);
      assert forall i :: 0 < i < |items| ==> items[i] == items[1..][i - 1];
    }
  }

  lemma {:induction false} MembersHeightFits(members: seq<Member>, levels: int)
    ensures MembersHeight(members) <= levels <==>
            levels >= 0 && forall i :: 0 <= i < |members| ==> 1 + Height(members[i].value) <= levels
  {
    if members != [] {
      MembersHeightFits(members[1..], levels);
      assert forall i :: 0 < i < |members| ==> members[i] == members[1..][i - 1];
    }
  }

  lemma AfterOpening(open: Byte, body: Bytes, rest: Bytes)
    ensures [open] + body + rest != [] && ([open] + body + rest)[0] == open
    ensures ([open] + body + rest)[1..] == body + rest
  {
  }

  /** A row may begin with blanks or without. */
  lemma RowSkipsBlanks<T>(read: Reader<T>, close: Byte, s: Bytes, t: Bytes)
    requires SkipBlanks(s) == SkipBlanks(t) && |s| >= |t|
    requires read(SkipBlanks(s)).Some? ==> |read(SkipBlanks(s)).value.1| <= |t|
    ensures Row(read, close, s) == Row(read, close, t)
  {
    BlanksOnlyShorten(if read(SkipBlanks(s)).Some? then read(SkipBlanks(s)).value.1 else []);
  }

  lemma {:induction false} BlanksOnlyShorten(s: Bytes)
    ensures |SkipBlanks(s)| <= |s|
  {
  }

  // --------------------------------------------------------------------------
  // Whatever is accepted is a proper value
  // --------------------------------------------------------------------------

  /** No object names a member twice. */
  predicate WellFormed(v: Value)
    decreases v
  {
    match v
    case Array(items) => forall i :: 0 <= i < |items| ==> WellFormed(items[i])
    case Object(members) =>
      DistinctKeys(members) && forall i :: 0 <= i < |members| ==> WellFormed(members[i].value)
    case _ => true
  }

  lemma {:induction false} SetKeepsDistinct(members: seq<Member>, m: Member)
    requires DistinctKeys(members)
    ensures DistinctKeys(SetMember(members, m))
    ensures forall x :: x in SetMember(members, m) ==> x in members || x == m
    ensures forall x :: x in SetMember(members, m) ==> x.key == m.key || exists y :: y in members && y.key == x.key
  {
    if members != [] && members[0].key != m.key {
      SetKeepsDistinct(members[1..], m);
      var set' := SetMember(members[1..], m);
      forall j | 0 <= j < |set'| ensures set'[j].key != members[0].key {
        assert set'[j] in set';
        if set'[j].key != m.key {
          var y :| y in members[1..] && y.key == set'[j].key;
        }
      }
    }
  }

  ghost predicate Yields<T(!new)>(read: Reader<T>, good: T -> bool) {
    forall s: Bytes {:trigger read(s)} | read(s).Some? :: good(read(s).value.0)
  }

  lemma {:induction false} RowYields<T(!new)>(read: Reader<T>, close: Byte, s: Bytes, good: T -> bool)
    requires Yields(read, good)
    requires Row(read, close, s).Some?
    ensures forall x :: x in Row(read, close, s).value.0 ==> good(x)
    decreases |s|
  {
    var first := read(SkipBlanks(s));
    var t := SkipBlanks(first.value.1);
    if t[0] != close {
      RowYields(read, close, t[1..], good);
    }
  }

  lemma {:induction false} SetAllKeeps(ms: seq<Member>, good: Member -> bool)
    requires forall m :: m in ms ==> good(m)
    ensures DistinctKeys(SetAll([], ms))
    ensures forall m :: m in SetAll([], ms) ==> good(m)
  {
    if ms != [] {
      SetAllKeeps(ms[..|ms| - 1], good);
      SetKeepsDistinct(SetAll([], ms[..|ms| - 1]), ms[|ms| - 1]);
    }
  }

  /** No name repeated, and nested within the levels left. */
  predicate Proper(v: Value, depth: int) {
    WellFormed(v) && depth + Height(v) <= MAX_DEPTH
  }

  lemma {:induction false} ReadValueProper(s: Bytes, depth: int)
    requires ReadValue(s, depth).Some?
    ensures Proper(ReadValue(s, depth).value.0, depth)
    decreases MAX_DEPTH + 1 - depth
  {
    var read := ValueReader(depth + 1);
    if s[0] == OPEN_BRACE || s[0] == OPEN_BRACKET {
      forall u: Bytes | read(u).Some? ensures Proper(read(u).value.0, depth + 1) {
        ReadValueProper(u, depth + 1);
      }
      if s[0] == OPEN_BRACE {
        ReadObjectProper(read, s[1..], depth);
      } else {
        ReadArrayProper(read, s[1..], depth);
      }
    }
  }

  lemma ItemsProper(items: seq<Value>, depth: int)
    requires depth <= MAX_DEPTH
    requires forall x :: x in items ==> Proper(x, depth + 1)
    ensures Proper(Array(items), depth)
  {
    ItemsHeightFits(items, MAX_DEPTH - depth);
    forall i | 0 <= i < |items| ensures Proper(items[i], depth + 1) {
      assert items[i] in items;
    }
  }

  lemma MembersProper(members: seq<Member>, depth: int)
    requires depth <= MAX_DEPTH && DistinctKeys(members)
    requires forall m :: m in members ==> Proper(m.value, depth + 1)
    ensures Proper(Object(members), depth)
  {
    MembersHeightFits(members, MAX_DEPTH - depth);
    forall i | 0 <= i < |members| ensures Proper(members[i].value, depth + 1) {
      assert members[i] in members;
    }
  }

  lemma ReadArrayProper(read: Reader<Value>, s: Bytes, depth: int)
    requires depth <= MAX_DEPTH && Yields(read, v => Proper(v, depth + 1))
    requires ReadArray(read, s).Some?
    ensures Proper(ReadArray(read, s).value.0, depth)
  {
    var t := SkipBlanks(s);
    if !(t != [] && t[0] == CLOSE_BRACKET) {
      RowYields(read, CLOSE_BRACKET, t, v => Proper(v, depth + 1));
    }
    ItemsProper(ReadArray(read, s).value.0.items, depth);
  }

  lemma ReadObjectProper(read: Reader<Value>, s: Bytes, depth: int)
    requires depth <= MAX_DEPTH && Yields(read, v => Proper(v, depth + 1))
    requires ReadObject(read, s).Some?
    ensures Proper(ReadObject(read, s).value.0, depth)
  {
    var t := SkipBlanks(s);
    if !(t != [] && t[0] == CLOSE_BRACE) {
      MemberRowProper(read, t, depth);
    }
    MembersProper(ReadObject(read, s).value.0.members, depth);
  }

  lemma MemberRowProper(read: Reader<Value>, t: Bytes, depth: int)
    requires Yields(read, v => Proper(v, depth + 1))
    requires Row(MemberReader(read), CLOSE_BRACE, t).Some?
    ensures
      var members := SetAll([], Row(MemberReader(read), CLOSE_BRACE, t).value.0);
      DistinctKeys(members) && forall m :: m in members ==> Proper(m.value, depth + 1)
  {
    var good := (m: Member) => Proper(m.value, depth + 1);
    MembersYield(read, v => Proper(v, depth + 1), good);
    RowYields(MemberReader(read), CLOSE_BRACE, t, good);
    SetAllKeeps(Row(MemberReader(read), CLOSE_BRACE, t).value.0, good);
  }

  lemma MembersYield(read: Reader<Value>, good: Value -> bool, goodMember: Member -> bool)
    requires Yields(read, good)
    requires forall m: Member :: goodMember(m) <==> good(m.value)
    ensures Yields(MemberReader(read), goodMember)
  {
  }

  /** Every accepted text is a value without repeated names, nested no deeper than allowed. */
  lemma ParseAcceptsOnlyProperValues(text: Bytes)
    requires Parse(text).Some?
    ensures WellFormed(Parse(text).value)
    ensures Height(Parse(text).value) <= MAX_DEPTH
  {
    ReadValueProper(SkipBlanks(text), 0);
  }
}
