/**
 The texts of RFC 8259 as trees: what each may look like and what it says. The parser takes exactly these,
 nested no deeper than it allows.
 */
module JsonGrammar {
  import opened Bytes
  import opened Options
  import opened Seqs
  import opened Json
  import opened JsonRoundTrip
  import JsonNumbers
  import JsonStrings

  /** A value as it may be written. */
  datatype Doc =
    | Word(v: Value)                                     // null, true or false
    | Num(n: JsonNumbers.Numeral)
    | Str(chars: seq<JsonStrings.Character>)
    | Arr(inside: Bytes, items: seq<Item>)               // the blanks inside count when it is empty
    | Obj(inside: Bytes, members: seq<Item>)

  /** One element of an array or an object, with the blanks around it. */
  datatype Item = Item(before: Bytes, name: Option<Name>, doc: Doc, after: Bytes)

  /** The name of a member, with the blanks around the colon. */
  datatype Name = Name(chars: seq<JsonStrings.Character>, before: Bytes, after: Bytes)

  // --------------------------------------------------------------------------
  // What a document looks like
  // --------------------------------------------------------------------------

  predicate Well(doc: Doc)
    decreases doc
  {
    match doc
    case Word(v) => v.Null? || v.Bool?
    case Num(n) => JsonNumbers.Allowed(n)
    case Str(_) => true
    case Arr(inside, items) => Blanks(inside) && forall i :: 0 <= i < |items| ==> WellItem(items[i], false)
    case Obj(inside, members) => Blanks(inside) && forall i :: 0 <= i < |members| ==> WellItem(members[i], true)
  }

  predicate WellItem(it: Item, named: bool)
    decreases it
  {
    && Blanks(it.before) && Blanks(it.after) && Well(it.doc)
    && it.name.Some? == named
    && (named ==> Blanks(it.name.value.before) && Blanks(it.name.value.after))
  }

  function StringText(chars: seq<JsonStrings.Character>): Bytes {
    [QUOTE] + (FlatMap(JsonStrings.TextOf, chars) + [QUOTE])
  }

  /** A text between its blanks. */
  datatype Piece = Piece(before: Bytes, text: Bytes, after: Bytes)

  /** Pieces separated by commas, and the closing byte. */
  function Joined(ps: seq<Piece>, close: Byte): Bytes
    requires ps != []
  {
    ps[0].before + (ps[0].text + (ps[0].after + if |ps| == 1 then [close] else [COMMA] + Joined(ps[1..], close)))
  }

  function BodyOf(inside: Bytes, ps: seq<Piece>, close: Byte): Bytes {
    if ps == [] then inside + [close] else Joined(ps, close)
  }

  function Text(doc: Doc): Bytes
    decreases doc
  {
    match doc
    case Word(v) => if v.Bool? then (if v.b then TRUE_WORD else FALSE_WORD) else NULL_WORD
    case Num(n) => JsonNumbers.Text(n)
    case Str(chars) => StringText(chars)
    case Arr(inside, items) =>
      [OPEN_BRACKET] + BodyOf(inside, seq(|items|, i requires 0 <= i < |items| => PieceOf(items[i])), CLOSE_BRACKET)
    case Obj(inside, members) =>
      [OPEN_BRACE] + BodyOf(inside, seq(|members|, i requires 0 <= i < |members| => PieceOf(members[i])), CLOSE_BRACE)
  }

  function PieceOf(it: Item): Piece
    decreases it
  {
    Piece(it.before, if it.name.None? then Text(it.doc) else NameText(it.name.value, Text(it.doc)), it.after)
  }

  function NameText(name: Name, value: Bytes): Bytes {
    StringText(name.chars) + (name.before + ([COLON] + (name.after + value)))
  }

  function PiecesOf(items: seq<Item>): seq<Piece> {
    seq(|items|, i requires 0 <= i < |items| => PieceOf(items[i]))
  }

  // --------------------------------------------------------------------------
  // What a document says
  // --------------------------------------------------------------------------

  /** An integer of at most fifteen digits is that integer, but for a minus zero; another number is its literal. */
  function NumberSaid(n: JsonNumbers.Numeral): Value
    requires JsonNumbers.Allowed(n)
  {
    if n.fraction.None? && n.exponent.None? && DigitsValue(n.whole) < 1_000_000_000_000_000 && !(n.minus && n.whole == [0x30])
    then Number(if n.minus then -(DigitsValue(n.whole) as int) else DigitsValue(n.whole))
    else Literal(JsonNumbers.Text(n))
  }

  function KeyOf(it: Item): Bytes
    requires it.name.Some?
  {
    FlatMap(JsonStrings.Says, it.name.value.chars)
  }

  function Meaning(doc: Doc): Value
    requires Well(doc)
    decreases doc
  {
    match doc
    case Word(v) => v
    case Num(n) => NumberSaid(n)
    case Str(chars) => String(FlatMap(JsonStrings.Says, chars))
    case Arr(_, items) =>
      Array(seq(|items|, i requires 0 <= i < |items| => assert WellItem(items[i], false); Meaning(items[i].doc)))
    case Obj(_, members) =>
      Object(Merged(seq(|members|, i requires 0 <= i < |members| =>
        assert WellItem(members[i], true); MemberSaid(members[i]))))
  }

  function MemberSaid(it: Item): Member
    requires WellItem(it, true)
    decreases it
  {
    Member(KeyOf(it), Meaning(it.doc))
  }

  /** The names of these members, in the order in which they first appear. */
  function Names(ms: seq<Member>): seq<Bytes> {
    if ms == [] then []
    else
      var before := Names(ms[..|ms| - 1]);
      if ms[|ms| - 1].key in before then before else before + [ms[|ms| - 1].key]
  }

  /** The last value given to a name. */
  function LastValue(ms: seq<Member>, key: Bytes): Value {
    if ms == [] then Null
    else if ms[|ms| - 1].key == key then ms[|ms| - 1].value
    else LastValue(ms[..|ms| - 1], key)
  }

  function Merged(ms: seq<Member>): seq<Member> {
    seq(|Names(ms)|, i requires 0 <= i < |Names(ms)| => Member(Names(ms)[i], LastValue(ms, Names(ms)[i])))
  }

  /** Nested no deeper than so many levels. */
  predicate Fits(doc: Doc, levels: int)
    decreases doc
  {
    levels >= 0 &&
    match doc
    case Arr(_, items) => forall i :: 0 <= i < |items| ==> Fits(items[i].doc, levels - 1)
    case Obj(_, members) => forall i :: 0 <= i < |members| ==> Fits(members[i].doc, levels - 1)
    case _ => true
  }

  // --------------------------------------------------------------------------
  // Repeated names
  // --------------------------------------------------------------------------

  predicate HasKey(ms: seq<Member>, key: Bytes) {
    exists i :: 0 <= i < |ms| && ms[i].key == key
  }

  /** The members with this one's value where its name stands. */
  function Replaced(ms: seq<Member>, m: Member): seq<Member> {
    seq(|ms|, i requires 0 <= i < |ms| => if ms[i].key == m.key then m else ms[i])
  }

  lemma {:induction false} SetOld(ms: seq<Member>, m: Member)
    requires HasKey(ms, m.key) && DistinctKeys(ms)
    ensures SetMember(ms, m) == Replaced(ms, m)
  {
    if ms[0].key == m.key {
      assert Replaced(ms, m) == [m] + ms[1..];
    } else {
      var i :| 0 <= i < |ms| && ms[i].key == m.key;
      assert ms[1..][i - 1].key == m.key;
      SetOld(ms[1..], m);
      assert Replaced(ms, m) == [ms[0]] + Replaced(ms[1..], m);
    }
  }

  lemma {:induction false} NamesAreDistinct(ms: seq<Member>)
    ensures forall i, j :: 0 <= i < j < |Names(ms)| ==> Names(ms)[i] != Names(ms)[j]
  {
    if ms != [] {
      NamesAreDistinct(ms[..|ms| - 1]);
    }
  }

  lemma MergedKeys(ms: seq<Member>, key: Bytes)
    ensures HasKey(Merged(ms), key) <==> key in Names(ms)
    ensures DistinctKeys(Merged(ms))
  {
    NamesAreDistinct(ms);
    if key in Names(ms) {
      var i :| 0 <= i < |Names(ms)| && Names(ms)[i] == key;
      assert Merged(ms)[i].key == key;
    }
  }

  /** One more member: a new name comes last, a known one takes the new value. */
  lemma MergedLonger(ms: seq<Member>, m: Member)
    ensures Merged(ms + [m]) == if m.key in Names(ms) then Replaced(Merged(ms), m) else Merged(ms) + [m]
  {
    assert (ms + [m])[..|ms|] == ms;
    if m.key in Names(ms) {
      assert Names(ms + [m]) == Names(ms);
    } else {
      assert Names(ms + [m]) == Names(ms) + [m.key];
    }
  }

  /** Setting members one after the other leaves each name where it first appeared, with its last value. */
  lemma {:induction false} SetAllMerges(ms: seq<Member>)
    ensures SetAll([], ms) == Merged(ms)
  {
    if ms != [] {
      var before, m := ms[..|ms| - 1], ms[|ms| - 1];
      SetAllMerges(before);
      MergedKeys(before, m.key);
      assert before + [m] == ms;
      MergedLonger(before, m);
      if m.key in Names(before) {
        SetOld(Merged(before), m);
      } else {
        SetNewMember(Merged(before), m);
      }
    }
  }

  // --------------------------------------------------------------------------
  // Every document is read
  // --------------------------------------------------------------------------

  lemma NumeralSays(n: JsonNumbers.Numeral)
    requires JsonNumbers.Allowed(n)
    ensures NumberOf(JsonNumbers.Text(n)) == NumberSaid(n)
  {
    var text, tail := JsonNumbers.Text(n), JsonNumbers.TailText(n);
    var ds := n.whole + tail;
    assert text == JsonNumbers.SignOf(n.minus) + ds;
    assert n.whole[0] != MINUS;
    assert (if text[0] == MINUS then text[1..] else text) == ds;
    if tail == [] {
      JsonNumbers.DigitsLengthOf(n.whole, []);
      assert ds == n.whole && n.whole + [] == n.whole;
      WholeIsZero(n.whole);
    } else {
      assert !Digit(tail[0]);
      JsonNumbers.DigitsLengthOf(n.whole, tail);
    }
  }

  lemma WholeIsZero(ds: Bytes)
    requires JsonNumbers.Digits(ds) && (ds[0] == 0x30 ==> |ds| == 1)
    ensures DigitsValue(ds) == 0 <==> ds == [0x30]
  {
    if ds[0] != 0x30 {
      LeadingDigit(ds);
    } else {
      assert ds == [0x30] && ds[..0] == [];
    }
  }

  lemma {:induction false} LeadingDigit(ds: Bytes)
    requires JsonNumbers.Digits(ds) && ds[0] != 0x30
    ensures DigitsValue(ds) > 0
  {
    if |ds| > 1 {
      LeadingDigit(ds[..|ds| - 1]);
    }
  }

  lemma StringTextReads(chars: seq<JsonStrings.Character>, rest: Bytes)
    ensures
      var s := StringText(chars) + rest;
      s[0] == QUOTE && ReadString(s[1..], []) == Some((FlatMap(JsonStrings.Says, chars), rest))
  {
    var body := FlatMap(JsonStrings.TextOf, chars);
    var s := StringText(chars) + rest;
    ConcatAssociates([QUOTE], body + [QUOTE], rest);
    ConcatAssociates(body, [QUOTE], rest);
    assert s[1..] == body + ([QUOTE] + rest);
    JsonStrings.SpelledStringReads(chars, rest, []);
    assert [] + FlatMap(JsonStrings.Says, chars) == FlatMap(JsonStrings.Says, chars);
  }

  /** What follows the first text of a row. */
  function Onward(ps: seq<Piece>, close: Byte, rest: Bytes): Bytes
    requires ps != []
  {
    if |ps| == 1 then [close] + rest else [COMMA] + (Joined(ps[1..], close) + rest)
  }

  lemma JoinedSplits(ps: seq<Piece>, close: Byte, rest: Bytes)
    requires ps != []
    ensures Joined(ps, close) + rest == ps[0].before + (ps[0].text + (ps[0].after + Onward(ps, close, rest)))
  {
    var p := ps[0];
    var more := if |ps| == 1 then [close] else [COMMA] + Joined(ps[1..], close);
    ConcatAssociates(p.before, p.text + (p.after + more), rest);
    ConcatAssociates(p.text, p.after + more, rest);
    ConcatAssociates(p.after, more, rest);
    if |ps| > 1 {
      ConcatAssociates([COMMA], Joined(ps[1..], close), rest);
    }
  }

  ghost predicate PieceReads<T(!new)>(read: Reader<T>, p: Piece, v: T, fits: bool) {
    Blanks(p.before) && Blanks(p.after) && ReadsBack(read, p.text, v, fits)
  }

  lemma FirstPieceReads<T(!new)>(read: Reader<T>, ps: seq<Piece>, close: Byte, rest: Bytes, v: T, fits: bool)
    requires close == CLOSE_BRACKET || close == CLOSE_BRACE
    requires ps != [] && PieceReads(read, ps[0], v, fits)
    ensures
      var s := Joined(ps, close) + rest;
      var onward := Onward(ps, close, rest);
      && SkipBlanks(s) != [] && SkipBlanks(s)[0] == ps[0].text[0]
      && read(SkipBlanks(s)) == (if fits then Some((v, ps[0].after + onward)) else None)
      && SkipBlanks(ps[0].after + onward) == onward
      && |onward| <= |s| && |ps[0].after + onward| <= |SkipBlanks(s)|
  {
    var p, onward := ps[0], Onward(ps, close, rest);
    JoinedSplits(ps, close, rest);
    var u := p.text + (p.after + onward);
    assert u[0] == p.text[0];
    SkipsBlanks(p.before, u);
    DelimitedByBlanks(p.after, onward);
    SkipsBlanks(p.after, onward);
  }

  lemma AllTrue(flags: seq<bool>)
    requires flags != []
    ensures (forall i :: 0 <= i < |flags| ==> flags[i]) <==>
            flags[0] && forall i :: 0 <= i < |flags[1..]| ==> flags[1..][i]
  {
    assert forall i :: 0 < i < |flags| ==> flags[i] == flags[1..][i - 1];
  }

  lemma {:induction false} JoinedReads<T(!new)>(read: Reader<T>, close: Byte, ps: seq<Piece>, vs: seq<T>, fits: seq<bool>, rest: Bytes)
    requires close == CLOSE_BRACKET || close == CLOSE_BRACE
    requires |ps| == |vs| == |fits| > 0
    requires forall i :: 0 <= i < |ps| ==> PieceReads(read, ps[i], vs[i], fits[i])
    ensures Row(read, close, Joined(ps, close) + rest) ==
            if forall i :: 0 <= i < |fits| ==> fits[i] then Some((vs, rest)) else None
    decreases |ps|
  {
    FirstPieceReads(read, ps, close, rest, vs[0], fits[0]);
    var onward := Onward(ps, close, rest);
    if |ps| == 1 {
      assert onward[1..] == rest;
      assert [vs[0]] == vs;
    } else {
      assert onward[1..] == Joined(ps[1..], close) + rest;
      if fits[0] {
        RowGoesOn(read, close, Joined(ps, close) + rest, vs[0], ps[0].after, onward);
      }
      JoinedReads(read, close, ps[1..], vs[1..], fits[1..], rest);
      assert [vs[0]] + vs[1..] == vs;
      AllTrue(fits);
    }
  }

  /** What stands behind an opening bracket or brace: the closing one, or a row. */
  lemma BodyReads<T(!new)>(read: Reader<T>, close: Byte, inside: Bytes, ps: seq<Piece>, vs: seq<T>, fits: seq<bool>, rest: Bytes)
    requires close == CLOSE_BRACKET || close == CLOSE_BRACE
    requires |ps| == |vs| == |fits| && Blanks(inside)
    requires forall i :: 0 <= i < |ps| ==> PieceReads(read, ps[i], vs[i], fits[i])
    ensures
      var t := SkipBlanks(BodyOf(inside, ps, close) + rest);
      if ps == [] then t != [] && t[0] == close && t[1..] == rest
      else
        && t != [] && t[0] != close
        && Row(read, close, t) == if forall i :: 0 <= i < |fits| ==> fits[i] then Some((vs, rest)) else None
  {
    if ps == [] {
      ConcatAssociates(inside, [close], rest);
      SkipsBlanks(inside, [close] + rest);
      assert ([close] + rest)[1..] == rest;
    } else {
      var s := Joined(ps, close) + rest;
      assert PieceReads(read, ps[0], vs[0], fits[0]);
      FirstPieceReads(read, ps, close, rest, vs[0], fits[0]);
      JoinedReads(read, close, ps, vs, fits, rest);
      BlanksOnlyShorten(s);
      SkipsBlanks([], SkipBlanks(s));
      assert [] + SkipBlanks(s) == SkipBlanks(s);
      RowSkipsBlanks(read, close, s, SkipBlanks(s));
    }
  }

  lemma DocStarts(doc: Doc)
    requires Well(doc)
    ensures Text(doc) != []
    ensures
      var c := Text(doc)[0];
      && !Blank(c) && c != CLOSE_BRACKET && c != CLOSE_BRACE
      && (doc.Arr? <==> c == OPEN_BRACKET) && (doc.Obj? <==> c == OPEN_BRACE)
  {
    if doc.Num? {
      assert Digit(doc.n.whole[0]);
    }
  }

  lemma ScalarDocReads(doc: Doc, rest: Bytes)
    requires Well(doc) && !doc.Arr? && !doc.Obj? && JsonNumbers.Delimited(rest)
    ensures Text(doc) + rest != [] && ReadScalar(Text(doc) + rest) == Some((Meaning(doc), rest))
  {
    var s := Text(doc) + rest;
    match doc
    case Word(v) => ScalarReads(v, rest);
    case Num(n) =>
      JsonNumbers.NumeralReads(n, rest);
      NumeralSays(n);
      assert Digit(n.whole[0]);
      NumberStarts(s);
    case Str(chars) => StringTextReads(chars, rest);
  }

  lemma NamedReads(read: Reader<Value>, name: Name, text: Bytes, v: Value, fits: bool)
    requires ReadsBack(read, text, v, fits) && Blanks(name.before) && Blanks(name.after)
    ensures ReadsBack(MemberReader(read), NameText(name, text), Member(FlatMap(JsonStrings.Says, name.chars), v), fits)
  {
    var key := FlatMap(JsonStrings.Says, name.chars);
    forall rest: Bytes | JsonNumbers.Delimited(rest)
      ensures MemberReader(read)(NameText(name, text) + rest) == if fits then Some((Member(key, v), rest)) else None
    {
      var u := name.after + (text + rest);
      var t := name.before + ([COLON] + u);
      NameSplits(name, text, rest);
      StringTextReads(name.chars, t);
      SkipsBlanks(name.before, [COLON] + u);
      assert ([COLON] + u)[1..] == u;
      assert (text + rest)[0] == text[0];
      SkipsBlanks(name.after, text + rest);
    }
  }

  lemma NameSplits(name: Name, text: Bytes, rest: Bytes)
    ensures NameText(name, text) + rest ==
            StringText(name.chars) + (name.before + ([COLON] + (name.after + (text + rest))))
  {
    ConcatAssociates(StringText(name.chars), name.before + ([COLON] + (name.after + text)), rest);
    ConcatAssociates(name.before, [COLON] + (name.after + text), rest);
    ConcatAssociates([COLON], name.after + text, rest);
    ConcatAssociates(name.after, text, rest);
  }

  /** Reading a document takes exactly its text and gives what it says, or refuses it as nested too deep. */
  lemma {:induction false} DocReads(doc: Doc, depth: int)
    requires Well(doc)
    ensures ReadsBack(ValueReader(depth), Text(doc), Meaning(doc), Fits(doc, MAX_DEPTH - depth))
    decreases doc, 1
  {
    DocStarts(doc);
    forall rest: Bytes | JsonNumbers.Delimited(rest)
      ensures ReadValue(Text(doc) + rest, depth) == if Fits(doc, MAX_DEPTH - depth) then Some((Meaning(doc), rest)) else None
    {
      assert (Text(doc) + rest)[0] == Text(doc)[0];
      match doc
      case Arr(_, _) => ArrReads(doc, depth, rest);
      case Obj(_, _) => ObjReads(doc, depth, rest);
      case _ => ScalarDocReads(doc, rest);
    }
  }

  lemma OpenedReads(open: Byte, body: Bytes, rest: Bytes, depth: int)
    requires depth <= MAX_DEPTH && (open == OPEN_BRACKET || open == OPEN_BRACE)
    ensures ReadValue([open] + body + rest, depth) ==
            if open == OPEN_BRACE then ReadObject(ValueReader(depth + 1), body + rest)
            else ReadArray(ValueReader(depth + 1), body + rest)
  {
    AfterOpening(open, body, rest);
  }

  predicate AllOf(flags: seq<bool>) {
    forall i :: 0 <= i < |flags| ==> flags[i]
  }

  lemma ArrBodyReads(read: Reader<Value>, inside: Bytes, ps: seq<Piece>, vs: seq<Value>, fits: seq<bool>, rest: Bytes)
    requires |ps| == |vs| == |fits| && Blanks(inside)
    requires forall i :: 0 <= i < |ps| ==> PieceReads(read, ps[i], vs[i], fits[i])
    ensures ReadArray(read, BodyOf(inside, ps, CLOSE_BRACKET) + rest) ==
            if AllOf(fits) then Some((Array(vs), rest)) else None
  {
    BodyReads(read, CLOSE_BRACKET, inside, ps, vs, fits, rest);
  }

  lemma ObjBodyReads(read: Reader<Value>, inside: Bytes, ps: seq<Piece>, ms: seq<Member>, fits: seq<bool>, rest: Bytes)
    requires |ps| == |ms| == |fits| && Blanks(inside)
    requires forall i :: 0 <= i < |ps| ==> PieceReads(MemberReader(read), ps[i], ms[i], fits[i])
    ensures ReadObject(read, BodyOf(inside, ps, CLOSE_BRACE) + rest) ==
            if AllOf(fits) then Some((Object(Merged(ms)), rest)) else None
  {
    BodyReads(MemberReader(read), CLOSE_BRACE, inside, ps, ms, fits, rest);
    SetAllMerges(ms);
  }

  function FitEach(items: seq<Item>, levels: int): (fits: seq<bool>)
    ensures |fits| == |items| && forall i :: 0 <= i < |items| ==> fits[i] == Fits(items[i].doc, levels)
  {
    seq(|items|, i requires 0 <= i < |items| => Fits(items[i].doc, levels))
  }

  lemma {:induction false} ArrReads(doc: Doc, depth: int, rest: Bytes)
    requires Well(doc) && doc.Arr?
    ensures ReadValue(Text(doc) + rest, depth) == if Fits(doc, MAX_DEPTH - depth) then Some((Meaning(doc), rest)) else None
    decreases doc, 0
  {
    if depth <= MAX_DEPTH {
      var ps, fits := PiecesOf(doc.items), FitEach(doc.items, MAX_DEPTH - depth - 1);
      forall i | 0 <= i < |ps| ensures PieceReads(ValueReader(depth + 1), ps[i], Meaning(doc).items[i], fits[i]) {
        assert WellItem(doc.items[i], false);
        DocReads(doc.items[i].doc, depth + 1);
      }
      OpenedReads(OPEN_BRACKET, BodyOf(doc.inside, ps, CLOSE_BRACKET), rest, depth);
      ArrBodyReads(ValueReader(depth + 1), doc.inside, ps, Meaning(doc).items, fits, rest);
    }
  }

  function Said(members: seq<Item>): (ms: seq<Member>)
    requires forall i :: 0 <= i < |members| ==> WellItem(members[i], true)
    ensures |ms| == |members| && forall i :: 0 <= i < |ms| ==> ms[i] == MemberSaid(members[i])
  {
    seq(|members|, i requires 0 <= i < |members| => assert WellItem(members[i], true); MemberSaid(members[i]))
  }

  lemma {:induction false} ObjReads(doc: Doc, depth: int, rest: Bytes)
    requires Well(doc) && doc.Obj?
    ensures ReadValue(Text(doc) + rest, depth) == if Fits(doc, MAX_DEPTH - depth) then Some((Meaning(doc), rest)) else None
    decreases doc, 0
  {
    if depth <= MAX_DEPTH {
      var read := ValueReader(depth + 1);
      var ps, fits := PiecesOf(doc.members), FitEach(doc.members, MAX_DEPTH - depth - 1);
      forall i | 0 <= i < |ps| ensures PieceReads(MemberReader(read), ps[i], Said(doc.members)[i], fits[i]) {
        var it := doc.members[i];
        assert WellItem(it, true);
        DocReads(it.doc, depth + 1);
        NamedReads(read, it.name.value, Text(it.doc), Meaning(it.doc), fits[i]);
      }
      OpenedReads(OPEN_BRACE, BodyOf(doc.inside, ps, CLOSE_BRACE), rest, depth);
      ObjBodyReads(read, doc.inside, ps, Said(doc.members), fits, rest);
    }
  }

  /** A text that is a document, with blanks around it, is accepted and means what the document says, unless it
      is nested deeper than the parser allows. */
  lemma EveryDocumentIsRead(before: Bytes, doc: Doc, after: Bytes)
    requires Well(doc) && Blanks(before) && Blanks(after)
    ensures Parse(before + (Text(doc) + after)) == if Fits(doc, MAX_DEPTH) then Some(Meaning(doc)) else None
  {
    DocStarts(doc);
    assert (Text(doc) + after)[0] == Text(doc)[0];
    SkipsBlanks(before, Text(doc) + after);
    DocReads(doc, 0);
    assert after + [] == after;
    DelimitedByBlanks(after, []);
    SkipsBlanks(after, []);
    assert ValueReader(0)(Text(doc) + after) == ReadValue(Text(doc) + after, 0);
  }

  // --------------------------------------------------------------------------
  // Nothing else is
  // --------------------------------------------------------------------------

  lemma {:induction false} BlanksOf(s: Bytes) returns (w: Bytes)
    ensures Blanks(w) && s == w + SkipBlanks(s)
    decreases |s|
  {
    if s != [] && Blank(s[0]) {
      var more := BlanksOf(s[1..]);
      w := [s[0]] + more;
      ConcatAssociates([s[0]], more, SkipBlanks(s));
      assert s == [s[0]] + s[1..];
    } else {
      w := [];
      assert s == [] + s;
    }
  }

  /** The document is what was taken, and says what was read. */
  predicate IsRead(doc: Doc, levels: int, s: Bytes, v: Value, rest: Bytes) {
    Well(doc) && Fits(doc, levels) && s == Text(doc) + rest && Meaning(doc) == v
  }

  predicate IsItem(it: Item, named: bool, levels: int) {
    WellItem(it, named) && Fits(it.doc, levels)
  }

  lemma StringOf(s: Bytes) returns (chars: seq<JsonStrings.Character>)
    requires s != [] && s[0] == QUOTE && ReadString(s[1..], []).Some?
    ensures
      var (text, rest) := ReadString(s[1..], []).value;
      s == StringText(chars) + rest && FlatMap(JsonStrings.Says, chars) == text
  {
    var (text, rest) := ReadString(s[1..], []).value;
    JsonStrings.OnlySpelledStrings(s[1..], []);
    chars :| JsonStrings.SpelledAs(s[1..], [], text, rest, chars);
    var body := FlatMap(JsonStrings.TextOf, chars);
    assert [] + FlatMap(JsonStrings.Says, chars) == FlatMap(JsonStrings.Says, chars);
    ConcatAssociates([QUOTE], body + [QUOTE], rest);
    ConcatAssociates(body, [QUOTE], rest);
    assert s == [QUOTE] + s[1..];
  }

  lemma NumeralTaken(s: Bytes, n: JsonNumbers.Numeral)
    requires NumberLength(s).Some? && JsonNumbers.Allowed(n) && s[..NumberLength(s).value] == JsonNumbers.Text(n)
    ensures ReadNumber(s) == Some((NumberSaid(n), s[NumberLength(s).value..]))
  {
    NumeralSays(n);
  }

  lemma NumeralOf(s: Bytes) returns (n: JsonNumbers.Numeral)
    requires NumberLength(s).Some?
    ensures JsonNumbers.Allowed(n)
    ensures s == JsonNumbers.Text(n) + s[NumberLength(s).value..]
    ensures ReadNumber(s) == Some((NumberSaid(n), s[NumberLength(s).value..]))
  {
    JsonNumbers.TakesOnlyNumerals(s);
    n :| JsonNumbers.Allowed(n) && s[..NumberLength(s).value] == JsonNumbers.Text(n);
    NumeralTaken(s, n);
  }

  lemma ScalarOf(s: Bytes, r: (Value, Bytes), levels: int) returns (doc: Doc)
    requires s != [] && ReadScalar(s) == Some(r) && levels >= 0
    ensures IsRead(doc, levels, s, r.0, r.1)
  {
    if s[0] == QUOTE {
      var chars := StringOf(s);
      doc := Str(chars);
    } else if TRUE_WORD <= s {
      doc := Word(Bool(true));
    } else if FALSE_WORD <= s {
      doc := Word(Bool(false));
    } else if NULL_WORD <= s {
      doc := Word(Null);
    } else {
      var n := NumeralOf(s);
      doc := Num(n);
    }
  }

  /** These elements, up to the closing byte, are the row that was taken. */
  predicate IsRow(items: seq<Item>, named: bool, levels: int, close: Byte, s: Bytes, rest: Bytes) {
    && items != [] && (forall i :: 0 <= i < |items| ==> IsItem(items[i], named, levels))
    && s == Joined(PiecesOf(items), close) + rest
  }

  predicate SayItems(items: seq<Item>, vs: seq<Value>) {
    |items| == |vs| && forall i :: 0 <= i < |vs| ==> WellItem(items[i], false) && Meaning(items[i].doc) == vs[i]
  }

  predicate SayMembers(items: seq<Item>, ms: seq<Member>) {
    |items| == |ms| && forall i :: 0 <= i < |ms| ==> WellItem(items[i], true) && MemberSaid(items[i]) == ms[i]
  }

  /** How a row that is taken begins and goes on. */
  lemma RowTakes<T>(read: Reader<T>, close: Byte, s: Bytes)
    requires Row(read, close, s).Some?
    ensures read(SkipBlanks(s)).Some?
    ensures
      var (v, r) := read(SkipBlanks(s)).value;
      var t := SkipBlanks(r);
      && t != []
      && if t[0] == close then Row(read, close, s).value == ([v], t[1..])
         else
           && t[0] == COMMA && |t| <= |s| && Row(read, close, t[1..]).Some?
           && Row(read, close, s).value == ([v] + Row(read, close, t[1..]).value.0, Row(read, close, t[1..]).value.1)
  {
  }

  lemma JoinedOne(p: Piece, close: Byte, t: Bytes)
    requires t != [] && t[0] == close
    ensures p.before + (p.text + (p.after + t)) == Joined([p], close) + t[1..]
  {
    assert t == [close] + t[1..];
    JoinedSplits([p], close, t[1..]);
  }

  lemma JoinedMore(p: Piece, more: seq<Piece>, close: Byte, t: Bytes, rest: Bytes)
    requires more != [] && t != [] && t[0] == COMMA && t[1..] == Joined(more, close) + rest
    ensures p.before + (p.text + (p.after + t)) == Joined([p] + more, close) + rest
  {
    assert t == [COMMA] + t[1..];
    assert ([p] + more)[1..] == more;
    JoinedSplits([p] + more, close, rest);
  }

  /** An element and the closing byte. */
  lemma RowEnds(it: Item, close: Byte, t: Bytes)
    requires t != [] && t[0] == close
    ensures PieceOf(it).before + (PieceOf(it).text + (PieceOf(it).after + t)) == Joined(PiecesOf([it]), close) + t[1..]
  {
    assert PiecesOf([it]) == [PieceOf(it)];
    JoinedOne(PieceOf(it), close, t);
  }

  lemma PiecesInFront(it: Item, more: seq<Item>)
    ensures PiecesOf([it] + more) == [PieceOf(it)] + PiecesOf(more)
  {
  }

  /** An element, a comma, and a row. */
  lemma RowGrows(it: Item, more: seq<Item>, close: Byte, t: Bytes, rest: Bytes)
    requires more != [] && t != [] && t[0] == COMMA && t[1..] == Joined(PiecesOf(more), close) + rest
    ensures
      PieceOf(it).before + (PieceOf(it).text + (PieceOf(it).after + t)) == Joined(PiecesOf([it] + more), close) + rest
  {
    PiecesInFront(it, more);
    JoinedMore(PieceOf(it), PiecesOf(more), close, t, rest);
  }

  lemma ItemsInFront(it: Item, more: seq<Item>, named: bool, levels: int)
    requires IsItem(it, named, levels) && forall i :: 0 <= i < |more| ==> IsItem(more[i], named, levels)
    ensures forall i :: 0 <= i < |[it] + more| ==> IsItem(([it] + more)[i], named, levels)
  {
  }

  /** Blanks in front of a row belong to its first element. */
  lemma RowPadded(items: seq<Item>, w: Bytes, named: bool, levels: int, close: Byte, s: Bytes, rest: Bytes)
    returns (padded: seq<Item>)
    requires Blanks(w) && IsRow(items, named, levels, close, s, rest)
    ensures IsRow(padded, named, levels, close, w + s, rest)
    ensures forall vs :: SayItems(items, vs) ==> SayItems(padded, vs)
    ensures forall ms :: SayMembers(items, ms) ==> SayMembers(padded, ms)
  {
    var it := items[0];
    padded := [it.(before := w + it.before)] + items[1..];
    var (ps, qs) := (PiecesOf(items), PiecesOf(padded));
    assert ps[1..] == qs[1..];
    assert forall i :: 0 <= i < |items| ==> padded[i].doc == items[i].doc && padded[i].name == items[i].name;
    JoinedSplits(ps, close, rest);
    JoinedSplits(qs, close, rest);
    ConcatAssociates(w, it.before, ps[0].text + (ps[0].after + Onward(ps, close, rest)));
  }

  /** Whatever this reader takes is a document, and what it reads is what that says. */
  ghost predicate TakesDocs(read: Reader<Value>, levels: int) {
    forall s: Bytes {:trigger read(s)} | read(s).Some? :: exists doc :: IsRead(doc, levels, s, read(s).value.0, read(s).value.1)
  }

  /** This is the member that was taken, whatever blanks are around it. */
  predicate IsMember(it: Item, levels: int, s: Bytes, m: Member, rest: Bytes) {
    IsItem(it, true, levels) && MemberSaid(it) == m && s == PieceOf(it).text + rest
  }

  ghost predicate TakesMembers(read: Reader<Member>, levels: int) {
    forall s: Bytes {:trigger read(s)} | read(s).Some? :: exists it :: IsMember(it, levels, s, read(s).value.0, read(s).value.1)
  }

  // ---- arrays

  lemma ItemSays(doc: Doc, before: Bytes, after: Bytes, levels: int, u: Bytes, v: Value, t: Bytes)
    requires Blanks(before) && Blanks(after) && IsRead(doc, levels, u, v, after + t)
    ensures
      var it := Item(before, None, doc, after);
      && IsItem(it, false, levels) && Meaning(it.doc) == v
      && before + u == PieceOf(it).before + (PieceOf(it).text + (PieceOf(it).after + t))
  {
  }

  lemma SayInFront(it: Item, more: seq<Item>, vs: seq<Value>)
    requires WellItem(it, false) && SayItems(more, vs)
    ensures SayItems([it] + more, [Meaning(it.doc)] + vs)
  {
  }

  lemma {:induction false} ItemsOf(read: Reader<Value>, s: Bytes, levels: int) returns (items: seq<Item>)
    requires TakesDocs(read, levels) && Row(read, CLOSE_BRACKET, s).Some?
    ensures
      var (vs, rest) := Row(read, CLOSE_BRACKET, s).value;
      IsRow(items, false, levels, CLOSE_BRACKET, s, rest) && SayItems(items, vs)
    decreases |s|
  {
    RowTakes(read, CLOSE_BRACKET, s);
    var (v, r) := read(SkipBlanks(s)).value;
    var doc :| IsRead(doc, levels, SkipBlanks(s), v, r);
    var before := BlanksOf(s);
    var after := BlanksOf(r);
    var t := SkipBlanks(r);
    var it := Item(before, None, doc, after);
    ItemSays(doc, before, after, levels, SkipBlanks(s), v, t);
    if t[0] == CLOSE_BRACKET {
      RowEnds(it, CLOSE_BRACKET, t);
      items := [it];
    } else {
      var more := ItemsOf(read, t[1..], levels);
      var (vs, rest) := Row(read, CLOSE_BRACKET, t[1..]).value;
      SayInFront(it, more, vs);
      ItemsInFront(it, more, false, levels);
      RowGrows(it, more, CLOSE_BRACKET, t, rest);
      items := [it] + more;
    }
  }

  lemma ArrIsRead(inside: Bytes, items: seq<Item>, vs: seq<Value>, levels: int, s: Bytes, rest: Bytes)
    requires Blanks(inside) && levels >= 0
    requires forall i :: 0 <= i < |items| ==> IsItem(items[i], false, levels - 1)
    requires SayItems(items, vs)
    requires s == BodyOf(inside, PiecesOf(items), CLOSE_BRACKET) + rest
    ensures IsRead(Arr(inside, items), levels, [OPEN_BRACKET] + s, Array(vs), rest)
  {
    ConcatAssociates([OPEN_BRACKET], BodyOf(inside, PiecesOf(items), CLOSE_BRACKET), rest);
    assert Meaning(Arr(inside, items)).items == vs;
  }

  lemma ArrOf(read: Reader<Value>, s: Bytes, levels: int) returns (doc: Doc)
    requires levels >= 0 && TakesDocs(read, levels - 1) && ReadArray(read, s).Some?
    ensures IsRead(doc, levels, [OPEN_BRACKET] + s, ReadArray(read, s).value.0, ReadArray(read, s).value.1)
  {
    var (v, rest) := ReadArray(read, s).value;
    var w := BlanksOf(s);
    var t := SkipBlanks(s);
    var items: seq<Item> := [];
    if t != [] && t[0] == CLOSE_BRACKET {
      assert t == [CLOSE_BRACKET] + t[1..];
      ConcatAssociates(w, [CLOSE_BRACKET], t[1..]);
    } else {
      items := ItemsOf(read, t, levels - 1);
      items := RowPadded(items, w, false, levels - 1, CLOSE_BRACKET, t, rest);
    }
    ArrIsRead(w, items, v.items, levels, s, rest);
    doc := Arr(w, items);
  }

  // ---- objects

  lemma MemberOf(read: Reader<Value>, s: Bytes, levels: int) returns (it: Item)
    requires TakesDocs(read, levels) && ReadMember(read, s).Some?
    ensures IsMember(it, levels, s, ReadMember(read, s).value.0, ReadMember(read, s).value.1)
  {
    var chars := StringOf(s);
    var afterKey := ReadString(s[1..], []).value.1;
    var b1 := BlanksOf(afterKey);
    var c := SkipBlanks(afterKey);
    assert c == [COLON] + c[1..];
    var b2 := BlanksOf(c[1..]);
    var u := SkipBlanks(c[1..]);
    var doc :| IsRead(doc, levels, u, read(u).value.0, read(u).value.1);
    it := Item([], Some(Name(chars, b1, b2)), doc, []);
    NameSplits(Name(chars, b1, b2), Text(doc), read(u).value.1);
  }

  lemma MembersTaken(read: Reader<Value>, levels: int)
    requires TakesDocs(read, levels)
    ensures TakesMembers(MemberReader(read), levels)
  {
    forall s: Bytes | MemberReader(read)(s).Some?
      ensures exists it :: IsMember(it, levels, s, MemberReader(read)(s).value.0, MemberReader(read)(s).value.1)
    {
      var it := MemberOf(read, s, levels);
    }
  }

  /** The member with the blanks around it. */
  function Spread(bare: Item, before: Bytes, after: Bytes): Item {
    bare.(before := before, after := after)
  }

  lemma SpreadSays(bare: Item, before: Bytes, after: Bytes, levels: int, u: Bytes, m: Member, t: Bytes)
    requires Blanks(before) && Blanks(after) && IsMember(bare, levels, u, m, after + t)
    ensures
      var it := Spread(bare, before, after);
      && IsItem(it, true, levels) && MemberSaid(it) == m
      && before + u == PieceOf(it).before + (PieceOf(it).text + (PieceOf(it).after + t))
  {
  }

  lemma SayGrows(it: Item, more: seq<Item>, ms: seq<Member>)
    requires WellItem(it, true) && SayMembers(more, ms)
    ensures SayMembers([it] + more, [MemberSaid(it)] + ms)
  {
  }

  lemma {:induction false} MembersOf(read: Reader<Member>, s: Bytes, levels: int) returns (items: seq<Item>)
    requires TakesMembers(read, levels) && Row(read, CLOSE_BRACE, s).Some?
    ensures
      var (ms, rest) := Row(read, CLOSE_BRACE, s).value;
      IsRow(items, true, levels, CLOSE_BRACE, s, rest) && SayMembers(items, ms)
    decreases |s|
  {
    RowTakes(read, CLOSE_BRACE, s);
    var (m, r) := read(SkipBlanks(s)).value;
    var bare :| IsMember(bare, levels, SkipBlanks(s), m, r);
    var before := BlanksOf(s);
    var after := BlanksOf(r);
    var t := SkipBlanks(r);
    var it := Spread(bare, before, after);
    SpreadSays(bare, before, after, levels, SkipBlanks(s), m, t);
    if t[0] == CLOSE_BRACE {
      RowEnds(it, CLOSE_BRACE, t);
      items := [it];
    } else {
      var more := MembersOf(read, t[1..], levels);
      var (ms, rest) := Row(read, CLOSE_BRACE, t[1..]).value;
      SayGrows(it, more, ms);
      ItemsInFront(it, more, true, levels);
      RowGrows(it, more, CLOSE_BRACE, t, rest);
      items := [it] + more;
    }
  }

  lemma ObjIsRead(inside: Bytes, items: seq<Item>, ms: seq<Member>, levels: int, s: Bytes, rest: Bytes)
    requires Blanks(inside) && levels >= 0
    requires forall i :: 0 <= i < |items| ==> IsItem(items[i], true, levels - 1)
    requires SayMembers(items, ms)
    requires s == BodyOf(inside, PiecesOf(items), CLOSE_BRACE) + rest
    ensures IsRead(Obj(inside, items), levels, [OPEN_BRACE] + s, Object(SetAll([], ms)), rest)
  {
    ConcatAssociates([OPEN_BRACE], BodyOf(inside, PiecesOf(items), CLOSE_BRACE), rest);
    assert Said(items) == ms;
    SetAllMerges(ms);
  }

  lemma ObjOf(read: Reader<Value>, s: Bytes, levels: int) returns (doc: Doc)
    requires levels >= 0 && TakesDocs(read, levels - 1) && ReadObject(read, s).Some?
    ensures IsRead(doc, levels, [OPEN_BRACE] + s, ReadObject(read, s).value.0, ReadObject(read, s).value.1)
  {
    var rest := ReadObject(read, s).value.1;
    var w := BlanksOf(s);
    var t := SkipBlanks(s);
    var items: seq<Item>, ms: seq<Member> := [], [];
    if t != [] && t[0] == CLOSE_BRACE {
      assert t == [CLOSE_BRACE] + t[1..];
      ConcatAssociates(w, [CLOSE_BRACE], t[1..]);
    } else {
      MembersTaken(read, levels - 1);
      items := MembersOf(MemberReader(read), t, levels - 1);
      ms := Row(MemberReader(read), CLOSE_BRACE, t).value.0;
      items := RowPadded(items, w, true, levels - 1, CLOSE_BRACE, t, rest);
    }
    ObjIsRead(w, items, ms, levels, s, rest);
    doc := Obj(w, items);
  }

  // ---- any document

  lemma NestedOf(read: Reader<Value>, s: Bytes, r: (Value, Bytes), levels: int) returns (doc: Doc)
    requires levels >= 0 && TakesDocs(read, levels - 1) && s != []
    requires s[0] == OPEN_BRACE || s[0] == OPEN_BRACKET
    requires Some(r) == if s[0] == OPEN_BRACE then ReadObject(read, s[1..]) else ReadArray(read, s[1..])
    ensures IsRead(doc, levels, s, r.0, r.1)
  {
    assert s == [s[0]] + s[1..];
    if s[0] == OPEN_BRACE {
      doc := ObjOf(read, s[1..], levels);
    } else {
      doc := ArrOf(read, s[1..], levels);
    }
  }

  lemma ReadingGoes(s: Bytes, depth: int, r: (Value, Bytes))
    requires ReadValue(s, depth) == Some(r)
    ensures depth <= MAX_DEPTH && s != []
    ensures Some(r) ==
            if s[0] == OPEN_BRACE then ReadObject(ValueReader(depth + 1), s[1..])
            else if s[0] == OPEN_BRACKET then ReadArray(ValueReader(depth + 1), s[1..])
            else ReadScalar(s)
  {
  }

  lemma {:induction false} DocOf(s: Bytes, r: (Value, Bytes), depth: int) returns (doc: Doc)
    requires ReadValue(s, depth) == Some(r)
    ensures IsRead(doc, MAX_DEPTH - depth, s, r.0, r.1)
    decreases MAX_DEPTH + 1 - depth, 1
  {
    ReadingGoes(s, depth, r);
    if s[0] == OPEN_BRACE || s[0] == OPEN_BRACKET {
      DeeperDocs(depth);
      doc := NestedOf(ValueReader(depth + 1), s, r, MAX_DEPTH - depth);
    } else {
      doc := ScalarOf(s, r, MAX_DEPTH - depth);
    }
  }

  lemma {:induction false} DeeperDocs(depth: int)
    requires depth <= MAX_DEPTH
    ensures TakesDocs(ValueReader(depth + 1), MAX_DEPTH - depth - 1)
    decreases MAX_DEPTH + 1 - depth, 0
  {
    var read, levels := ValueReader(depth + 1), MAX_DEPTH - depth - 1;
    forall s: Bytes | read(s).Some?
      ensures exists doc :: IsRead(doc, levels, s, read(s).value.0, read(s).value.1)
    {
      var doc := DocOf(s, read(s).value, depth + 1);
    }
  }

  lemma AllBlanks(s: Bytes) returns (w: Bytes)
    requires SkipBlanks(s) == []
    ensures Blanks(w) && s == w
  {
    w := BlanksOf(s);
    assert w + [] == w;
  }

  lemma ParseGoes(text: Bytes)
    requires Parse(text).Some?
    ensures
      var r := ReadValue(SkipBlanks(text), 0);
      r.Some? && SkipBlanks(r.value.1) == [] && Parse(text) == Some(r.value.0)
  {
  }

  /** Nothing else is accepted: an accepted text is a document of the grammar, nested no deeper than allowed,
      between blanks, and what was read is what it says. */
  lemma OnlyDocumentsAreRead(text: Bytes) returns (before: Bytes, doc: Doc, after: Bytes)
    requires Parse(text).Some?
    ensures Well(doc) && Blanks(before) && Blanks(after) && Fits(doc, MAX_DEPTH)
    ensures text == before + (Text(doc) + after) && Parse(text) == Some(Meaning(doc))
  {
    ParseGoes(text);
    var s := SkipBlanks(text);
    var r := ReadValue(s, 0).value;
    before := BlanksOf(text);
    after := AllBlanks(r.1);
    doc := DocOf(s, r, 0);
  }

  // --------------------------------------------------------------------------
  // What the writer prints
  // --------------------------------------------------------------------------

  /** No blanks anywhere. */
  predicate Compact(doc: Doc)
    decreases doc
  {
    match doc
    case Arr(inside, items) => inside == [] && forall i :: 0 <= i < |items| ==> CompactItem(items[i])
    case Obj(inside, members) => inside == [] && forall i :: 0 <= i < |members| ==> CompactItem(members[i])
    case _ => true
  }

  predicate CompactItem(it: Item)
    decreases it
  {
    && it.before == [] && it.after == [] && Compact(it.doc)
    && (it.name.Some? ==> it.name.value.before == [] && it.name.value.after == [])
  }

  /** No object repeats a name. */
  predicate Plain(doc: Doc)
    requires Well(doc)
    decreases doc
  {
    match doc
    case Arr(_, items) => forall i :: 0 <= i < |items| ==> PlainItem(items[i], false)
    case Obj(_, members) =>
      DistinctKeys(Said(members)) && forall i :: 0 <= i < |members| ==> PlainItem(members[i], true)
    case _ => true
  }

  predicate PlainItem(it: Item, named: bool)
    decreases it
  {
    WellItem(it, named) && Plain(it.doc)
  }

  /** Then the document is nested as deep as the value it says. */
  lemma {:induction false} PlainFits(doc: Doc, levels: int)
    requires Well(doc) && Plain(doc)
    ensures Fits(doc, levels) <==> Height(Meaning(doc)) <= levels
    decreases doc, 1
  {
    match doc
    case Arr(_, _) => PlainArrFits(doc, levels);
    case Obj(_, _) => PlainObjFits(doc, levels);
    case _ =>
  }

  lemma {:induction false} PlainArrFits(doc: Doc, levels: int)
    requires Well(doc) && Plain(doc) && doc.Arr?
    ensures Fits(doc, levels) <==> Height(Meaning(doc)) <= levels
    decreases doc, 0
  {
    var vs := Meaning(doc).items;
    forall i | 0 <= i < |vs| ensures Fits(doc.items[i].doc, levels - 1) <==> 1 + Height(vs[i]) <= levels {
      assert PlainItem(doc.items[i], false);
      PlainFits(doc.items[i].doc, levels - 1);
    }
    ItemsHeightFits(vs, levels);
  }

  lemma PlainObjSays(doc: Doc)
    requires Well(doc) && Plain(doc) && doc.Obj?
    ensures Meaning(doc) == Object(Said(doc.members))
  {
    SetAllMerges(Said(doc.members));
    SetAllDistinct(Said(doc.members));
  }

  lemma {:induction false} PlainObjFits(doc: Doc, levels: int)
    requires Well(doc) && Plain(doc) && doc.Obj?
    ensures Fits(doc, levels) <==> Height(Meaning(doc)) <= levels
    decreases doc, 0
  {
    var ms := Said(doc.members);
    PlainObjSays(doc);
    forall i | 0 <= i < |ms| ensures Fits(doc.members[i].doc, levels - 1) <==> 1 + Height(ms[i].value) <= levels {
      assert PlainItem(doc.members[i], true);
      PlainFits(doc.members[i].doc, levels - 1);
    }
    MembersHeightFits(ms, levels);
  }

  /** This document is what the writer prints of the value. */
  predicate IsPrinted(doc: Doc, v: Value) {
    Printable(v) && Well(doc) && Plain(doc) && Compact(doc) && Text(doc) == Dump(v) && Meaning(doc) == v
  }

  lemma {:induction false} PrintedString(s: Bytes) returns (chars: seq<JsonStrings.Character>)
    ensures StringText(chars) == Quoted(s) && FlatMap(JsonStrings.Says, chars) == s
    ensures FlatMap(JsonStrings.TextOf, chars) == FlatMap(EscapeByte, s)
    decreases |s|
  {
    if s == [] {
      chars := [];
    } else {
      var more := PrintedString(s[1..]);
      JsonStrings.WriterSpells(s[0]);
      chars := [JsonStrings.Spelled(s[0])] + more;
      assert chars[1..] == more;
      assert [s[0]] + s[1..] == s;
    }
  }

  lemma PrintedNumeral(n: JsonNumbers.Numeral, v: Value)
    requires Printable(v) && JsonNumbers.Allowed(n) && JsonNumbers.Text(n) == Dump(v) && NumberOf(Dump(v)) == v
    ensures IsPrinted(Num(n), v)
  {
    NumeralSays(n);
  }

  lemma PrintedNumber(n: int) returns (doc: Doc)
    requires Printable(Number(n))
    ensures IsPrinted(doc, Number(n))
  {
    var ds := DecimalBytes(if n < 0 then -n else n);
    IntegerIsNumeral(n);
    NumberOfInteger(n);
    PrintedNumeral(JsonNumbers.Numeral(n < 0, ds, None, None), Number(n));
    doc := Num(JsonNumbers.Numeral(n < 0, ds, None, None));
  }

  lemma PrintedLiteral(text: Bytes) returns (doc: Doc)
    requires Printable(Literal(text))
    ensures IsPrinted(doc, Literal(text))
  {
    JsonNumbers.TakesOnlyNumerals(text);
    var n :| JsonNumbers.Allowed(n) && text[..NumberLength(text).value] == JsonNumbers.Text(n);
    assert text[..|text|] == text;
    PrintedNumeral(n, Literal(text));
    doc := Num(n);
  }

  predicate ItemIsPrinted(it: Item, v: Value) {
    WellItem(it, false) && CompactItem(it) && IsPrinted(it.doc, v)
  }

  predicate MemberIsPrinted(it: Item, m: Member) {
    && WellItem(it, true) && CompactItem(it) && IsPrinted(it.doc, m.value)
    && StringText(it.name.value.chars) == Quoted(m.key) && KeyOf(it) == m.key
  }

  lemma {:induction false} JoinedIsRow(ps: seq<Piece>, texts: seq<Bytes>, close: Byte)
    requires |ps| == |texts| > 0
    requires forall i :: 0 <= i < |ps| ==> ps[i] == Piece([], texts[i], [])
    ensures Joined(ps, close) == RowText(texts, close)
    decreases |ps|
  {
    if |ps| > 1 {
      JoinedIsRow(ps[1..], texts[1..], close);
    }
    var more := if |ps| == 1 then [close] else [COMMA] + Joined(ps[1..], close);
    assert [] + more == more && [] + (texts[0] + more) == texts[0] + more;
  }

  lemma PrintedArray(vs: seq<Value>, items: seq<Item>)
    requires Printable(Array(vs)) && Pairwise(items, vs, ItemIsPrinted)
    ensures IsPrinted(Arr([], items), Array(vs))
  {
    var texts, ps := DumpItems(vs), PiecesOf(items);
    assert forall i :: 0 <= i < |ps| ==> ps[i] == Piece([], texts[i], []);
    if vs != [] {
      JoinedIsRow(ps, texts, CLOSE_BRACKET);
    }
    assert [] + [CLOSE_BRACKET] == [CLOSE_BRACKET];
    assert Meaning(Arr([], items)).items == vs;
  }

  lemma NamePrinted(name: Name, key: Bytes, value: Bytes)
    requires name.before == [] && name.after == [] && StringText(name.chars) == Quoted(key)
    ensures NameText(name, value) == MemberText(key, value)
  {
    assert [] + value == value && [] + ([COLON] + value) == [COLON] + value;
  }

  lemma ObjectText(ms: seq<Member>, items: seq<Item>)
    requires Printable(Object(ms)) && Pairwise(items, ms, MemberIsPrinted)
    ensures Text(Obj([], items)) == Dump(Object(ms))
  {
    var texts, ps := DumpMembers(ms), PiecesOf(items);
    forall i | 0 <= i < |ps| ensures ps[i] == Piece([], texts[i], []) {
      assert MemberIsPrinted(items[i], ms[i]);
      NamePrinted(items[i].name.value, ms[i].key, Dump(ms[i].value));
    }
    if ms != [] {
      JoinedIsRow(ps, texts, CLOSE_BRACE);
    }
    assert [] + [CLOSE_BRACE] == [CLOSE_BRACE];
  }

  lemma ObjectSays(ms: seq<Member>, items: seq<Item>)
    requires DistinctKeys(ms) && Pairwise(items, ms, MemberIsPrinted)
    ensures Well(Obj([], items)) && Compact(Obj([], items)) && Meaning(Obj([], items)) == Object(ms)
  {
    assert forall i :: 0 <= i < |items| ==> MemberIsPrinted(items[i], ms[i]);
    assert Said(items) == ms;
    SetAllMerges(ms);
    SetAllDistinct(ms);
  }

  lemma PrintedObject(ms: seq<Member>, items: seq<Item>)
    requires Printable(Object(ms)) && Pairwise(items, ms, MemberIsPrinted)
    ensures IsPrinted(Obj([], items), Object(ms))
  {
    ObjectText(ms, items);
    ObjectSays(ms, items);
  }

  /** The writer prints a document of the grammar, without blanks, that says the value. */
  lemma {:induction false} WritesDocuments(v: Value) returns (doc: Doc)
    requires Printable(v)
    ensures IsPrinted(doc, v)
    decreases v, 1
  {
    match v
    case Number(n) => doc := PrintedNumber(n);
    case Literal(text) => doc := PrintedLiteral(text);
    case String(s) =>
      var chars := PrintedString(s);
      doc := Str(chars);
    case Array(vs) =>
      var items := WritesItems(vs);
      PrintedArray(vs, items);
      doc := Arr([], items);
    case Object(ms) =>
      var items := WritesMembers(ms);
      PrintedObject(ms, items);
      doc := Obj([], items);
    case _ => doc := Word(v);
  }

  lemma {:induction false} WritesItems(vs: seq<Value>) returns (items: seq<Item>)
    requires PrintableItems(vs)
    ensures Pairwise(items, vs, ItemIsPrinted)
    decreases vs, 0
  {
    if vs == [] {
      items := [];
    } else {
      var doc := WritesDocuments(vs[0]);
      var more := WritesItems(vs[1..]);
      items := [Item([], None, doc, [])] + more;
      PairwiseLonger(items[0], more, vs, ItemIsPrinted);
    }
  }

  lemma {:induction false} WritesMembers(ms: seq<Member>) returns (items: seq<Item>)
    requires PrintableMembers(ms)
    ensures Pairwise(items, ms, MemberIsPrinted)
    decreases ms, 0
  {
    if ms == [] {
      items := [];
    } else {
      var chars := PrintedString(ms[0].key);
      var doc := WritesDocuments(ms[0].value);
      var more := WritesMembers(ms[1..]);
      items := [Item([], Some(Name(chars, [], [])), doc, [])] + more;
      PairwiseLonger(items[0], more, ms, MemberIsPrinted);
    }
  }

  /** Parsing the printed form of a value gives the value back exactly when it nests no deeper
      than the parser allows; deeper values are refused. */
  lemma ParseUndoesDump(v: Value)
    requires Printable(v)
    ensures Parse(Dump(v)) == if Height(v) <= MAX_DEPTH then Some(v) else None
  {
    var doc := WritesDocuments(v);
    PlainFits(doc, MAX_DEPTH);
    EveryDocumentIsRead([], doc, []);
    assert [] + (Text(doc) + []) == Dump(v);
  }
}
