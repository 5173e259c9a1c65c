/**
 The simulator's JSON writer and parser, on byte strings. Numbers are exact for the integers
 the writer prints without an exponent; any other number is its literal, of which the writer
 keeps ten digits.
 */
module Json {
  import opened Bytes
  import opened Options
  import opened Seqs

  datatype Value =
    | Null
    | Bool(b: bool)
    | Number(n: int)
    | Literal(text: Bytes)            // any other number, as its literal
    | String(s: Bytes)
    | Array(items: seq<Value>)
    | Object(members: seq<Member>)

  datatype Member = Member(key: Bytes, value: Value)

  const MAX_DEPTH: int := 32
  const EXACT: nat := 1_000_000_000_000_000

  const QUOTE: Byte := 0x22
  const BACKSLASH: Byte := 0x5C
  const COMMA: Byte := 0x2C
  const COLON: Byte := 0x3A
  const OPEN_BRACKET: Byte := 0x5B
  const CLOSE_BRACKET: Byte := 0x5D
  const OPEN_BRACE: Byte := 0x7B
  const CLOSE_BRACE: Byte := 0x7D
  const MINUS: Byte := 0x2D
  const TRUE_WORD: Bytes := [0x74, 0x72, 0x75, 0x65]
  const FALSE_WORD: Bytes := [0x66, 0x61, 0x6C, 0x73, 0x65]
  const NULL_WORD: Bytes := [0x6E, 0x75, 0x6C, 0x6C]

  // --------------------------------------------------------------------------
  // Values
  // --------------------------------------------------------------------------

  /** Sets a member, in place when the key is there already. */
  function SetMember(members: seq<Member>, m: Member): seq<Member> {
    if members == [] then [m]
    else if members[0].key == m.key then [m] + members[1..]
    else [members[0]] + SetMember(members[1..], m)
  }

  predicate DistinctKeys(members: seq<Member>) {
    forall i, j :: 0 <= i < j < |members| ==> members[i].key != members[j].key
  }

  /** Values the writer prints: members with different names, and finite numbers. */
  predicate Printable(v: Value)
    decreases v
  {
    match v
    case Number(n) => -(EXACT as int) < n < EXACT
    case Literal(text) => IsLiteral(text)
    case Array(items) => forall i :: 0 <= i < |items| ==> Printable(items[i])
    case Object(members) =>
      DistinctKeys(members) && forall i :: 0 <= i < |members| ==> Printable(members[i].value)
    case _ => true
  }

  /** The text is one number literal, of no exact integer. */
  predicate IsLiteral(text: Bytes) {
    NumberLength(text) == Some(|text|) && NumberOf(text) == Literal(text)
  }

  function Max(a: int, b: int): int {
    if a < b then b else a
  }

  /** Levels of nesting below a value. */
  function Height(v: Value): nat
    decreases v, 1
  {
    match v
    case Array(items) => ItemsHeight(items)
    case Object(members) => MembersHeight(members)
    case _ => 0
  }

  function ItemsHeight(items: seq<Value>): nat
    decreases items, 0
  {
    if items == [] then 0 else Max(1 + Height(items[0]), ItemsHeight(items[1..]))
  }

  function MembersHeight(members: seq<Member>): nat
    decreases members, 0
  {
    if members == [] then 0 else Max(1 + Height(members[0].value), MembersHeight(members[1..]))
  }

  // --------------------------------------------------------------------------
  // Writing
  // --------------------------------------------------------------------------

  function HexDigit(d: nat): Byte
    requires d < 16
  {
    if d < 10 then 0x30 + d else 0x61 + d - 10
  }

  function EscapeByte(c: Byte): Bytes {
    if c == QUOTE then [BACKSLASH, QUOTE]
    else if c == BACKSLASH then [BACKSLASH, BACKSLASH]
    else if c == 0x0A then [BACKSLASH, 0x6E]
    else if c == 0x0D then [BACKSLASH, 0x72]
    else if c == 0x09 then [BACKSLASH, 0x74]
    else if c < 0x20 then [BACKSLASH, 0x75, 0x30, 0x30, HexDigit(c / 16), HexDigit(c % 16)]
    else [c]
  }

  /** The escaped characters of a string and the closing quote. */
  function StringTail(s: Bytes): Bytes {
    FlatMap(EscapeByte, s) + [QUOTE]
  }

  function Quoted(s: Bytes): Bytes {
    [QUOTE] + StringTail(s)
  }

  function DecimalBytes(n: nat): (ds: Bytes)
    ensures ds != []
    ensures forall i :: 0 <= i < |ds| ==> Digit(ds[i])
    ensures n > 0 ==> ds[0] != 0x30
  {
    if n < 10 then [0x30 + n] else DecimalBytes(n / 10) + [0x30 + n % 10]
  }

  function Integer(n: int): Bytes {
    if n < 0 then [MINUS] + DecimalBytes(-n) else DecimalBytes(n)
  }

  /** Texts separated by commas, and the closing byte. */
  function RowText(texts: seq<Bytes>, close: Byte): Bytes
    requires texts != []
  {
    texts[0] + if |texts| == 1 then [close] else [COMMA] + RowText(texts[1..], close)
  }

  function BodyText(texts: seq<Bytes>, close: Byte): Bytes {
    if texts == [] then [close] else RowText(texts, close)
  }

  function Dump(v: Value): Bytes
    requires Printable(v)
    decreases v, 1
  {
    match v
    case Null => NULL_WORD
    case Bool(b) => if b then TRUE_WORD else FALSE_WORD
    case Number(n) => Integer(n)
    case Literal(text) => text
    case String(s) => Quoted(s)
    case Array(items) => [OPEN_BRACKET] + BodyText(DumpItems(items), CLOSE_BRACKET)
    case Object(members) => [OPEN_BRACE] + BodyText(DumpMembers(members), CLOSE_BRACE)
  }

  predicate PrintableItems(items: seq<Value>) {
    forall i :: 0 <= i < |items| ==> Printable(items[i])
  }

  predicate PrintableMembers(members: seq<Member>) {
    forall i :: 0 <= i < |members| ==> Printable(members[i].value)
  }

  function DumpItems(items: seq<Value>): (texts: seq<Bytes>)
    requires PrintableItems(items)
    ensures |texts| == |items|
    ensures forall i :: 0 <= i < |items| ==> texts[i] == Dump(items[i])
    decreases items, 0
  {
    if items == [] then [] else [Dump(items[0])] + DumpItems(items[1..])
  }

  /** A member's name, a colon, and the text of its value. */
  function MemberText(key: Bytes, value: Bytes): Bytes {
    Quoted(key) + ([COLON] + value)
  }

  function DumpMembers(members: seq<Member>): (texts: seq<Bytes>)
    requires PrintableMembers(members)
    ensures |texts| == |members|
    ensures forall i :: 0 <= i < |members| ==> texts[i] == MemberText(members[i].key, Dump(members[i].value))
    decreases members, 0
  {
    if members == [] then []
    else [MemberText(members[0].key, Dump(members[0].value))] + DumpMembers(members[1..])
  }

  // --------------------------------------------------------------------------
  // Reading: each function returns what it read and the input left over
  // --------------------------------------------------------------------------

  predicate Blank(c: Byte) {
    c == 0x20 || c == 0x09 || c == 0x0A || c == 0x0D
  }

  predicate Digit(c: Byte) {
    0x30 <= c <= 0x39
  }

  function SkipBlanks(s: Bytes): (r: Bytes)
    ensures |r| <= |s|
  {
    if s != [] && Blank(s[0]) then SkipBlanks(s[1..]) else s
  }

  predicate IsHex(c: Byte) {
    Digit(c) || 0x61 <= c <= 0x66 || 0x41 <= c <= 0x46
  }

  function HexValue(c: Byte): (d: nat)
    requires IsHex(c)
    ensures d < 16
  {
    if Digit(c) then c - 0x30 else if c >= 0x61 then c - 0x61 + 10 else c - 0x41 + 10
  }

  predicate AllHex(s: Bytes) {
    forall i :: 0 <= i < |s| ==> IsHex(s[i])
  }

  function HexNumber(s: Bytes): nat
    requires AllHex(s)
  {
    if s == [] then 0 else HexNumber(s[..|s| - 1]) * 16 + HexValue(s[|s| - 1])
  }

  lemma {:induction false} HexNumberBound(s: Bytes)
    requires AllHex(s)
    ensures HexNumber(s) < Pow2(4 * |s|)
  {
    if s != [] {
      var n := |s| - 1;
      HexNumberBound(s[..n]);
      assert Pow2(4 * n + 2) == 4 * Pow2(4 * n);
      assert Pow2(4 * n + 4) == 16 * Pow2(4 * n);
    }
  }

  /** Four hexadecimal digits. */
  function ReadHex4(s: Bytes): (r: Option<nat>)
    ensures r.Some? ==> |s| >= 4 && r.value < 0x1_0000
  {
    if |s| < 4 || !AllHex(s[..4]) then None
    else
      HexNumberBound(s[..4]);
      assert Pow2(8) == 256;
      Some(HexNumber(s[..4]))
  }

  function Utf8(cp: nat): Bytes
    requires cp < 0x11_0000
  {
    if cp < 0x80 then [cp]
    else if cp < 0x800 then [0xC0 + cp / 64, 0x80 + cp % 64]
    else if cp < 0x1_0000 then [0xE0 + cp / 4096, 0x80 + cp / 64 % 64, 0x80 + cp % 64]
    else [0xF0 + cp / 262144, 0x80 + cp / 4096 % 64, 0x80 + cp / 64 % 64, 0x80 + cp % 64]
  }

  /** The text of a \u escape (after the u) and how many bytes it took. */
  function ReadUnicode(s: Bytes): (r: Option<(Bytes, nat)>)
    ensures r.Some? ==> r.value.1 <= |s|
  {
    var high := ReadHex4(s);
    if high.None? then None
    else if 0xD800 <= high.value <= 0xDBFF then
      if |s| < 6 || s[4] != BACKSLASH || s[5] != 0x75 then None
      else
        var low := ReadHex4(s[6..]);
        if low.None? || low.value < 0xDC00 || low.value > 0xDFFF then None
        else Some((Utf8(0x1_0000 + (high.value - 0xD800) * 1024 + (low.value - 0xDC00)), 10))
    else if 0xDC00 <= high.value <= 0xDFFF then None
    else Some((Utf8(high.value), 4))
  }

  /** One character of a string, or one escape: its text and how many bytes it took. */
  function ReadChar(s: Bytes): (r: Option<(Bytes, nat)>)
    requires s != []
    ensures r.Some? ==> 0 < r.value.1 <= |s|
  {
    var c := s[0];
    if c < 0x20 then None
    else if c != BACKSLASH then Some(([c], 1))
    else if |s| < 2 then None
    else
      var e := s[1];
      if e == QUOTE || e == BACKSLASH || e == 0x2F then Some(([e], 2))
      else if e == 0x62 then Some(([0x08], 2))
      else if e == 0x66 then Some(([0x0C], 2))
      else if e == 0x6E then Some(([0x0A], 2))
      else if e == 0x72 then Some(([0x0D], 2))
      else if e == 0x74 then Some(([0x09], 2))
      else if e == 0x75 then
        var u := ReadUnicode(s[2..]);
        if u.None? then None else Some((u.value.0, 2 + u.value.1))
      else None
  }

  /** The rest of a string after its opening quote, on top of what was read of it. */
  function ReadString(s: Bytes, out: Bytes): (r: Option<(Bytes, Bytes)>)
    ensures r.Some? ==> |r.value.1| < |s|
    decreases |s|
  {
    if s == [] then None
    else if s[0] == QUOTE then Some((out, s[1..]))
    else
      var c := ReadChar(s);
      if c.None? then None else ReadString(s[c.value.1..], out + c.value.0)
  }

  /** One character or escape of a string. */
  lemma StringStep(s: Bytes, out: Bytes, c: Bytes, n: nat)
    requires s != [] && s[0] != QUOTE && ReadChar(s) == Some((c, n))
    ensures ReadString(s, out) == ReadString(s[n..], out + c)
  {
  }

  lemma StringFails(s: Bytes, out: Bytes)
    requires s == [] || (s[0] != QUOTE && ReadChar(s).None?)
    ensures ReadString(s, out).None?
  {
  }

  function DigitsLength(s: Bytes): (n: nat)
    ensures n <= |s|
    ensures n > 0 <==> s != [] && Digit(s[0])
  {
    if s == [] || !Digit(s[0]) then 0 else 1 + DigitsLength(s[1..])
  }

  lemma {:induction false} DigitsLengthCounts(s: Bytes)
    ensures forall i :: 0 <= i < DigitsLength(s) ==> Digit(s[i])
    ensures DigitsLength(s) < |s| ==> !Digit(s[DigitsLength(s)])
  {
    if s != [] && Digit(s[0]) {
      DigitsLengthCounts(s[1..]);
      assert forall i :: 0 < i < DigitsLength(s) ==> s[i] == s[1..][i - 1];
    }
  }

  /** Bytes of the integer part: a lone zero, or all the digits. */
  function IntegerLength(s: Bytes): (n: nat)
    ensures n <= |s|
    ensures n > 0 <==> s != [] && Digit(s[0])
  {
    if s != [] && s[0] == 0x30 then 1 else DigitsLength(s)
  }

  /** Bytes of a fraction, 0 when there is none. */
  function FractionLength(s: Bytes): (n: Option<nat>)
    ensures n.Some? ==> n.value <= |s|
  {
    if s == [] || s[0] != 0x2E then Some(0)
    else if DigitsLength(s[1..]) == 0 then None
    else Some(1 + DigitsLength(s[1..]))
  }

  /** Bytes of an exponent, 0 when there is none. */
  function ExponentLength(s: Bytes): (n: Option<nat>)
    ensures n.Some? ==> n.value <= |s|
  {
    if s == [] || (s[0] != 0x65 && s[0] != 0x45) then Some(0)
    else
      var sign := if |s| > 1 && (s[1] == 0x2B || s[1] == MINUS) then 1 else 0;
      var digits := DigitsLength(s[1 + sign..]);
      if digits == 0 then None else Some(1 + sign + digits)
  }

  function DigitsValue(ds: Bytes): nat
    requires forall i :: 0 <= i < |ds| ==> Digit(ds[i])
  {
    if ds == [] then 0
    else
      var d := ds[|ds| - 1];
      assert Digit(d);
      DigitsValue(ds[..|ds| - 1]) * 10 + (d - 0x30)
  }

  /** The value of a literal: an exact integer when it is one the writer could have printed. */
  function NumberOf(text: Bytes): Value
    requires text != []
  {
    var ds := if text[0] == MINUS then text[1..] else text;
    if DigitsLength(ds) < |ds| then Literal(text)
    else
      DigitsLengthCounts(ds);
      var n := DigitsValue(ds);
      if n >= EXACT || (text[0] == MINUS && n == 0) then Literal(text)
      else Number(if text[0] == MINUS then -(n as int) else n as int)
  }

  function Plus(n: nat, more: Option<nat>): Option<nat> {
    if more.None? then None else Some(n + more.value)
  }

  /** Bytes of the fraction and the exponent. */
  function TailLength(s: Bytes): (n: Option<nat>)
    ensures n.Some? ==> n.value <= |s|
  {
    var fraction := FractionLength(s);
    if fraction.None? then None else Plus(fraction.value, ExponentLength(s[fraction.value..]))
  }

  /** Bytes of a number without its sign. */
  function UnsignedLength(s: Bytes): (n: Option<nat>)
    ensures n.Some? ==> 0 < n.value <= |s|
  {
    var whole := IntegerLength(s);
    if whole == 0 then None else Plus(whole, TailLength(s[whole..]))
  }

  /** A length with an optional minus sign before it. */
  function Signed(length: Bytes -> Option<nat>, s: Bytes): Option<nat> {
    if s != [] && s[0] == MINUS then Plus(1, length(s[1..])) else length(s)
  }

  function NumberLength(s: Bytes): (n: Option<nat>)
    ensures n.Some? ==> 0 < n.value <= |s|
  {
    Signed(UnsignedLength, s)
  }

  function ReadNumber(s: Bytes): (r: Option<(Value, Bytes)>) {
    var n := NumberLength(s);
    if n.None? then None else Some((NumberOf(s[..n.value]), s[n.value..]))
  }

  /** Reads one thing at the front of the input: the thing, and the input left over. */
  type Reader<!T> = Bytes -> Option<(T, Bytes)>

  /** Things separated by commas up to the closing byte. Reading goes on only after input is used up. */
  function Row<T>(read: Reader<T>, close: Byte, s: Bytes): Option<(seq<T>, Bytes)>
    decreases |s|
  {
    var first := read(SkipBlanks(s));
    if first.None? then None
    else
      var t := SkipBlanks(first.value.1);
      if t == [] then None
      else if t[0] == close then Some(([first.value.0], t[1..]))
      else if t[0] != COMMA || |t| > |s| then None
      else Before([first.value.0], Row(read, close, t[1..]))
  }

  /** A row with more things in front. */
  function Before<T>(first: seq<T>, row: Option<(seq<T>, Bytes)>): Option<(seq<T>, Bytes)> {
    if row.None? then None else Some((first + row.value.0, row.value.1))
  }

  /** A name, a colon and a value. */
  function ReadMember(read: Reader<Value>, s: Bytes): Option<(Member, Bytes)> {
    if s == [] || s[0] != QUOTE then None
    else
      var key := ReadString(s[1..], []);
      if key.None? then None
      else
        var c := SkipBlanks(key.value.1);
        if c == [] || c[0] != COLON then None
        else
          var value := read(SkipBlanks(c[1..]));
          if value.None? then None else Some((Member(key.value.0, value.value.0), value.value.1))
  }

  function MemberReader(read: Reader<Value>): Reader<Member> {
    s => ReadMember(read, s)
  }

  /** The members an object ends up with: a repeated name keeps its place and takes the last value. */
  function SetAll(members: seq<Member>, more: seq<Member>): seq<Member>
    decreases |more|
  {
    if more == [] then members else SetMember(SetAll(members, more[..|more| - 1]), more[|more| - 1])
  }

  /** An array after its opening bracket. */
  function ReadArray(read: Reader<Value>, s: Bytes): Option<(Value, Bytes)> {
    var t := SkipBlanks(s);
    if t != [] && t[0] == CLOSE_BRACKET then Some((Array([]), t[1..]))
    else
      var row := Row(read, CLOSE_BRACKET, t);
      if row.None? then None else Some((Array(row.value.0), row.value.1))
  }

  /** An object after its opening brace. */
  function ReadObject(read: Reader<Value>, s: Bytes): Option<(Value, Bytes)> {
    var t := SkipBlanks(s);
    if t != [] && t[0] == CLOSE_BRACE then Some((Object([]), t[1..]))
    else
      var row := Row(MemberReader(read), CLOSE_BRACE, t);
      if row.None? then None else Some((Object(SetAll([], row.value.0)), row.value.1))
  }

  /** A string, a word or a number. */
  function ReadScalar(s: Bytes): Option<(Value, Bytes)>
    requires s != []
  {
    if s[0] == QUOTE then
      var r := ReadString(s[1..], []);
      if r.None? then None else Some((String(r.value.0), r.value.1))
    else if TRUE_WORD <= s then Some((Bool(true), s[4..]))
    else if FALSE_WORD <= s then Some((Bool(false), s[5..]))
    else if NULL_WORD <= s then Some((Null, s[4..]))
    else if s[0] == MINUS || Digit(s[0]) then ReadNumber(s)
    else None
  }

  function ReadValue(s: Bytes, depth: int): Option<(Value, Bytes)>
    decreases MAX_DEPTH + 1 - depth, 0
  {
    if depth > MAX_DEPTH || s == [] then None
    else if s[0] == OPEN_BRACE then ReadObject(ValueReader(depth + 1), s[1..])
    else if s[0] == OPEN_BRACKET then ReadArray(ValueReader(depth + 1), s[1..])
    else ReadScalar(s)
  }

  function ValueReader(depth: int): Reader<Value>
    decreases MAX_DEPTH + 1 - depth, 1
  {
    s => ReadValue(s, depth)
  }

  /** A whole text: one value and nothing after it but blanks. */
  function Parse(text: Bytes): Option<Value> {
    var r := ReadValue(SkipBlanks(text), 0);
    if r.Some? && SkipBlanks(r.value.1) == [] then Some(r.value.0) else None
  }
}
