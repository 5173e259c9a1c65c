/** What a JSON string may be spelled like, by the table of section 7 of RFC 8259, and what it then says. */
module JsonStrings {
  import opened Bytes
  import opened Options
  import opened Seqs
  import opened Json
  import opened JsonUnicode

  /** Short escapes: the letter behind the backslash, and the byte it stands for. */
  const SHORT: map<Byte, Byte> := map[
    0x22 := 0x22,    // "  quotation mark
    0x5C := 0x5C,    // \  reverse solidus
    0x2F := 0x2F,    // /  solidus
    0x62 := 0x08,    // b  backspace
    0x66 := 0x0C,    // f  form feed
    0x6E := 0x0A,    // n  line feed
    0x72 := 0x0D,    // r  carriage return
    0x74 := 0x09     // t  tab
  ]

  /** Four hexadecimal digits, each with the case of its letter. */
  datatype Digit4 = Digit4(a: nat, b: nat, c: nat, d: nat, capA: bool, capB: bool, capC: bool, capD: bool)

  predicate IsDigit4(n: Digit4) {
    n.a < 16 && n.b < 16 && n.c < 16 && n.d < 16
  }

  function Letter(d: nat, capital: bool): Byte
    requires d < 16
  {
    if d < 10 then 0x30 + d else if capital then 0x41 + (d - 10) else 0x61 + (d - 10)
  }

  function Digits(n: Digit4): Bytes
    requires IsDigit4(n)
  {
    [Letter(n.a, n.capA), Letter(n.b, n.capB), Letter(n.c, n.capC), Letter(n.d, n.capD)]
  }

  function Unit(n: Digit4): nat {
    4096 * n.a + 256 * n.b + 16 * n.c + n.d
  }

  /** One character as it may be spelled: itself, a short escape, or one or two code units of UTF-16. */
  datatype Spelling = Raw(b: Byte) | Short(letter: Byte) | Single(unit: Digit4) | Pair(high: Digit4, low: Digit4)

  /** A raw character is no control character, quotation mark or reverse solidus; a code unit on its own is
      no surrogate, and a pair is a high and a low one. */
  predicate Allowed(sp: Spelling) {
    match sp
    case Raw(b) => b >= 0x20 && b != 0x22 && b != 0x5C
    case Short(letter) => letter in SHORT
    case Single(n) => IsDigit4(n) && !(0xD800 <= Unit(n) <= 0xDFFF)
    case Pair(high, low) =>
      IsDigit4(high) && IsDigit4(low) && 0xD800 <= Unit(high) <= 0xDBFF && 0xDC00 <= Unit(low) <= 0xDFFF
  }

  type Character = sp: Spelling | Allowed(sp) witness Raw(0x20)

  function TextOf(sp: Character): Bytes {
    match sp
    case Raw(b) => [b]
    case Short(letter) => [0x5C, letter]
    case Single(n) => [0x5C, 0x75] + Digits(n)
    case Pair(high, low) => [0x5C, 0x75] + (Digits(high) + ([0x5C, 0x75] + Digits(low)))
  }

  /** What the character says, in UTF-8. */
  function Says(sp: Character): Bytes {
    match sp
    case Raw(b) => [b]
    case Short(letter) => [SHORT[letter]]
    case Single(n) => UnitBound(n); Utf8(Unit(n))
    case Pair(high, low) => Utf8(0x1_0000 + (Unit(high) - 0xD800) * 1024 + (Unit(low) - 0xDC00))
  }

  lemma UnitBound(n: Digit4)
    requires IsDigit4(n)
    ensures Unit(n) < 0x1_0000
  {
  }

  // --------------------------------------------------------------------------
  // Every spelling is read
  // --------------------------------------------------------------------------

  lemma LetterReads(d: nat, capital: bool)
    requires d < 16
    ensures IsHex(Letter(d, capital)) && HexValue(Letter(d, capital)) == d
  {
  }

  /** Four bytes that are hexadecimal digits have the value written in positional notation. */
  lemma HexOfFour(a: Byte, b: Byte, c: Byte, d: Byte)
    requires IsHex(a) && IsHex(b) && IsHex(c) && IsHex(d)
    ensures AllHex([a, b, c, d])
    ensures HexNumber([a, b, c, d]) == 4096 * HexValue(a) + 256 * HexValue(b) + 16 * HexValue(c) + HexValue(d)
  {
    HexNumberStep([], a);
    HexNumberStep([a], b);
    HexNumberStep([a, b], c);
    HexNumberStep([a, b, c], d);
    assert [] + [a] == [a] && [a] + [b] == [a, b] && [a, b] + [c] == [a, b, c] && [a, b, c] + [d] == [a, b, c, d];
  }

  lemma DigitsRead(n: Digit4, rest: Bytes)
    requires IsDigit4(n)
    ensures ReadHex4(Digits(n) + rest) == Some(Unit(n))
  {
    LetterReads(n.a, n.capA);
    LetterReads(n.b, n.capB);
    LetterReads(n.c, n.capC);
    LetterReads(n.d, n.capD);
    HexOfFour(Letter(n.a, n.capA), Letter(n.b, n.capB), Letter(n.c, n.capC), Letter(n.d, n.capD));
    assert (Digits(n) + rest)[..4] == Digits(n);
  }

  lemma SingleReads(n: Digit4, rest: Bytes)
    requires Allowed(Single(n))
    ensures ReadUnicode(Digits(n) + rest) == Some((Says(Single(n)), 4))
  {
    DigitsRead(n, rest);
  }

  lemma PairReads(high: Digit4, low: Digit4, rest: Bytes)
    requires Allowed(Pair(high, low))
    ensures ReadUnicode(Digits(high) + ([0x5C, 0x75] + (Digits(low) + rest))) == Some((Says(Pair(high, low)), 10))
  {
    var tail := [0x5C, 0x75] + (Digits(low) + rest);
    var s := Digits(high) + tail;
    DigitsRead(high, tail);
    DigitsRead(low, rest);
    assert s[4] == 0x5C && s[5] == 0x75 && s[6..] == Digits(low) + rest;
  }

  lemma EscapeReads(sp: Character, rest: Bytes)
    requires sp.Single? || sp.Pair?
    ensures TextOf(sp)[0] == 0x5C
    ensures ReadChar(TextOf(sp) + rest) == Some((Says(sp), |TextOf(sp)|))
  {
    var s := TextOf(sp) + rest;
    assert s[0] == 0x5C && s[1] == 0x75;
    if sp.Single? {
      SingleReads(sp.unit, rest);
      assert s[2..] == Digits(sp.unit) + rest;
    } else {
      PairReads(sp.high, sp.low, rest);
      assert s[2..] == Digits(sp.high) + ([0x5C, 0x75] + (Digits(sp.low) + rest));
    }
  }

  lemma CharacterReads(sp: Character, rest: Bytes)
    ensures TextOf(sp) != [] && TextOf(sp)[0] != QUOTE
    ensures ReadChar(TextOf(sp) + rest) == Some((Says(sp), |TextOf(sp)|))
  {
    var s := TextOf(sp) + rest;
    match sp
    case Raw(_) =>
    case Short(letter) => assert s[0] == 0x5C && s[1] == letter;
    case _ => EscapeReads(sp, rest);
  }

  /** A string, however each of its characters is spelled, reads back as what they say. */
  lemma {:induction false} SpelledStringReads(sps: seq<Character>, rest: Bytes, out: Bytes)
    ensures ReadString(FlatMap(TextOf, sps) + ([QUOTE] + rest), out) == Some((out + FlatMap(Says, sps), rest))
    decreases |sps|
  {
    var tail := [QUOTE] + rest;
    if sps == [] {
      assert FlatMap(TextOf, sps) + tail == tail && tail[1..] == rest;
      assert out + FlatMap(Says, sps) == out;
    } else {
      var text, more := TextOf(sps[0]), FlatMap(TextOf, sps[1..]);
      ConcatAssociates(text, more, tail);
      CharacterReads(sps[0], more + tail);
      assert (text + (more + tail))[|text|..] == more + tail;
      StringStep(text + (more + tail), out, Says(sps[0]), |text|);
      SpelledStringReads(sps[1..], rest, out + Says(sps[0]));
      ConcatAssociates(out, Says(sps[0]), FlatMap(Says, sps[1..]));
    }
  }

  // --------------------------------------------------------------------------
  // Nothing else is
  // --------------------------------------------------------------------------

  lemma LetterOf(b: Byte) returns (d: nat, capital: bool)
    requires IsHex(b)
    ensures d < 16 && b == Letter(d, capital)
  {
    d := HexValue(b);
    capital := b < 0x61;
  }

  lemma DigitsOf(s: Bytes) returns (n: Digit4)
    requires ReadHex4(s).Some?
    ensures IsDigit4(n) && s[..4] == Digits(n) && ReadHex4(s) == Some(Unit(n))
  {
    assert IsHex(s[..4][0]) && IsHex(s[..4][1]) && IsHex(s[..4][2]) && IsHex(s[..4][3]);
    var a, capA := LetterOf(s[0]);
    var b, capB := LetterOf(s[1]);
    var c, capC := LetterOf(s[2]);
    var d, capD := LetterOf(s[3]);
    n := Digit4(a, b, c, d, capA, capB, capC, capD);
    assert s == s[..4] + s[4..] && s[..4] == Digits(n);
    DigitsRead(n, s[4..]);
  }

  lemma UnicodeOf(s: Bytes) returns (sp: Spelling)
    requires ReadUnicode(s).Some?
    ensures Allowed(sp) && Says(sp) == ReadUnicode(s).value.0
    ensures TextOf(sp) == [0x5C, 0x75] + s[..ReadUnicode(s).value.1]
  {
    var n := DigitsOf(s);
    if 0xD800 <= Unit(n) <= 0xDBFF {
      var low := DigitsOf(s[6..]);
      sp := Pair(n, low);
      assert s[..10] == s[..4] + ([s[4], s[5]] + s[6..][..4]);
    } else {
      sp := Single(n);
    }
  }

  /** Whatever is taken as a character is one that is spelled as the table allows, and says the same. */
  lemma CharacterOf(s: Bytes) returns (sp: Spelling)
    requires s != [] && s[0] != QUOTE && ReadChar(s).Some?
    ensures Allowed(sp) && Says(sp) == ReadChar(s).value.0 && TextOf(sp) == s[..ReadChar(s).value.1]
  {
    if s[0] != 0x5C {
      sp := Raw(s[0]);
    } else if s[1] != 0x75 {
      sp := Short(s[1]);
    } else {
      sp := UnicodeOf(s[2..]);
      var n := ReadUnicode(s[2..]).value.1;
      assert s[..2 + n] == [s[0], s[1]] + s[2..][..n];
    }
  }

  /** These characters and a quotation mark are what was taken, and say what was read. */
  predicate SpelledAs(s: Bytes, out: Bytes, text: Bytes, rest: Bytes, sps: seq<Character>) {
    s == FlatMap(TextOf, sps) + ([QUOTE] + rest) && text == out + FlatMap(Says, sps)
  }

  /** Nothing else is taken as a string: no other escape letter, no raw control character, no lone surrogate. */
  lemma {:induction false} OnlySpelledStrings(s: Bytes, out: Bytes)
    requires ReadString(s, out).Some?
    ensures exists sps: seq<Character> :: SpelledAs(s, out, ReadString(s, out).value.0, ReadString(s, out).value.1, sps)
    decreases |s|
  {
    var (text, rest) := ReadString(s, out).value;
    if s[0] == QUOTE {
      assert s == [] + ([QUOTE] + s[1..]);
      assert out + [] == out;
      assert SpelledAs(s, out, text, rest, []);
    } else {
      var first := CharacterOf(s);
      var n := ReadChar(s).value.1;
      OnlySpelledStrings(s[n..], out + Says(first));
      var more: seq<Character> :| SpelledAs(s[n..], out + Says(first), text, rest, more);
      SpelledLonger(s, out, text, rest, first, n, more);
    }
  }

  lemma SpelledLonger(s: Bytes, out: Bytes, text: Bytes, rest: Bytes, first: Character, n: nat, more: seq<Character>)
    requires n <= |s| && TextOf(first) == s[..n] && SpelledAs(s[n..], out + Says(first), text, rest, more)
    ensures SpelledAs(s, out, text, rest, [first] + more)
  {
    var sps := [first] + more;
    assert sps[1..] == more;
    assert s == s[..n] + s[n..];
    ConcatAssociates(TextOf(first), FlatMap(TextOf, more), [QUOTE] + rest);
    ConcatAssociates(out, Says(first), FlatMap(Says, more));
  }

  // --------------------------------------------------------------------------
  // What the writer prints
  // --------------------------------------------------------------------------

  /** A short escape for the quotation mark, the reverse solidus, the line feed, the carriage return and the tab,
      small hexadecimal digits for other control characters, and everything else as it is. */
  function Spelled(c: Byte): Spelling {
    if c == 0x22 then Short(0x22)
    else if c == 0x5C then Short(0x5C)
    else if c == 0x0A then Short(0x6E)
    else if c == 0x0D then Short(0x72)
    else if c == 0x09 then Short(0x74)
    else if c < 0x20 then Single(Digit4(0, 0, c / 16, c % 16, false, false, false, false))
    else Raw(c)
  }

  lemma WriterSpells(c: Byte)
    ensures Allowed(Spelled(c)) && TextOf(Spelled(c)) == EscapeByte(c) && Says(Spelled(c)) == [c]
  {
  }
}
