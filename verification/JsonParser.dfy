/** The recursive-descent parser: a position that moves over the text. */
module JsonParsing {
  import opened Bytes
  import opened Options
  import opened Json

  lemma SliceStep(text: Bytes, i: nat, n: nat)
    requires i + n <= |text|
    ensures text[i..][n..] == text[i + n..]
    ensures text[i..][..n] == text[i..i + n]
  {
  }

  lemma NumberParts(s: Bytes, size: Option<nat>)
    requires size == UnsignedLength(if s != [] && s[0] == MINUS then s[1..] else s)
    ensures NumberLength(s) == Plus(if s != [] && s[0] == MINUS then 1 else 0, size)
  {
  }

  lemma UnsignedParts(s: Bytes, whole: nat, tail: Bytes)
    requires whole == IntegerLength(s) && whole > 0 && tail == s[whole..]
    ensures UnsignedLength(s) == Plus(whole, TailLength(tail))
  {
  }

  /** One thing of a row, and what the byte after it makes of the rest. */
  lemma RowStep<T>(read: Reader<T>, close: Byte, s: Bytes, before: seq<T>, v: T, after: Bytes)
    requires close != COMMA && |after| <= |s|
    requires read(Json.SkipBlanks(s)) == Some((v, after))
    ensures
      var t := Json.SkipBlanks(after);
      Before(before, Row(read, close, s)) ==
        if t != [] && t[0] == COMMA then Before(before + [v], Row(read, close, t[1..]))
        else if t != [] && t[0] == close then Some((before + [v], t[1..]))
        else None
  {
    var t := Json.SkipBlanks(after);
    if t != [] && t[0] == COMMA {
      var others := Row(read, close, t[1..]);
      if others.Some? {
        assert before + ([v] + others.value.0) == before + [v] + others.value.0;
      }
    }
  }

  lemma BeforeNothing<T>(row: Option<(seq<T>, Bytes)>)
    ensures Before([], row) == row
  {
    if row.Some? {
      assert [] + row.value.0 == row.value.0;
    }
  }

  lemma SetAllAppend(ms: seq<Member>, m: Member)
    ensures SetAll([], ms + [m]) == SetMember(SetAll([], ms), m)
  {
    assert (ms + [m])[..|ms|] == ms;
  }

  class Parser {
    const text: Bytes
    var pos: nat

    constructor (text: Bytes)
      ensures this.text == text && pos == 0
    {
      this.text := text;
      pos := 0;
    }

    ghost predicate Valid()
      reads this
    {
      pos <= |text|
    }

    ghost function Rest(): Bytes
      requires Valid()
      reads this
    {
      text[pos..]
    }

    /** A read that succeeded stands behind what it read; start is where it began. */
    ghost predicate Took<T>(r: Option<T>, spec: Option<(T, Bytes)>, start: nat)
      reads this
    {
      && Valid()
      && r.Some? == spec.Some?
      && (r.Some? ==> spec == Some((r.value, Rest())) && pos > start)
    }

    method SkipBlanks()
      requires Valid()
      modifies this
      ensures Valid() && pos >= old(pos)
      ensures Rest() == Json.SkipBlanks(old(Rest()))
    {
      while pos < |text| && Blank(text[pos])
        invariant old(pos) <= pos <= |text|
        invariant Json.SkipBlanks(Rest()) == Json.SkipBlanks(old(Rest()))
        decreases |text| - pos
      {
        SliceStep(text, pos, 1);
        pos := pos + 1;
      }
    }

    method Consume(c: Byte) returns (found: bool)
      requires Valid()
      modifies this
      ensures Valid()
      ensures found == (old(Rest()) != [] && old(Rest())[0] == c)
      ensures pos == old(pos) + if found then 1 else 0
      ensures Rest() == if found then old(Rest())[1..] else old(Rest())
    {
      found := pos < |text| && text[pos] == c;
      if found {
        SliceStep(text, pos, 1);
        pos := pos + 1;
      }
    }

    method ConsumeWord(w: Bytes) returns (found: bool)
      requires Valid()
      modifies this
      ensures Valid()
      ensures found == (w <= old(Rest()))
      ensures pos == old(pos) + if found then |w| else 0
      ensures Rest() == if found then old(Rest())[|w|..] else old(Rest())
    {
      found := pos + |w| <= |text| && text[pos..pos + |w|] == w;
      if found {
        SliceStep(text, pos, |w|);
        pos := pos + |w|;
      }
    }

    method SkipDigits()
      requires Valid()
      modifies this
      ensures Valid()
      ensures pos == old(pos) + DigitsLength(old(Rest()))
    {
      while pos < |text| && Digit(text[pos])
        invariant old(pos) <= pos <= |text|
        invariant pos + DigitsLength(Rest()) == old(pos) + DigitsLength(old(Rest()))
        decreases |text| - pos
      {
        SliceStep(text, pos, 1);
        pos := pos + 1;
      }
    }

    // --------------------------------------------------------------------------
    // Numbers
    // --------------------------------------------------------------------------

    method ParseWhole() returns (ok: bool)
      requires Valid()
      modifies this
      ensures Valid()
      ensures ok == (IntegerLength(old(Rest())) > 0)
      ensures ok ==> pos == old(pos) + IntegerLength(old(Rest()))
    {
      if pos >= |text| || !Digit(text[pos]) {
        return false;
      }
      if text[pos] == 0x30 {
        pos := pos + 1;
      } else {
        SkipDigits();
      }
      return true;
    }

    method ParseFraction() returns (ok: bool)
      requires Valid()
      modifies this
      ensures Valid()
      ensures ok == FractionLength(old(Rest())).Some?
      ensures ok ==> pos == old(pos) + FractionLength(old(Rest())).value
    {
      var point := Consume(0x2E);
      if point {
        if pos >= |text| || !Digit(text[pos]) {
          return false;
        }
        SkipDigits();
      }
      return true;
    }

    method ParseExponent() returns (ok: bool)
      requires Valid()
      modifies this
      ensures Valid()
      ensures ok == ExponentLength(old(Rest())).Some?
      ensures ok ==> pos == old(pos) + ExponentLength(old(Rest())).value
    {
      if pos < |text| && (text[pos] == 0x65 || text[pos] == 0x45) {
        ghost var s := Rest();
        SliceStep(text, pos, 1);
        SliceStep(text, pos, if |s| > 1 then 2 else 1);
        pos := pos + 1;
        if pos < |text| && (text[pos] == 0x2B || text[pos] == MINUS) {
          pos := pos + 1;
        }
        if pos >= |text| || !Digit(text[pos]) {
          return false;
        }
        SkipDigits();
      }
      return true;
    }

    method ParseTail() returns (ok: bool)
      requires Valid()
      modifies this
      ensures Valid()
      ensures ok == TailLength(old(Rest())).Some?
      ensures ok ==> pos == old(pos) + TailLength(old(Rest())).value
    {
      ok := ParseFraction();
      if ok {
        SliceStep(text, old(pos), pos - old(pos));
        ok := ParseExponent();
      }
    }

    method ParseUnsigned() returns (ok: bool)
      requires Valid()
      modifies this
      ensures Valid()
      ensures ok == UnsignedLength(old(Rest())).Some?
      ensures ok ==> pos == old(pos) + UnsignedLength(old(Rest())).value
    {
      ghost var s, start := Rest(), pos;
      ok := ParseWhole();
      if ok {
        ghost var whole, tail := pos - start, Rest();
        SliceStep(text, start, whole);
        ok := ParseTail();
        UnsignedParts(s, whole, tail);
      }
    }

    method ParseSigned() returns (ok: bool)
      requires Valid()
      modifies this
      ensures Valid()
      ensures ok == NumberLength(old(Rest())).Some?
      ensures ok ==> pos == old(pos) + NumberLength(old(Rest())).value
    {
      ghost var s := Rest();
      var minus := Consume(MINUS);
      ghost var size := UnsignedLength(Rest());
      ok := ParseUnsigned();
      NumberParts(s, size);
    }

    method ParseNumber() returns (r: Option<Value>)
      requires Valid()
      modifies this
      ensures Took(r, ReadNumber(old(Rest())), old(pos))
    {
      var start := pos;
      var ok := ParseSigned();
      if !ok {
        return None;
      }
      SliceStep(text, start, pos - start);
      return Some(NumberOf(text[start..pos]));
    }

    // --------------------------------------------------------------------------
    // Strings
    // --------------------------------------------------------------------------

    method ParseHex4() returns (r: Option<nat>)
      requires Valid()
      modifies this
      ensures Valid()
      ensures r == ReadHex4(old(Rest()))
      ensures r.Some? ==> pos == old(pos) + 4
    {
      if pos + 4 > |text| {
        return None;
      }
      ghost var s := Rest();
      var v := 0;
      for i := 0 to 4
        invariant pos == old(pos) + i
        invariant AllHex(s[..i]) && v == HexNumber(s[..i])
      {
        var c := text[pos];
        pos := pos + 1;
        assert c == s[i] == s[..4][i];
        if !IsHex(c) {
          return None;
        }
        assert s[..i + 1][..i] == s[..i];
        v := v * 16 + HexValue(c);
      }
      return Some(v);
    }

    /** What follows \u, the rest of the escape. */
    method ParseUnicode() returns (r: Option<Bytes>)
      requires Valid()
      modifies this
      ensures Valid()
      ensures r.Some? == ReadUnicode(old(Rest())).Some?
      ensures r.Some? ==> ReadUnicode(old(Rest())) == Some((r.value, pos - old(pos)))
    {
      ghost var s := Rest();
      var cp := ParseHex4();
      if cp.None? {
        return None;
      }
      if 0xD800 <= cp.value <= 0xDBFF {
        SliceStep(text, old(pos), 4);
        var backslash := Consume(BACKSLASH);
        if !backslash {
          return None;
        }
        SliceStep(text, old(pos), 5);
        var u := Consume(0x75);
        if !u {
          return None;
        }
        SliceStep(text, old(pos), 6);
        var low := ParseHex4();
        if low.None? || low.value < 0xDC00 || low.value > 0xDFFF {
          return None;
        }
        return Some(Utf8(0x1_0000 + (cp.value - 0xD800) * 1024 + (low.value - 0xDC00)));
      }
      if 0xDC00 <= cp.value <= 0xDFFF {
        return None;
      }
      return Some(Utf8(cp.value));
    }

    /** One character or escape inside a string. */
    method ParseChar() returns (r: Option<Bytes>)
      requires Valid() && Rest() != []
      modifies this
      ensures Valid()
      ensures r.Some? == ReadChar(old(Rest())).Some?
      ensures r.Some? ==> ReadChar(old(Rest())) == Some((r.value, pos - old(pos)))
    {
      var c := text[pos];
      pos := pos + 1;
      if c < 0x20 {
        return None;
      }
      if c != BACKSLASH {
        return Some([c]);
      }
      if pos >= |text| {
        return None;
      }
      var e := text[pos];
      SliceStep(text, old(pos), 2);
      pos := pos + 1;
      if e == QUOTE || e == BACKSLASH || e == 0x2F {
        return Some([e]);
      } else if e == 0x62 {
        return Some([0x08]);
      } else if e == 0x66 {
        return Some([0x0C]);
      } else if e == 0x6E {
        return Some([0x0A]);
      } else if e == 0x72 {
        return Some([0x0D]);
      } else if e == 0x74 {
        return Some([0x09]);
      } else if e == 0x75 {
        r := ParseUnicode();
      } else {
        return None;
      }
    }

    /** One step of reading a string: the text read so far, or the end of it. */
    method StringPart(out: Bytes) returns (part: Option<Bytes>, closed: bool)
      requires Valid() && Rest() != []
      modifies this
      ensures Valid()
      ensures part.Some? ==> pos > old(pos)
      ensures part.None? ==> ReadString(old(Rest()), out).None?
      ensures part.Some? && closed ==> ReadString(old(Rest()), out) == Some((part.value, Rest()))
      ensures part.Some? && !closed ==> ReadString(old(Rest()), out) == ReadString(Rest(), part.value)
    {
      ghost var s, start := Rest(), pos;
      if text[pos] == QUOTE {
        SliceStep(text, pos, 1);
        pos := pos + 1;
        return Some(out), true;
      }
      var c := ParseChar();
      if c.None? {
        StringFails(s, out);
        return None, false;
      }
      SliceStep(text, start, pos - start);
      StringStep(s, out, c.value, pos - start);
      return Some(out + c.value), false;
    }

    /** The rest of a string, after its opening quote. */
    method StringRest() returns (r: Option<Bytes>)
      requires Valid()
      modifies this
      ensures Took(r, ReadString(old(Rest()), []), old(pos))
    {
      ghost var result := ReadString(Rest(), []);
      var out: Bytes := [];
      while pos < |text|
        invariant old(pos) <= pos <= |text|
        invariant ReadString(Rest(), out) == result
        decreases |text| - pos
      {
        var part, closed := StringPart(out);
        if part.None? {
          return None;
        }
        if closed {
          return part;
        }
        out := part.value;
      }
      StringFails(Rest(), out);
      return None;
    }

    /** A string from its opening quote on. */
    method ParseString() returns (r: Option<Bytes>)
      requires Valid()
      modifies this
      ensures old(Rest()) == [] || old(Rest())[0] != QUOTE ==> r.None? && Valid()
      ensures old(Rest()) != [] && old(Rest())[0] == QUOTE ==> Took(r, ReadString(old(Rest())[1..], []), old(pos))
    {
      var open := Consume(QUOTE);
      if open {
        r := StringRest();
      } else {
        r := None;
      }
    }

    // --------------------------------------------------------------------------
    // Values
    // --------------------------------------------------------------------------

    method ParseItems(depth: int) returns (r: Option<seq<Value>>)
      requires Valid() && depth <= MAX_DEPTH
      modifies this
      ensures Took(r, Row(ValueReader(depth + 1), CLOSE_BRACKET, old(Rest())), old(pos))
      decreases MAX_DEPTH + 1 - depth, 0
    {
      ghost var read := ValueReader(depth + 1);
      ghost var t := Rest();
      var items: seq<Value> := [];
      BeforeNothing(Row(read, CLOSE_BRACKET, t));
      while true
        invariant old(pos) <= pos <= |text|
        invariant Row(read, CLOSE_BRACKET, t) == Before(items, Row(read, CLOSE_BRACKET, Rest()))
        decreases |text| - pos
      {
        ghost var s := Rest();
        SkipBlanks();
        var item := ParseValue(depth + 1);
        if item.None? {
          return None;
        }
        RowStep(read, CLOSE_BRACKET, s, items, item.value, Rest());
        items := items + [item.value];
        SkipBlanks();
        var comma := Consume(COMMA);
        if !comma {
          var close := Consume(CLOSE_BRACKET);
          return if close then Some(items) else None;
        }
      }
    }

    method ParseArray(depth: int) returns (r: Option<Value>)
      requires Valid() && depth <= MAX_DEPTH && Rest() != []
      modifies this
      ensures Took(r, ReadArray(ValueReader(depth + 1), old(Rest())[1..]), old(pos))
      decreases MAX_DEPTH + 1 - depth, 1
    {
      SliceStep(text, pos, 1);
      pos := pos + 1;
      SkipBlanks();
      var close := Consume(CLOSE_BRACKET);
      if close {
        return Some(Array([]));
      }
      var items := ParseItems(depth);
      return if items.None? then None else Some(Array(items.value));
    }

    method ParseMember(depth: int) returns (r: Option<Member>)
      requires Valid() && depth <= MAX_DEPTH
      modifies this
      ensures Took(r, ReadMember(ValueReader(depth + 1), old(Rest())), old(pos))
      decreases MAX_DEPTH + 1 - depth, 0
    {
      var key := ParseString();
      if key.None? {
        return None;
      }
      SkipBlanks();
      var colon := Consume(COLON);
      if !colon {
        return None;
      }
      SkipBlanks();
      var value := ParseValue(depth + 1);
      return if value.None? then None else Some(Member(key.value, value.value));
    }

    method ParseMembers(depth: int) returns (r: Option<seq<Member>>, ghost read: seq<Member>)
      requires Valid() && depth <= MAX_DEPTH
      modifies this
      ensures r.Some? ==> r.value == SetAll([], read)
      ensures Took(if r.None? then None else Some(read),
                   Row(MemberReader(ValueReader(depth + 1)), CLOSE_BRACE, old(Rest())), old(pos))
      decreases MAX_DEPTH + 1 - depth, 1
    {
      ghost var reader := MemberReader(ValueReader(depth + 1));
      ghost var t := Rest();
      var members: seq<Member> := [];
      read := [];
      BeforeNothing(Row(reader, CLOSE_BRACE, t));
      while true
        invariant old(pos) <= pos <= |text|
        invariant members == SetAll([], read)
        invariant Row(reader, CLOSE_BRACE, t) == Before(read, Row(reader, CLOSE_BRACE, Rest()))
        decreases |text| - pos
      {
        ghost var s := Rest();
        SkipBlanks();
        var m := ParseMember(depth);
        if m.None? {
          return None, read;
        }
        RowStep(reader, CLOSE_BRACE, s, read, m.value, Rest());
        SetAllAppend(read, m.value);
        members := Set(members, m.value);
        read := read + [m.value];
        SkipBlanks();
        var comma := Consume(COMMA);
        if !comma {
          var close := Consume(CLOSE_BRACE);
          return if close then Some(members) else None, read;
        }
      }
    }

    method ParseObject(depth: int) returns (r: Option<Value>)
      requires Valid() && depth <= MAX_DEPTH && Rest() != []
      modifies this
      ensures Took(r, ReadObject(ValueReader(depth + 1), old(Rest())[1..]), old(pos))
      decreases MAX_DEPTH + 1 - depth, 2
    {
      SliceStep(text, pos, 1);
      pos := pos + 1;
      SkipBlanks();
      var close := Consume(CLOSE_BRACE);
      if close {
        return Some(Object([]));
      }
      var members, _ := ParseMembers(depth);
      return if members.None? then None else Some(Object(members.value));
    }

    method ParseScalar() returns (r: Option<Value>)
      requires Valid() && Rest() != []
      modifies this
      ensures Took(r, ReadScalar(old(Rest())), old(pos))
    {
      var c := text[pos];
      if c == QUOTE {
        var s := ParseString();
        return if s.None? then None else Some(String(s.value));
      }
      var word := ConsumeWord(TRUE_WORD);
      if word {
        return Some(Bool(true));
      }
      word := ConsumeWord(FALSE_WORD);
      if word {
        return Some(Bool(false));
      }
      word := ConsumeWord(NULL_WORD);
      if word {
        return Some(Null);
      }
      if c == MINUS || Digit(c) {
        r := ParseNumber();
      } else {
        return None;
      }
    }

    method ParseValue(depth: int) returns (r: Option<Value>)
      requires Valid()
      modifies this
      ensures Took(r, ReadValue(old(Rest()), depth), old(pos))
      decreases MAX_DEPTH + 1 - depth, 3
    {
      if depth > MAX_DEPTH || pos >= |text| {
        return None;
      }
      if text[pos] == OPEN_BRACE {
        r := ParseObject(depth);
      } else if text[pos] == OPEN_BRACKET {
        r := ParseArray(depth);
      } else {
        r := ParseScalar();
      }
    }

    /** Parses the whole text. */
    method Run() returns (v: Option<Value>)
      requires pos == 0
      modifies this
      ensures v == Parse(text)
    {
      assert Rest() == text;
      SkipBlanks();
      v := ParseValue(0);
      if v.Some? {
        SkipBlanks();
        if pos != |text| {
          return None;
        }
      }
    }
  }

  /** Sets a member in place, or at the end when its name is new. */
  method Set(members: seq<Member>, m: Member) returns (r: seq<Member>)
    ensures r == SetMember(members, m)
  {
    var i := 0;
    while i < |members|
      invariant 0 <= i <= |members|
      invariant SetMember(members, m) == members[..i] + SetMember(members[i..], m)
    {
      if members[i].key == m.key {
        assert members[..i] + ([m] + members[i..][1..]) == members[i := m];
        return members[i := m];
      }
      assert members[..i] + ([members[i]] + SetMember(members[i..][1..], m)) ==
             members[..i + 1] + SetMember(members[i..][1..], m);
      assert members[i..][1..] == members[i + 1..];
      i := i + 1;
    }
    return members + [m];
  }
}
