/** Number literals: what the parser takes as a number is exactly what section 6 of RFC 8259 allows. */
module JsonNumbers {
  import opened Bytes
  import opened Options
  import opened Seqs
  import opened Json

  datatype Exponent = Exponent(marker: Byte, sign: Option<Byte>, digits: Bytes)

  datatype Numeral = Numeral(minus: bool, whole: Bytes, fraction: Option<Bytes>, exponent: Option<Exponent>)

  predicate Digits(ds: Bytes) {
    ds != [] && forall i :: 0 <= i < |ds| ==> Digit(ds[i])
  }

  predicate Allowed(n: Numeral) {
    && Digits(n.whole) && (n.whole[0] == 0x30 ==> |n.whole| == 1)
    && (n.fraction.Some? ==> Digits(n.fraction.value))
    && (n.exponent.Some? ==>
          var e := n.exponent.value;
          && (e.marker == 0x65 || e.marker == 0x45)
          && (e.sign.Some? ==> e.sign.value == 0x2B || e.sign.value == MINUS)
          && Digits(e.digits))
  }

  function SignText(sign: Option<Byte>): Bytes {
    if sign.None? then [] else [sign.value]
  }

  function ExponentText(e: Option<Exponent>): Bytes {
    if e.None? then [] else [e.value.marker] + (SignText(e.value.sign) + e.value.digits)
  }

  function FractionText(f: Option<Bytes>): Bytes {
    if f.None? then [] else [0x2E] + f.value
  }

  function TailText(n: Numeral): Bytes {
    FractionText(n.fraction) + ExponentText(n.exponent)
  }

  function SignOf(minus: bool): Bytes {
    if minus then [MINUS] else []
  }

  function Text(n: Numeral): Bytes {
    SignOf(n.minus) + (n.whole + TailText(n))
  }

  /** Input that cannot continue a number. */
  predicate Delimited(rest: Bytes) {
    rest == [] || !(Digit(rest[0]) || rest[0] == 0x2E || rest[0] == 0x65 || rest[0] == 0x45)
  }

  lemma {:induction false} DigitsLengthOf(ds: Bytes, rest: Bytes)
    requires forall i :: 0 <= i < |ds| ==> Digit(ds[i])
    requires rest == [] || !Digit(rest[0])
    ensures DigitsLength(ds + rest) == |ds|
    decreases |ds|
  {
    if ds == [] {
      assert ds + rest == rest;
    } else {
      assert (ds + rest)[1..] == ds[1..] + rest;
      DigitsLengthOf(ds[1..], rest);
    }
  }

  // --------------------------------------------------------------------------
  // Every allowed literal is read
  // --------------------------------------------------------------------------

  lemma ExponentReads(n: Numeral, rest: Bytes)
    requires Allowed(n) && Delimited(rest)
    ensures ExponentLength(ExponentText(n.exponent) + rest) == Some(|ExponentText(n.exponent)|)
  {
    var s := ExponentText(n.exponent) + rest;
    if n.exponent.None? {
      assert s == rest;
    } else {
      var e := n.exponent.value;
      var sign := |SignText(e.sign)|;
      assert s[1 + sign..] == e.digits + rest;
      assert Digit(e.digits[0]);
      DigitsLengthOf(e.digits, rest);
      assert s[0] == e.marker && s[1] == (if sign == 1 then e.sign.value else e.digits[0]);
    }
  }

  lemma FractionReads(n: Numeral, after: Bytes)
    requires Allowed(n)
    requires after == [] || !(Digit(after[0]) || after[0] == 0x2E)
    ensures FractionLength(FractionText(n.fraction) + after) == Some(|FractionText(n.fraction)|)
  {
    var s := FractionText(n.fraction) + after;
    if n.fraction.None? {
      assert s == after;
    } else {
      assert s[1..] == n.fraction.value + after;
      DigitsLengthOf(n.fraction.value, after);
    }
  }

  lemma TailReads(n: Numeral, rest: Bytes)
    requires Allowed(n) && Delimited(rest)
    ensures TailLength(TailText(n) + rest) == Some(|TailText(n)|)
  {
    var f, e := FractionText(n.fraction), ExponentText(n.exponent);
    ConcatAssociates(f, e, rest);
    assert e == [] ==> e + rest == rest;
    FractionReads(n, e + rest);
    assert (f + (e + rest))[|f|..] == e + rest;
    ExponentReads(n, rest);
  }

  lemma TailStarts(n: Numeral, rest: Bytes)
    requires Allowed(n) && Delimited(rest)
    ensures TailText(n) + rest == [] || !Digit((TailText(n) + rest)[0])
  {
    if TailText(n) == [] {
      assert TailText(n) + rest == rest;
    }
  }

  lemma WholeReads(n: Numeral, after: Bytes)
    requires Allowed(n) && (after == [] || !Digit(after[0]))
    ensures IntegerLength(n.whole + after) == |n.whole|
  {
    DigitsLengthOf(n.whole, after);
    assert Digit(n.whole[0]);
  }

  lemma UnsignedReads(n: Numeral, rest: Bytes)
    requires Allowed(n) && Delimited(rest)
    ensures UnsignedLength(n.whole + (TailText(n) + rest)) == Some(|n.whole| + |TailText(n)|)
  {
    var after := TailText(n) + rest;
    TailStarts(n, rest);
    WholeReads(n, after);
    assert (n.whole + after)[|n.whole|..] == after;
    TailReads(n, rest);
  }

  lemma SignReads(length: Bytes -> Option<nat>, minus: bool, body: Bytes)
    requires body != [] && Digit(body[0])
    ensures Signed(length, SignOf(minus) + body) == Plus(|SignOf(minus)|, length(body))
  {
    if minus {
      assert ([MINUS] + body)[1..] == body;
    } else {
      assert [] + body == body;
    }
  }

  lemma NumeralSigned(length: Bytes -> Option<nat>, n: Numeral, rest: Bytes)
    requires Allowed(n)
    requires length(n.whole + (TailText(n) + rest)) == Some(|n.whole| + |TailText(n)|)
    ensures Signed(length, Text(n) + rest) == Some(|Text(n)|)
  {
    BodyStarts(n, rest);
    TextSplits(n, rest);
    SignReads(length, n.minus, n.whole + (TailText(n) + rest));
  }

  lemma NumeralLength(n: Numeral, rest: Bytes)
    requires Allowed(n) && Delimited(rest)
    ensures NumberLength(Text(n) + rest) == Some(|Text(n)|)
  {
    UnsignedReads(n, rest);
    NumeralSigned(UnsignedLength, n, rest);
  }

  lemma BodyStarts(n: Numeral, rest: Bytes)
    requires Allowed(n)
    ensures
      var body := n.whole + (TailText(n) + rest);
      body != [] && Digit(body[0])
  {
    assert Digit(n.whole[0]);
  }

  /** An allowed literal is taken whole, up to anything that cannot continue a number. */
  lemma NumeralReads(n: Numeral, rest: Bytes)
    requires Allowed(n) && Delimited(rest)
    ensures ReadNumber(Text(n) + rest) == Some((NumberOf(Text(n)), rest))
  {
    NumeralLength(n, rest);
    var text := Text(n);
    assert (text + rest)[..|text|] == text && (text + rest)[|text|..] == rest;
  }

  lemma TextSplits(n: Numeral, rest: Bytes)
    ensures
      var body := n.whole + (TailText(n) + rest);
      Text(n) + rest == SignOf(n.minus) + body
  {
    ConcatAssociates(n.whole, TailText(n), rest);
    ConcatAssociates(SignOf(n.minus), n.whole + TailText(n), rest);
  }

  // --------------------------------------------------------------------------
  // Nothing else is
  // --------------------------------------------------------------------------

  lemma TakenDigits(s: Bytes)
    requires DigitsLength(s) > 0
    ensures Digits(s[..DigitsLength(s)])
  {
    DigitsLengthCounts(s);
  }

  lemma TakenExponent(s: Bytes) returns (e: Option<Exponent>)
    requires ExponentLength(s).Some?
    ensures Allowed(Numeral(false, [0x30], None, e))
    ensures s[..ExponentLength(s).value] == ExponentText(e)
  {
    if ExponentLength(s).value == 0 {
      e := None;
    } else {
      var sign := if |s| > 1 && (s[1] == 0x2B || s[1] == MINUS) then 1 else 0;
      var ds := s[1 + sign..];
      TakenDigits(ds);
      var n := DigitsLength(ds);
      e := Some(Exponent(s[0], if sign == 1 then Some(s[1]) else None, ds[..n]));
      assert s[..1 + sign + n] == [s[0]] + (SignText(e.value.sign) + ds[..n]);
    }
  }

  lemma TakenFraction(s: Bytes) returns (f: Option<Bytes>)
    requires FractionLength(s).Some?
    ensures f.Some? ==> Digits(f.value)
    ensures s[..FractionLength(s).value] == FractionText(f)
  {
    if FractionLength(s).value == 0 {
      f := None;
    } else {
      TakenDigits(s[1..]);
      f := Some(s[1..][..DigitsLength(s[1..])]);
      assert s[..FractionLength(s).value] == [s[0]] + f.value;
    }
  }

  lemma TakenWhole(s: Bytes)
    requires IntegerLength(s) > 0
    ensures
      var ds := s[..IntegerLength(s)];
      Digits(ds) && (ds[0] == 0x30 ==> |ds| == 1)
  {
    if s[0] != 0x30 {
      TakenDigits(s);
    }
  }

  lemma TakenUnsigned(u: Bytes, minus: bool) returns (n: Numeral)
    requires UnsignedLength(u).Some?
    ensures Allowed(n) && n.minus == minus
    ensures u[..UnsignedLength(u).value] == n.whole + TailText(n)
  {
    var w := IntegerLength(u);
    TakenWhole(u);
    var t := u[w..];
    var f := TakenFraction(t);
    var k := FractionLength(t).value;
    var e := TakenExponent(t[k..]);
    n := Numeral(minus, u[..w], f, e);
    TakenParts(u, w, k, ExponentLength(t[k..]).value);
  }

  /** Whatever is taken as a number is an allowed literal. */
  lemma TakesOnlyNumerals(s: Bytes)
    requires NumberLength(s).Some?
    ensures exists n :: Allowed(n) && s[..NumberLength(s).value] == Text(n)
  {
    var minus := s != [] && s[0] == MINUS;
    var u := if minus then s[1..] else s;
    var n := TakenUnsigned(u, minus);
    SignedPart(s, minus, u, UnsignedLength(u).value);
    assert Allowed(n) && s[..NumberLength(s).value] == Text(n);
  }

  lemma SignedPart(s: Bytes, minus: bool, u: Bytes, size: nat)
    requires s == SignOf(minus) + u && size <= |u|
    ensures s[..|SignOf(minus)| + size] == SignOf(minus) + u[..size]
  {
  }

  lemma TakenParts(u: Bytes, w: nat, k: nat, x: nat)
    requires w + k + x <= |u|
    ensures u[..w + k + x] == u[..w] + (u[w..][..k] + u[w..][k..][..x])
  {
  }
}
