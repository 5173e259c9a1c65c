/** The \u escapes of strings (section 7 of RFC 8259) and the UTF-8 they stand for (section 3 of RFC 3629). */
module JsonUnicode {
  import opened Bytes
  import opened Options
  import opened Json

  /** A Unicode scalar value. */
  predicate Scalar(cp: nat) {
    cp < 0xD800 || 0xDFFF < cp < 0x11_0000
  }

  predicate Follows(b: Byte) {
    0x80 <= b < 0xC0
  }

  /** The scalar value a UTF-8 sequence stands for; overlong forms and surrogates are none. */
  function DecodeUtf8(bs: Bytes): Option<nat> {
    var cp :=
      if |bs| == 1 && bs[0] < 0x80 then Some(bs[0] as int)
      else if |bs| == 2 && 0xC0 <= bs[0] < 0xE0 && Follows(bs[1])
      then Some((bs[0] as int - 0xC0) * 64 + (bs[1] as int - 0x80))
      else if |bs| == 3 && 0xE0 <= bs[0] < 0xF0 && Follows(bs[1]) && Follows(bs[2])
      then Some((bs[0] as int - 0xE0) * 4096 + (bs[1] as int - 0x80) * 64 + (bs[2] as int - 0x80))
      else if |bs| == 4 && 0xF0 <= bs[0] < 0xF8 && Follows(bs[1]) && Follows(bs[2]) && Follows(bs[3])
      then Some((bs[0] as int - 0xF0) * 262144 + (bs[1] as int - 0x80) * 4096 + (bs[2] as int - 0x80) * 64 + (bs[3] as int - 0x80))
      else None;
    if cp.Some? && Scalar(cp.value) && |bs| == Utf8Size(cp.value) then Some(cp.value) else None
  }

  /** Bytes a scalar value takes. */
  function Utf8Size(cp: nat): nat {
    if cp < 0x80 then 1 else if cp < 0x800 then 2 else if cp < 0x1_0000 then 3 else 4
  }

  lemma SplitBy64(cp: nat)
    ensures cp == cp / 64 * 64 + cp % 64
    ensures cp == cp / 4096 * 4096 + cp / 64 % 64 * 64 + cp % 64
    ensures cp == cp / 262144 * 262144 + cp / 4096 % 64 * 4096 + cp / 64 % 64 * 64 + cp % 64
  {
    assert cp / 64 == cp / 64 / 64 * 64 + cp / 64 % 64;
    assert cp / 64 / 64 == cp / 4096;
    assert cp / 4096 == cp / 4096 / 64 * 64 + cp / 4096 % 64;
    assert cp / 4096 / 64 == cp / 262144;
  }

  /** What the parser appends for a scalar value is its UTF-8 form. */
  lemma Utf8Decodes(cp: nat)
    requires Scalar(cp)
    ensures DecodeUtf8(Utf8(cp)) == Some(cp)
  {
    SplitBy64(cp);
  }

  function Hex4(n: nat): Bytes
    requires n < 0x1_0000
  {
    [HexDigit(n / 4096), HexDigit(n / 256 % 16), HexDigit(n / 16 % 16), HexDigit(n % 16)]
  }

  lemma HexDigitReads(d: nat)
    requires d < 16
    ensures IsHex(HexDigit(d)) && HexValue(HexDigit(d)) == d
  {
  }

  lemma HexNumberStep(s: Bytes, c: Byte)
    requires AllHex(s) && IsHex(c)
    ensures AllHex(s + [c]) && HexNumber(s + [c]) == HexNumber(s) * 16 + HexValue(c)
  {
    assert (s + [c])[..|s|] == s;
  }

  lemma Hex4Reads(n: nat, rest: Bytes)
    requires n < 0x1_0000
    ensures ReadHex4(Hex4(n) + rest) == Some(n)
  {
    var a, b, c, d := n / 4096, n / 256 % 16, n / 16 % 16, n % 16;
    HexDigitReads(a);
    HexDigitReads(b);
    HexDigitReads(c);
    HexDigitReads(d);
    HexNumberStep([], HexDigit(a));
    HexNumberStep([HexDigit(a)], HexDigit(b));
    HexNumberStep([HexDigit(a), HexDigit(b)], HexDigit(c));
    HexNumberStep([HexDigit(a), HexDigit(b), HexDigit(c)], HexDigit(d));
    assert [] + [HexDigit(a)] == [HexDigit(a)];
    assert [HexDigit(a)] + [HexDigit(b)] == [HexDigit(a), HexDigit(b)];
    assert [HexDigit(a), HexDigit(b)] + [HexDigit(c)] == [HexDigit(a), HexDigit(b), HexDigit(c)];
    assert [HexDigit(a), HexDigit(b), HexDigit(c)] + [HexDigit(d)] == Hex4(n);
    assert (Hex4(n) + rest)[..4] == Hex4(n);
    Hex4Sum(n);
  }

  lemma Hex4Sum(n: nat)
    requires n < 0x1_0000
    ensures ((n / 4096 * 16 + n / 256 % 16) * 16 + n / 16 % 16) * 16 + n % 16 == n
  {
    assert n / 16 == n / 16 / 16 * 16 + n / 16 % 16;
    assert n / 16 / 16 == n / 256;
    assert n / 256 == n / 256 / 16 * 16 + n / 256 % 16;
    assert n / 256 / 16 == n / 4096;
  }

  /** A scalar value after \u: four digits, or a surrogate pair beyond the basic plane. */
  function EscapeOf(cp: nat): Bytes
    requires Scalar(cp)
  {
    if cp < 0x1_0000 then Hex4(cp)
    else Hex4(0xD800 + (cp - 0x1_0000) / 1024) + ([BACKSLASH, 0x75] + Hex4(0xDC00 + (cp - 0x1_0000) % 1024))
  }

  lemma PairReads(high: nat, low: nat, rest: Bytes)
    requires 0xD800 <= high <= 0xDBFF && 0xDC00 <= low <= 0xDFFF
    ensures ReadUnicode(Hex4(high) + ([BACKSLASH, 0x75] + (Hex4(low) + rest))) ==
            Some((Utf8(0x1_0000 + (high - 0xD800) * 1024 + (low - 0xDC00)), 10))
  {
    var tail := [BACKSLASH, 0x75] + (Hex4(low) + rest);
    var s := Hex4(high) + tail;
    Hex4Reads(high, tail);
    assert s[4] == BACKSLASH && s[5] == 0x75;
    assert s[6..] == Hex4(low) + rest;
    Hex4Reads(low, rest);
  }

  /** Every scalar value is read back from its escape, as UTF-8. */
  lemma EscapeReadsScalar(cp: nat, rest: Bytes)
    requires Scalar(cp)
    ensures ReadUnicode(EscapeOf(cp) + rest) == Some((Utf8(cp), |EscapeOf(cp)|))
  {
    if cp < 0x1_0000 {
      Hex4Reads(cp, rest);
    } else {
      var high, low := 0xD800 + (cp - 0x1_0000) / 1024, 0xDC00 + (cp - 0x1_0000) % 1024;
      PairReads(high, low, rest);
      PairSplits(Hex4(high), Hex4(low), rest);
    }
  }

  lemma PairSplits(high: Bytes, low: Bytes, rest: Bytes)
    ensures high + ([BACKSLASH, 0x75] + low) + rest == high + ([BACKSLASH, 0x75] + (low + rest))
  {
  }

  /** Whatever is read from a \u escape is the UTF-8 form of a scalar value: no lone surrogate gets in. */
  lemma EscapesAreScalars(s: Bytes)
    ensures ReadUnicode(s).Some? ==> exists cp :: Scalar(cp) && ReadUnicode(s).value.0 == Utf8(cp)
  {
    if ReadUnicode(s).Some? {
      var high := ReadHex4(s).value;
      if 0xD800 <= high <= 0xDBFF {
        var low := ReadHex4(s[6..]).value;
        var cp := 0x1_0000 + (high - 0xD800) * 1024 + (low - 0xDC00);
        assert Scalar(cp) && ReadUnicode(s).value.0 == Utf8(cp);
      } else {
        assert Scalar(high) && ReadUnicode(s).value.0 == Utf8(high);
      }
    }
  }
}
