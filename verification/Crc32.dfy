/**
 The CRC-32 of the console protocol: the table-driven form the browser runs, the
 bit-serial shift register it stands for, and what the checksum can detect.
 */
module Crc32 {
  import opened Bytes

  /** The reflected generator polynomial of IEEE 802.3 CRC-32. */
  const POLY: Word := 0xEDB8_8320

  const ALL_ONES: Word := 0xFFFF_FFFF

  /** One shift of the register. */
  function Step(c: Word): Word {
    if c % 2 == 1 then XorWord(c / 2, POLY) else c / 2
  }

  function Steps(n: nat, c: Word): Word {
    if n == 0 then c else Steps(n - 1, Step(c))
  }

  // --------------------------------------------------------------------------
  // Reference: the bit-serial shift register
  // --------------------------------------------------------------------------

  /** Shifts one message bit in: the polynomial is subtracted when the outgoing bit and
      the message bit differ. */
  function ShiftBit(c: Word, bit: bool): Word {
    if (c % 2 == 1) != bit then XorWord(c / 2, POLY) else c / 2
  }

  function ShiftBits(c: Word, bits: seq<bool>): Word
    decreases |bits|
  {
    if bits == [] then c else ShiftBits(ShiftBit(c, bits[0]), bits[1..])
  }

  /** The low `k` bits of `x`, least significant first. */
  function LowBits(k: nat, x: nat): seq<bool> {
    if k == 0 then [] else [x % 2 == 1] + LowBits(k - 1, x / 2)
  }

  /** The bits of a message in transmission order. */
  function MessageBits(bytes: Bytes): seq<bool> {
    if bytes == [] then [] else LowBits(8, bytes[0]) + MessageBits(bytes[1..])
  }

  /** CRC-32 as the standard defines it: preset to ones, bit-serial, complemented. */
  function Reference(bytes: Bytes): Word {
    ALL_ONES - ShiftBits(ALL_ONES, MessageBits(bytes))
  }

  // --------------------------------------------------------------------------
  // Byte-wise register
  // --------------------------------------------------------------------------

  function Update(c: Word, b: Byte): Word {
    Steps(8, XorWord(c, b))
  }

  function Updates(c: Word, bytes: Bytes): Word
    decreases |bytes|
  {
    if bytes == [] then c else Updates(Update(c, bytes[0]), bytes[1..])
  }

  /** The byte-wise checksum; `CrcIsReference` ties it to the bit-serial one. */
  function Crc(bytes: Bytes): Word {
    ALL_ONES - Updates(ALL_ONES, bytes)
  }

  lemma XorSwap(a: nat, b: nat, p: nat)
    ensures Xor(Xor(a, b), p) == Xor(Xor(a, p), b)
    ensures Xor(Xor(a, p), Xor(b, p)) == Xor(a, b)
  {
    XorAssociates(a, b, p);
    XorAssociates(a, p, b);
    XorCommutes(b, p);
    XorAssociates(Xor(a, p), b, p);
    XorInvolution(Xor(a, b), p);
  }

  /** A shift is linear over exclusive or. */
  lemma StepLinear(x: Word, y: Word)
    ensures Step(XorWord(x, y)) == XorWord(Step(x), Step(y))
  {
    XorBits(x, y);
    XorSwap(x / 2, y / 2, POLY);
    XorAssociates(x / 2, y / 2, POLY);
  }

  lemma {:induction false} StepsLinear(n: nat, x: Word, y: Word)
    ensures Steps(n, XorWord(x, y)) == XorWord(Steps(n, x), Steps(n, y))
  {
    if n != 0 {
      StepLinear(x, y);
      StepsLinear(n - 1, Step(x), Step(y));
    }
  }

  lemma {:induction false} StepsAdd(m: nat, n: nat, x: Word)
    ensures Steps(m + n, x) == Steps(n, Steps(m, x))
  {
    if m != 0 {
      assert m + n - 1 == (m - 1) + n;
      StepsAdd(m - 1, n, Step(x));
    }
  }

  /** The polynomial's top bit is set, so what a shift returns tells which way it went. */
  lemma PolySetsTopBit(h: nat)
    requires h < 0x8000_0000
    ensures Xor(h, POLY) >= 0x8000_0000
  {
    Pow2Values();
    XorInvolution(POLY, h);
    XorCommutes(POLY, h);
    if Xor(h, POLY) < 0x8000_0000 {
      XorBound(31, Xor(h, POLY), h);
    }
  }

  lemma StepInjective(x: Word, y: Word)
    requires Step(x) == Step(y)
    ensures x == y
  {
    PolySetsTopBit(x / 2);
    PolySetsTopBit(y / 2);
    if x % 2 == 1 && y % 2 == 1 {
      XorInvolution(x / 2, POLY);
      XorInvolution(y / 2, POLY);
    }
  }

  lemma {:induction false} StepsInjective(n: nat, x: Word, y: Word)
    requires Steps(n, x) == Steps(n, y)
    ensures x == y
  {
    if n != 0 {
      StepsInjective(n - 1, Step(x), Step(y));
      StepInjective(x, y);
    }
  }

  // --------------------------------------------------------------------------
  // The byte-wise register is the bit-serial one
  // --------------------------------------------------------------------------

  lemma {:induction false} XorEven(a: nat, y: nat)
    ensures Xor(a, 2 * y) == 2 * Xor(a / 2, y) + a % 2
  {
    XorBits(a, 2 * y);
  }

  /** A message bit can be mixed into the register before the shift instead. */
  lemma ShiftBitThenRest(c: Word, x: Word)
    ensures XorWord(ShiftBit(c, x % 2 == 1), x / 2) == Step(XorWord(c, x))
  {
    XorBits(c, x);
    XorSwap(c / 2, x / 2, POLY);
  }

  lemma {:induction false} ShiftBitsIsSteps(k: nat, c: Word, x: Word)
    requires x < Pow2(k)
    ensures ShiftBits(c, LowBits(k, x)) == Steps(k, XorWord(c, x))
    decreases k
  {
    if k == 0 {
      XorZero(c);
    } else {
      assert LowBits(k, x)[1..] == LowBits(k - 1, x / 2);
      ShiftBitsIsSteps(k - 1, ShiftBit(c, x % 2 == 1), x / 2);
      ShiftBitThenRest(c, x);
    }
  }

  lemma {:induction false} ShiftBitsConcat(c: Word, a: seq<bool>, b: seq<bool>)
    ensures ShiftBits(c, a + b) == ShiftBits(ShiftBits(c, a), b)
    decreases |a|
  {
    if a == [] {
      assert a + b == b;
    } else {
      assert (a + b)[1..] == a[1..] + b;
      ShiftBitsConcat(ShiftBit(c, a[0]), a[1..], b);
    }
  }

  lemma {:induction false} UpdatesIsShiftBits(c: Word, bytes: Bytes)
    ensures Updates(c, bytes) == ShiftBits(c, MessageBits(bytes))
    decreases |bytes|
  {
    if bytes != [] {
      Pow2Values();
      ShiftBitsIsSteps(8, c, bytes[0]);
      ShiftBitsConcat(c, LowBits(8, bytes[0]), MessageBits(bytes[1..]));
      UpdatesIsShiftBits(Update(c, bytes[0]), bytes[1..]);
    }
  }

  lemma CrcIsReference(bytes: Bytes)
    ensures Crc(bytes) == Reference(bytes)
  {
    UpdatesIsShiftBits(ALL_ONES, bytes);
  }

  // --------------------------------------------------------------------------
  // The table-driven form
  // --------------------------------------------------------------------------

  ghost predicate IsTable(table: seq<Word>) {
    |table| == 256 && forall i: Byte :: table[i] == Steps(8, i)
  }

  /** Fills the 256-entry table, one register run per entry. */
  method BuildTable() returns (table: seq<Word>)
    ensures IsTable(table)
  {
    var entries := new Word[256];
    for i := 0 to 256
      invariant forall j :: 0 <= j < i ==> entries[j] == Steps(8, j)
    {
      var c: Word := i;
      for k := 0 to 8
        invariant Steps(8 - k, c) == Steps(8, i)
      {
        c := if c % 2 == 1 then XorWord(c / 2, POLY) else c / 2;
      }
      entries[i] := c;
    }
    table := entries[..];
  }

  /** Shifts of a register whose low bits are clear only move it down. */
  lemma {:induction false} StepsOfClearBits(k: nat, z: nat)
    requires z * Pow2(k) < 0x1_0000_0000
    ensures Steps(k, z * Pow2(k)) == z
  {
    if k != 0 {
      var half := z * Pow2(k - 1);
      assert z * Pow2(k) == 2 * half;
      StepsOfClearBits(k - 1, z);
    }
  }

  lemma StepsOfClearByte(z: nat)
    requires z < 0x100_0000
    ensures Steps(8, 256 * z) == z
  {
    Pow2Values();
    StepsOfClearBits(8, z);
  }

  /** Exclusive or with a multiple of `2^k` leaves the low `k` bits alone. */
  lemma {:induction false} XorAbove(k: nat, a: nat, z: nat)
    requires a < Pow2(k)
    ensures Xor(a, z * Pow2(k)) == a + z * Pow2(k)
  {
    if k == 0 {
      XorCommutes(0, z);
      XorZero(z);
    } else {
      assert z * Pow2(k) == 2 * (z * Pow2(k - 1));
      XorEven(a, z * Pow2(k - 1));
      XorAbove(k - 1, a / 2, z);
    }
  }

  lemma XorHighByte(a: Byte, z: nat)
    ensures Xor(a, 256 * z) == a + 256 * z
  {
    Pow2Values();
    XorAbove(8, a, z);
  }

  /** A byte mixed into a register does not reach past its low byte. */
  lemma XorLowByte(c: nat, b: Byte)
    ensures Xor(c, b) / 256 == c / 256
  {
    var low, high := c % 256, c / 256;
    XorHighByte(low, high);
    XorAssociates(low, 256 * high, b);
    XorCommutes(256 * high, b);
    XorAssociates(low, b, 256 * high);
    XorHighByte(XorByte(low, b), high);
  }

  /** One table lookup does the work of eight shifts. */
  lemma TableStep(table: seq<Word>, c: Word, b: Byte)
    requires IsTable(table)
    ensures XorWord(table[XorWord(c, b) % 256], c / 256) == Update(c, b)
  {
    var x := XorWord(c, b);
    XorHighByte(x % 256, x / 256);
    StepsLinear(8, x % 256, 256 * (x / 256));
    StepsOfClearByte(x / 256);
    XorLowByte(c, b);
  }

  /** The browser's checksum loop computes the CRC-32 of the standard. */
  method Crc32(table: seq<Word>, bytes: Bytes) returns (crc: Word)
    requires IsTable(table)
    ensures crc == Crc(bytes)
    ensures crc == Reference(bytes)
  {
    var c := ALL_ONES;
    for i := 0 to |bytes|
      invariant Updates(c, bytes[i..]) == Updates(ALL_ONES, bytes)
    {
      TableStep(table, c, bytes[i]);
      assert bytes[i..][1..] == bytes[i + 1..];
      c := XorWord(table[XorWord(c, bytes[i]) % 256], c / 256);
    }
    crc := ALL_ONES - c;
    CrcIsReference(bytes);
  }

  /** `sum` is this checksum, for code that only needs to know that some checksum is used. */
  ghost predicate IsChecksum(sum: Bytes -> Word) {
    forall bytes {:trigger Crc(bytes)} :: sum(bytes) == Crc(bytes)
  }

  method Checksum(table: seq<Word>, ghost sum: Bytes -> Word, bytes: Bytes) returns (crc: Word)
    requires IsTable(table) && IsChecksum(sum)
    ensures crc == sum(bytes)
  {
    crc := Crc32(table, bytes);
  }

  // --------------------------------------------------------------------------
  // Error detection
  // --------------------------------------------------------------------------

  lemma {:induction false} UpdatesConcat(c: Word, a: Bytes, b: Bytes)
    ensures Updates(c, a + b) == Updates(Updates(c, a), b)
    decreases |a|
  {
    if a == [] {
      assert a + b == b;
    } else {
      assert (a + b)[1..] == a[1..] + b;
      UpdatesConcat(Update(c, a[0]), a[1..], b);
    }
  }

  /** Bytes that follow never merge two different registers. */
  lemma {:induction false} UpdatesInjectiveInRegister(c: Word, d: Word, bytes: Bytes)
    requires Updates(c, bytes) == Updates(d, bytes)
    ensures c == d
    decreases |bytes|
  {
    if bytes != [] {
      var b := bytes[0];
      UpdatesInjectiveInRegister(Update(c, b), Update(d, b), bytes[1..]);
      StepsInjective(8, XorWord(c, b), XorWord(d, b));
      XorInvolution(c, b);
      XorInvolution(d, b);
    }
  }

  /** Bytes as one little-endian number. */
  function Window(w: Bytes): nat {
    if w == [] then 0 else w[0] as int + 256 * Window(w[1..])
  }

  lemma WindowBound(w: Bytes)
    ensures |w| <= 3 ==> Window(w) < 0x100_0000
    ensures |w| <= 4 ==> Window(w) < 0x1_0000_0000
    ensures |w| <= 2 ==> Window(w) < 0x1_0000
    ensures |w| <= 1 ==> Window(w) < 256
  {
  }

  lemma {:induction false} WindowInjective(v: Bytes, w: Bytes)
    requires |v| == |w|
    requires Window(v) == Window(w)
    ensures v == w
  {
    if v != [] {
      WindowInjective(v[1..], w[1..]);
      assert v == [v[0]] + v[1..];
      assert w == [w[0]] + w[1..];
    }
  }

  /** Running the register over a window is one long shift of register and window together. */
  lemma {:induction false} UpdatesOfWindow(c: Word, w: Bytes)
    requires |w| <= 4
    ensures Window(w) < 0x1_0000_0000
    ensures Updates(c, w) == Steps(8 * |w|, XorWord(c, Window(w)))
    decreases |w|
  {
    WindowBound(w);
    if w == [] {
      XorZero(c);
    } else {
      var y := Window(w[1..]);
      WindowBound(w[1..]);
      UpdatesOfWindow(Update(c, w[0]), w[1..]);
      XorHighByte(w[0], y);
      XorAssociates(c, w[0], 256 * y);
      StepsLinear(8, XorWord(c, w[0]), 256 * y);
      StepsOfClearByte(y);
      StepsAdd(8, 8 * |w[1..]|, XorWord(c, Window(w)));
    }
  }

  /**
   Two messages of the same length that differ only inside a window of at most four
   consecutive bytes never share a CRC.
   */
  lemma BurstDetected(before: Bytes, v: Bytes, w: Bytes, after: Bytes)
    requires |v| == |w| <= 4
    requires v != w
    ensures Crc(before + v + after) != Crc(before + w + after)
  {
    var c := Updates(ALL_ONES, before);
    UpdatesConcat(ALL_ONES, before, v);
    UpdatesConcat(ALL_ONES, before, w);
    UpdatesConcat(ALL_ONES, before + v, after);
    UpdatesConcat(ALL_ONES, before + w, after);
    if Crc(before + v + after) == Crc(before + w + after) {
      UpdatesInjectiveInRegister(Updates(c, v), Updates(c, w), after);
      UpdatesOfWindow(c, v);
      UpdatesOfWindow(c, w);
      StepsInjective(8 * |v|, XorWord(c, Window(v)), XorWord(c, Window(w)));
      XorCancel(c, Window(v), Window(w));
      WindowInjective(v, w);
    }
  }

  // --------------------------------------------------------------------------
  // The checksum together with its message
  // --------------------------------------------------------------------------

  /** The register after any message and its own checksum. */
  function Residue(): Word {
    Steps(32, ALL_ONES)
  }

  lemma WindowOfWord(w: Word)
    ensures Window(PutU32(w)) == w
  {
    var bs := PutU32(w);
    U32RoundTrip(w);
    assert bs[1..][1..] == bs[2..] && bs[2..][1..] == bs[3..] && bs[3..][1..] == [];
    assert Window(bs[3..]) == bs[3] as int;
    assert Window(bs[2..]) == bs[2] as int + 256 * bs[3] as int;
    assert Window(bs[1..]) == bs[1] as int + 256 * (bs[2] as int + 256 * bs[3] as int);
  }

  lemma {:induction false} ComplementXor(k: nat, a: nat)
    requires a < Pow2(k)
    ensures Xor(a, Pow2(k) - 1 - a) == Pow2(k) - 1
  {
    if k != 0 {
      assert (Pow2(k) - 1 - a) / 2 == Pow2(k - 1) - 1 - a / 2;
      ComplementXor(k - 1, a / 2);
      XorBits(a, Pow2(k) - 1 - a);
    }
  }

  lemma RegisterAfterChecksum(c: Word)
    ensures Updates(c, PutU32(ALL_ONES - c)) == Residue()
  {
    var tail := PutU32(ALL_ONES - c);
    UpdatesOfWindow(c, tail);
    WindowOfWord(ALL_ONES - c);
    Pow2Values();
    ComplementXor(32, c);
  }

  lemma ChecksumLeavesResidue(bytes: Bytes)
    ensures Updates(ALL_ONES, bytes + PutU32(Crc(bytes))) == Residue()
  {
    UpdatesConcat(ALL_ONES, bytes, PutU32(Crc(bytes)));
    RegisterAfterChecksum(Updates(ALL_ONES, bytes));
  }

  /** A register after a window never equals that after another window in its place. */
  lemma WindowsDiffer(before: Bytes, v: Bytes, w: Bytes, after: Bytes)
    requires |v| == |w| <= 4 && v != w
    ensures Updates(ALL_ONES, before + v + after) != Updates(ALL_ONES, before + w + after)
  {
    BurstDetected(before, v, w, after);
  }

  /** A message with its checksum, damaged inside at most four consecutive bytes anywhere, in the
      message, in the checksum or across the border, is no message with its checksum any more. */
  lemma DamagedCodeword(bytes: Bytes, before: Bytes, v: Bytes, w: Bytes, after: Bytes, read: Bytes, crc: Word)
    requires bytes + PutU32(Crc(bytes)) == before + v + after
    requires |v| == |w| <= 4 && v != w
    requires before + w + after == read + PutU32(crc)
    ensures crc != Crc(read)
  {
    ChecksumLeavesResidue(bytes);
    ChecksumLeavesResidue(read);
    WindowsDiffer(before, v, w, after);
  }
}
