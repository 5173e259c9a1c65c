/**
 Bytes and machine words as bounded integers, with the bit operations the codecs use.
 Shifts and masks by constants are divisions and remainders; exclusive or is defined
 bit by bit.
 */
module Bytes {

  type Byte = b: int | 0 <= b < 256

  /** An unsigned 32-bit word. */
  type Word = w: int | 0 <= w < 0x1_0000_0000

  type Bytes = seq<Byte>

  // --------------------------------------------------------------------------
  // Exclusive or
  // --------------------------------------------------------------------------

  function Xor(a: nat, b: nat): nat {
    if a == 0 && b == 0 then 0
    else 2 * Xor(a / 2, b / 2) + (if a % 2 == b % 2 then 0 else 1)
  }

  lemma XorBits(a: nat, b: nat)
    ensures Xor(a, b) / 2 == Xor(a / 2, b / 2)
    ensures Xor(a, b) % 2 == if a % 2 == b % 2 then 0 else 1
  {
  }

  lemma {:induction false} XorZero(a: nat)
    ensures Xor(a, 0) == a
  {
    if a != 0 {
      XorZero(a / 2);
    }
  }

  lemma {:induction false} XorCommutes(a: nat, b: nat)
    ensures Xor(a, b) == Xor(b, a)
  {
    if a != 0 || b != 0 {
      XorCommutes(a / 2, b / 2);
    }
  }

  lemma {:induction false} XorAssociates(a: nat, b: nat, c: nat)
    ensures Xor(Xor(a, b), c) == Xor(a, Xor(b, c))
  {
    if a != 0 || b != 0 || c != 0 {
      XorBits(a, b);
      XorBits(b, c);
      XorBits(Xor(a, b), c);
      XorBits(a, Xor(b, c));
      XorAssociates(a / 2, b / 2, c / 2);
    }
  }

  lemma {:induction false} XorSelf(a: nat)
    ensures Xor(a, a) == 0
  {
    if a != 0 {
      XorSelf(a / 2);
    }
  }

  /** Applying the same mask twice gives the value back. */
  lemma XorInvolution(a: nat, k: nat)
    ensures Xor(Xor(a, k), k) == a
  {
    XorAssociates(a, k, k);
    XorSelf(k);
    XorZero(a);
  }

  lemma XorCancel(c: nat, x: nat, y: nat)
    requires Xor(c, x) == Xor(c, y)
    ensures x == y
  {
    XorCommutes(c, x);
    XorCommutes(c, y);
    XorInvolution(x, c);
    XorInvolution(y, c);
  }

  function Pow2(k: nat): (p: nat)
    ensures p > 0
  {
    if k == 0 then 1 else 2 * Pow2(k - 1)
  }

  lemma {:induction false} XorBound(k: nat, a: nat, b: nat)
    requires a < Pow2(k) && b < Pow2(k)
    ensures Xor(a, b) < Pow2(k)
  {
    if k != 0 {
      XorBound(k - 1, a / 2, b / 2);
    }
  }

  lemma Pow2Values()
    ensures Pow2(8) == 256
    ensures Pow2(31) == 0x8000_0000
    ensures Pow2(32) == 0x1_0000_0000
  {
    assert Pow2(8) == 256;
    assert Pow2(16) == 0x1_0000;
    assert Pow2(24) == 0x100_0000;
  }

  lemma XorByteBound(a: Byte, b: Byte)
    ensures Xor(a, b) < 256
  {
    Pow2Values();
    XorBound(8, a, b);
  }

  lemma XorWordBound(a: Word, b: Word)
    ensures Xor(a, b) < 0x1_0000_0000
  {
    Pow2Values();
    XorBound(32, a, b);
  }

  function XorByte(a: Byte, b: Byte): Byte {
    XorByteBound(a, b);
    Xor(a, b)
  }

  function XorWord(a: Word, b: Word): Word {
    XorWordBound(a, b);
    Xor(a, b)
  }

  // --------------------------------------------------------------------------
  // Little-endian 32-bit words
  // --------------------------------------------------------------------------

  function PutU32(w: Word): (bs: Bytes)
    ensures |bs| == 4
  {
    [w % 256, w / 256 % 256, w / 256 / 256 % 256, w / 256 / 256 / 256]
  }

  function GetU32(bs: Bytes): Word
    requires |bs| == 4
  {
    bs[0] as int + 256 * (bs[1] as int + 256 * (bs[2] as int + 256 * (bs[3] as int)))
  }

  lemma U32RoundTrip(w: Word)
    ensures GetU32(PutU32(w)) == w
  {
  }

  lemma U32Canonical(bs: Bytes)
    requires |bs| == 4
    ensures PutU32(GetU32(bs)) == bs
  {
    var w := GetU32(bs);
    assert w % 256 == bs[0] && w / 256 == bs[1] as int + 256 * (bs[2] as int + 256 * (bs[3] as int));
    assert w / 256 / 256 == bs[2] as int + 256 * (bs[3] as int);
  }

  // --------------------------------------------------------------------------
  // Big-endian numbers of any length
  // --------------------------------------------------------------------------

  function Pow256(k: nat): (p: nat)
    ensures p > 0
  {
    if k == 0 then 1 else 256 * Pow256(k - 1)
  }

  function PutBE(k: nat, n: nat): (bs: Bytes)
    ensures |bs| == k
  {
    if k == 0 then [] else PutBE(k - 1, n / 256) + [n % 256]
  }

  function GetBE(bs: Bytes): nat {
    if bs == [] then 0 else GetBE(bs[..|bs| - 1]) * 256 + bs[|bs| - 1] as int
  }

  lemma {:induction false} BERoundTrip(k: nat, n: nat)
    requires n < Pow256(k)
    ensures GetBE(PutBE(k, n)) == n
  {
    if k != 0 {
      BERoundTrip(k - 1, n / 256);
      assert PutBE(k, n)[..k - 1] == PutBE(k - 1, n / 256);
    }
  }

  lemma {:induction false} BECanonical(bs: Bytes)
    ensures PutBE(|bs|, GetBE(bs)) == bs
  {
    if bs != [] {
      BECanonical(bs[..|bs| - 1]);
    }
  }

  /** `n >> 8 * i`. */
  function ShiftBytes(n: nat, i: nat): nat {
    if i == 0 then n else ShiftBytes(n, i - 1) / 256
  }
}
