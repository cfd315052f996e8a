/**
 Bit strings as DEFLATE uses them: a stream of bits packed into bytes starting with the
 least significant bit (section 3.1.1 of RFC 1951), plain integers stored least
 significant bit first, Huffman codes stored most significant bit first.
 */
module Bits {
  import opened Prelude

  type bits = seq<bool>

  function Pow2(n: nat): (r: nat)
    ensures r > 0
  {
    if n == 0 then 1 else 2 * Pow2(n - 1)
  }

  /** The low `n` bits of `v`, least significant first. */
  function LowBits(v: nat, n: nat): (b: bits)
    ensures |b| == n
  {
    if n == 0 then [] else [v % 2 == 1] + LowBits(v / 2, n - 1)
  }

  /** The low `n` bits of `v`, most significant first. */
  function HighFirst(v: nat, n: nat): (b: bits)
    ensures |b| == n
  {
    if n == 0 then [] else HighFirst(v / 2, n - 1) + [v % 2 == 1]
  }

  function BitValue(b: bool): nat { if b then 1 else 0 }

  /** The number whose bits, least significant first, are `b`. */
  function FromLow(b: bits): nat
  {
    if b == [] then 0 else BitValue(b[0]) + 2 * FromLow(b[1..])
  }

  /** The number whose bits, most significant first, are `b`. */
  function FromHigh(b: bits): nat
  {
    if b == [] then 0 else 2 * FromHigh(b[..|b| - 1]) + BitValue(b[|b| - 1])
  }

  /** The bit stream of a byte string. */
  function BitsOf(s: bytes): (b: bits)
    ensures |b| == 8 * |s|
  {
    if s == [] then [] else LowBits(s[0], 8) + BitsOf(s[1..])
  }

  /** Bitwise or on naturals. */
  function BitOr(a: nat, b: nat): nat
  {
    if a == 0 then b
    else if b == 0 then a
    else BitValue(a % 2 == 1 || b % 2 == 1) + 2 * BitOr(a / 2, b / 2)
  }

  /** Bitwise exclusive or on naturals. */
  function BitXor(a: nat, b: nat): nat
  {
    if a == 0 then b
    else if b == 0 then a
    else BitValue(a % 2 != b % 2) + 2 * BitXor(a / 2, b / 2)
  }

  lemma {:induction false} FromLowLowBits(v: nat, n: nat)
    requires v < Pow2(n)
    ensures FromLow(LowBits(v, n)) == v
  {
    if n == 0 {
    } else {
      FromLowLowBits(v / 2, n - 1);
      assert LowBits(v, n)[1..] == LowBits(v / 2, n - 1);
    }
  }

  lemma {:induction false} FromHighHighFirst(v: nat, n: nat)
    requires v < Pow2(n)
    ensures FromHigh(HighFirst(v, n)) == v
  {
    if n == 0 {
    } else {
      FromHighHighFirst(v / 2, n - 1);
      assert HighFirst(v, n)[..n - 1] == HighFirst(v / 2, n - 1);
    }
  }

  /** `v` shifted left by `n`. */
  function ShiftLeft(v: nat, n: nat): nat
  {
    if n == 0 then v else 2 * ShiftLeft(v, n - 1)
  }

  /** Or-ing in a value shifted past the occupied bits is an addition. */
  lemma {:induction false} BitOrDisjoint(a: nat, v: nat, n: nat)
    requires a < Pow2(n)
    ensures BitOr(a, ShiftLeft(v, n)) == a + ShiftLeft(v, n)
  {
    if n == 0 || a == 0 || ShiftLeft(v, n) == 0 {
    } else {
      BitOrDisjoint(a / 2, v, n - 1);
      assert ShiftLeft(v, n) / 2 == ShiftLeft(v, n - 1);
    }
  }

  lemma {:induction false} ShiftedSumBound(a: nat, n: nat, v: nat, m: nat)
    requires a < Pow2(n) && v < Pow2(m)
    ensures a + ShiftLeft(v, n) < Pow2(n + m)
  {
    if n == 0 {
    } else {
      ShiftedSumBound(a / 2, n - 1, v, m);
    }
  }

  /** ... and on the bit strings it is concatenation. */
  lemma {:induction false} LowBitsConcat(a: nat, n: nat, v: nat, m: nat)
    requires a < Pow2(n)
    ensures LowBits(a + ShiftLeft(v, n), n + m) == LowBits(a, n) + LowBits(v, m)
  {
    if n == 0 {
    } else {
      LowBitsConcat(a / 2, n - 1, v, m);
      var p := ShiftLeft(v, n - 1);
      assert (a + 2 * p) / 2 == a / 2 + p && (a + 2 * p) % 2 == a % 2;
      assert LowBits(a + 2 * p, n + m) == [a % 2 == 1] + LowBits(a / 2 + p, n - 1 + m);
    }
  }

  lemma ShiftLeftEight(v: nat)
    ensures ShiftLeft(v, 8) == 256 * v && Pow2(8) == 256
  {
    SmallShifts(v);
  }

  lemma SmallShifts(v: nat)
    ensures ShiftLeft(v, 0) == v && ShiftLeft(v, 1) == 2 * v && ShiftLeft(v, 2) == 4 * v && ShiftLeft(v, 3) == 8 * v
    ensures ShiftLeft(v, 4) == 16 * v && ShiftLeft(v, 5) == 32 * v && ShiftLeft(v, 6) == 64 * v
    ensures ShiftLeft(v, 7) == 128 * v && ShiftLeft(v, 8) == 256 * v && ShiftLeft(v, 9) == 512 * v
    ensures ShiftLeft(v, 10) == 1024 * v && ShiftLeft(v, 11) == 2048 * v && ShiftLeft(v, 12) == 4096 * v
    ensures ShiftLeft(v, 13) == 8192 * v
    ensures Pow2(0) == 1 && Pow2(1) == 2 && Pow2(2) == 4 && Pow2(3) == 8 && Pow2(4) == 16 && Pow2(5) == 32
    ensures Pow2(6) == 64 && Pow2(7) == 128 && Pow2(8) == 256 && Pow2(9) == 512 && Pow2(10) == 1024
    ensures Pow2(11) == 2048 && Pow2(12) == 4096 && Pow2(13) == 8192
  {
  }

  /** Splitting off the low byte of a bit string of at least eight bits. */
  lemma LowBitsSplitByte(v: nat, n: nat)
    requires n >= 8
    ensures LowBits(v, n) == LowBits(v % 256, 8) + LowBits(v / 256, n - 8)
  {
    hide LowBits;
    ShiftLeftEight(v / 256);
    LowBitsConcat(v % 256, 8, v / 256, n - 8);
  }

  lemma {:induction false} BitsOfConcat(a: bytes, b: bytes)
    ensures BitsOf(a + b) == BitsOf(a) + BitsOf(b)
  {
    hide LowBits;
    if a == [] {
      assert a + b == b;
    } else {
      BitsOfConcat(a[1..], b);
      assert (a + b)[1..] == a[1..] + b;
    }
  }

  lemma BitsOfOne(x: byte)
    ensures BitsOf([x]) == LowBits(x, 8)
  {
    assert [x][1..] == [];
  }

  /** The byte string packed in a bit string; the inverse of `BitsOf`. */
  function BytesOf(b: bits): (s: bytes)
    requires |b| % 8 == 0
    ensures BitsOf(s) == b
    ensures |b| == 8 * |s|
  {
    if b == [] then []
    else
      FromLowBound(b[..8]);
      LowBitsFromLow(b[..8]);
      var s := [FromLow(b[..8])] + BytesOf(b[8..]);
      assert s[1..] == BytesOf(b[8..]);
      assert b == b[..8] + b[8..];
      s
  }

  lemma {:induction false} FromLowBound(b: bits)
    ensures FromLow(b) < Pow2(|b|)
    ensures |b| == 8 ==> FromLow(b) < 256
  {
    if b == [] {
    } else {
      FromLowBound(b[1..]);
    }
    if |b| == 8 { ShiftLeftEight(0); }
  }

  lemma {:induction false} LowBitsFromLow(b: bits)
    ensures LowBits(FromLow(b), |b|) == b
  {
    if b == [] {
    } else {
      LowBitsFromLow(b[1..]);
      assert (BitValue(b[0]) + 2 * FromLow(b[1..])) / 2 == FromLow(b[1..]);
    }
  }

  lemma BytesOfBitsOf(s: bytes)
    ensures BytesOf(BitsOf(s)) == s
  {
    BitsOfInjective(BytesOf(BitsOf(s)), s);
  }

  lemma {:induction false} BitsOfInjective(a: bytes, b: bytes)
    requires BitsOf(a) == BitsOf(b)
    ensures a == b
  {
    assert |a| == |b|;
    if a == [] {
    } else {
      assert BitsOf(a)[..8] == LowBits(a[0], 8);
      assert BitsOf(b)[..8] == LowBits(b[0], 8);
      ShiftLeftEight(0);
      FromLowLowBits(a[0], 8);
      FromLowLowBits(b[0], 8);
      assert BitsOf(a)[8..] == BitsOf(a[1..]);
      assert BitsOf(b)[8..] == BitsOf(b[1..]);
      BitsOfInjective(a[1..], b[1..]);
    }
  }
}
