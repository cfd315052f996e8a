/** The compressor's output side: a stretchy byte buffer fed through a 32-bit bit buffer. */
module BitWriter {
  import opened Prelude
  import opened Bits
  import Inflate

  class Writer {
    var out: bytes      // what stbiw__sbn counts
    var cap: nat        // what stbiw__sbm holds; 0 while nothing is allocated
    var bitbuf: u32
    var bitcount: nat

    ghost predicate Valid()
      reads this
    {
      && (cap == 0 ==> out == []) && (cap > 0 ==> |out| < cap)
      && bitcount < 8 && bitbuf < Pow2(bitcount)
    }

    /** Every bit written so far: the whole bytes, then those still in the bit buffer. */
    ghost function Stream(): bits
      reads this
    {
      BitsOf(out) + LowBits(bitbuf, bitcount)
    }

    constructor ()
      ensures Valid() && out == [] && bitcount == 0 && cap == 0
    {
      out, cap, bitbuf, bitcount := [], 0, 0, 0;
    }

    /** stbiw__sbpush: grows the allocation when the push would fill it. */
    method Push(v: byte)
      requires |out| < cap || (cap == 0 && out == [])
      modifies `out, `cap
      ensures out == old(out) + [v] && |out| < cap && cap >= old(cap)
    {
      if cap == 0 {
        cap := 2;
      } else if |out| + 1 >= cap {
        cap := 2 * cap + 1;
      }
      out := out + [v];
    }

    /** memcpy behind the buffer without a growth test: the room must be there already. */
    method Append(data: bytes)
      requires |out| + |data| <= cap
      modifies `out
      ensures out == old(out) + data
    {
      out := out + data;
    }

    /** One round of the loop below: the low byte moves to the output. */
    method FlushByte()
      requires |out| < cap || (cap == 0 && out == [])
      requires bitcount >= 8 && bitbuf < Pow2(bitcount)
      modifies this
      ensures |out| < cap && bitcount == old(bitcount) - 8 && bitbuf < Pow2(bitcount)
      ensures Stream() == old(Stream())
    {
      LowBitsSplitByte(bitbuf, bitcount);
      BitsOfConcat(out, [bitbuf % 256]);
      BitsOfOne(bitbuf % 256);
      Pow2Byte(bitcount);
      ConcatAssoc(BitsOf(out), LowBits(bitbuf % 256, 8), LowBits(bitbuf / 256, bitcount - 8));
      Push(bitbuf % 256);
      bitbuf := bitbuf / 256;
      bitcount := bitcount - 8;
    }

    /** stbiw__zlib_flushf */
    method Flush()
      requires |out| < cap || (cap == 0 && out == [])
      requires bitcount < 24 && bitbuf < Pow2(bitcount)
      modifies this
      ensures Valid() && Stream() == old(Stream())
    {
      while bitcount >= 8
        invariant |out| < cap || (cap == 0 && out == [])
        invariant bitbuf < Pow2(bitcount)
        invariant Stream() == old(Stream())
      {
        FlushByte();
      }
    }

    /** stbiw__zlib_add */
    method Add(code: nat, codebits: nat)
      requires Valid() && codebits <= 13 && code < Pow2(codebits)
      modifies this
      ensures Valid() && Stream() == old(Stream()) + LowBits(code, codebits)
    {
      ShiftInRange(code, codebits, bitcount, bitbuf);
      BitOrDisjoint(bitbuf, code, bitcount);
      LowBitsConcat(bitbuf, bitcount, code, codebits);
      bitbuf := BitOr(bitbuf, ShiftLeft(code, bitcount) % 0x1_0000_0000);
      bitcount := bitcount + codebits;
      assert Stream() == old(Stream()) + LowBits(code, codebits);
      Flush();
    }

    /** stbiw__zlib_huffa: a codeword, most significant bit first. */
    method AddCode(code: nat, codebits: nat)
      requires Valid() && codebits <= 13 && code < Pow2(codebits)
      modifies this
      ensures Valid() && Stream() == old(Stream()) + HighFirst(code, codebits)
    {
      var r := BitReverse(code, codebits);
      Add(r, codebits);
    }

    /** stbiw__zlib_huff: the codeword of literal/length symbol `n`. */
    method AddSymbol(n: nat)
      requires Valid() && n < 288
      modifies this
      ensures Valid() && Stream() == old(Stream()) + Inflate.FixedCode(n)
    {
      ShiftLeftEight(0);
      assert Pow2(7) == 128 && Pow2(9) == 512;
      if n <= 143 {
        AddCode(0x30 + n, 8);
      } else if n <= 255 {
        AddCode(0x190 + n - 144, 9);
      } else if n <= 279 {
        AddCode(n - 256, 7);
      } else {
        AddCode(0xC0 + n - 280, 8);
      }
    }
  }

  /** stbiw__zlib_bitrev */
  method BitReverse(code: nat, codebits: nat) returns (res: nat)
    ensures res < Pow2(codebits)
    ensures LowBits(res, codebits) == HighFirst(code, codebits)
  {
    res := 0;
    var c, k := code, 0;
    while k < codebits
      invariant 0 <= k <= codebits && res < Pow2(k)
      invariant HighFirst(c, codebits - k) + LowBits(res, k) == HighFirst(code, codebits)
    {
      ghost var high := HighFirst(c / 2, codebits - k - 1);
      assert HighFirst(c, codebits - k) == high + [c % 2 == 1];
      assert LowBits(2 * res + c % 2, k + 1) == [c % 2 == 1] + LowBits(res, k);
      ConcatAssoc(high, [c % 2 == 1], LowBits(res, k));
      res := 2 * res + c % 2;
      c, k := c / 2, k + 1;
    }
  }

  lemma Pow2Byte(n: nat)
    requires n >= 8
    ensures Pow2(n) == 256 * Pow2(n - 8)
  {
    assert Pow2(n) == 2 * Pow2(n - 1) == 4 * Pow2(n - 2) == 8 * Pow2(n - 3) == 16 * Pow2(n - 4);
    assert Pow2(n - 4) == 2 * Pow2(n - 5) == 4 * Pow2(n - 6) == 8 * Pow2(n - 7) == 16 * Pow2(n - 8);
  }

  lemma {:induction false} Pow2Monotone(a: nat, b: nat)
    requires a <= b
    ensures Pow2(a) <= Pow2(b)
  {
    if a < b {
      Pow2Monotone(a, b - 1);
    }
  }

  /** A code shifted behind fewer than eight bits stays far below 2^32. */
  lemma ShiftInRange(code: nat, codebits: nat, bitcount: nat, bitbuf: nat)
    requires code < Pow2(codebits) && codebits <= 13 && bitcount < 8 && bitbuf < Pow2(bitcount)
    ensures ShiftLeft(code, bitcount) % 0x1_0000_0000 == ShiftLeft(code, bitcount)
    ensures bitbuf + ShiftLeft(code, bitcount) < Pow2(bitcount + codebits) < 0x1_0000_0000
  {
    ShiftedSumBound(bitbuf, bitcount, code, codebits);
    Pow2Monotone(bitcount + codebits, 24);
    Pow2Byte(24);
    Pow2Byte(16);
    ShiftLeftEight(0);
  }
}
