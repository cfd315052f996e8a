/** How stbi_zlib_compress writes a match: table searches, a length symbol and a distance symbol. */
module DeflateCodes {
  import opened Prelude
  import opened Bits
  import opened BitWriter
  import Inflate

  const LENGTHC: seq<nat> := [3, 4, 5, 6, 7, 8, 9, 10, 11, 13, 15, 17, 19, 23, 27, 31, 35, 43, 51, 59, 67, 83, 99,
                              115, 131, 163, 195, 227, 258, 259]
  const LENGTHEB: seq<nat> := [0, 0, 0, 0, 0, 0, 0, 0, 1, 1, 1, 1, 2, 2, 2, 2, 3, 3, 3, 3, 4, 4, 4, 4, 5, 5, 5, 5, 0]
  const DISTC: seq<nat> := [1, 2, 3, 4, 5, 7, 9, 13, 17, 25, 33, 49, 65, 97, 129, 193, 257, 385, 513, 769, 1025,
                            1537, 2049, 3073, 4097, 6145, 8193, 12289, 16385, 24577, 32768]
  const DISTEB: seq<nat> := [0, 0, 0, 0, 1, 1, 2, 2, 3, 3, 4, 4, 5, 5, 6, 6, 7, 7, 8, 8, 9, 9, 10, 10, 11, 11, 12, 12, 13, 13]

  /** The source's length tables are those of section 3.2.5 of RFC 1951. */
  lemma LengthTable(j: nat)
    requires j <= 28
    ensures LENGTHC[j] == Inflate.LengthBase(j) && LENGTHEB[j] == Inflate.LengthExtra(j) <= 5
    ensures LENGTHC[j + 1] - LENGTHC[j] <= Pow2(LENGTHEB[j])
  {
    LengthLayout(j);
    LengthStep(j);
    SmallShifts(4 + j % 4);
  }

  lemma LengthLayout(j: nat)
    requires j <= 28
    ensures LENGTHC[j] ==
            if j < 8 then 3 + j else if j < 12 then 11 + 2 * (j - 8) else if j < 16 then 19 + 4 * (j - 12)
            else if j < 20 then 35 + 8 * (j - 16) else if j < 24 then 67 + 16 * (j - 20)
            else if j < 28 then 131 + 32 * (j - 24) else 258
  {
  }

  lemma LengthStep(j: nat)
    requires j <= 28
    ensures LENGTHEB[j] == if j < 8 || j == 28 then 0 else j / 4 - 1
    ensures LENGTHC[j + 1] - LENGTHC[j] <=
            if j < 8 || j == 28 then 1 else if j < 12 then 2 else if j < 16 then 4 else if j < 20 then 8
            else if j < 24 then 16 else 32
  {
  }

  /** ... and so are its distance tables. */
  lemma DistTable(j: nat)
    requires j <= 29
    ensures DISTC[j] == Inflate.DistBase(j) && DISTEB[j] == Inflate.DistExtra(j) <= 13
    ensures DISTC[j + 1] - DISTC[j] <= Pow2(DISTEB[j])
  {
    var p := Power(j);
    DistLayout(j, p);
    DistStep(j, p);
    if j >= 4 {
      PowerIsPow2(j);
    }
  }

  /** 2^(extra bits) of distance symbol `j`. */
  ghost function Power(j: nat): nat
  {
    if j < 4 then 1 else if j < 6 then 2 else if j < 8 then 4 else if j < 10 then 8 else if j < 12 then 16
    else if j < 14 then 32 else if j < 16 then 64 else if j < 18 then 128 else if j < 20 then 256
    else if j < 22 then 512 else if j < 24 then 1024 else if j < 26 then 2048 else if j < 28 then 4096 else 8192
  }

  lemma PowerIsPow2(j: nat)
    requires 4 <= j <= 29
    ensures Power(j) == Pow2(j / 2 - 1)
    ensures ShiftLeft(2 + j % 2, j / 2 - 1) == if j % 2 == 0 then 2 * Power(j) else 3 * Power(j)
  {
    SmallShifts(2 + j % 2);
  }

  lemma DistLayout(j: nat, p: nat)
    requires j <= 29 && p == Power(j)
    ensures DISTC[j] == if j < 4 then 1 + j else 1 + if j % 2 == 0 then 2 * p else 3 * p
  {
  }

  lemma DistStep(j: nat, p: nat)
    requires j <= 29 && p == Power(j)
    ensures DISTEB[j] == if j < 4 then 0 else j / 2 - 1
    ensures DISTC[j + 1] - DISTC[j] <= p
  {
  }

  /** The search for a length's symbol, with the value left for its extra bits. */
  method LengthIndex(best: nat) returns (j: nat)
    requires 3 <= best <= 258
    ensures j <= 28 && LENGTHC[j] <= best
    ensures LENGTHC[j] == Inflate.LengthBase(j) && LENGTHEB[j] == Inflate.LengthExtra(j) <= 5
    ensures best - LENGTHC[j] < Pow2(LENGTHEB[j])
  {
    j := 0;
    while best > LENGTHC[j + 1] - 1
      invariant 0 <= j <= 28 && LENGTHC[j] <= best
      decreases 28 - j
    {
      j := j + 1;
    }
    LengthTable(j);
  }

  method DistIndex(d: nat) returns (j: nat)
    requires 1 <= d <= 32767
    ensures j <= 29 && DISTC[j] <= d
    ensures DISTC[j] == Inflate.DistBase(j) && DISTEB[j] == Inflate.DistExtra(j) <= 13
    ensures d - DISTC[j] < Pow2(DISTEB[j])
  {
    j := 0;
    while d > DISTC[j + 1] - 1
      invariant 0 <= j <= 29 && DISTC[j] <= d
      decreases 29 - j
    {
      j := j + 1;
    }
    DistTable(j);
  }

  /** A length or distance index and its extra bits, in that order; nothing for no extra bits. */
  method WriteExtra(w: Writer, x: nat, extra: nat)
    requires w.Valid() && extra <= 13 && x < Pow2(extra)
    modifies w
    ensures w.Valid() && w.Stream() == old(w.Stream()) + LowBits(x, extra)
  {
    if extra != 0 {
      w.Add(x, extra);
    }
  }

  /** The length/distance pair of a match, as stbi_zlib_compress writes it. */
  method WriteMatch(w: Writer, best: nat, d: nat)
    requires w.Valid() && 3 <= best <= 258 && 1 <= d <= 32767
    modifies w
    ensures w.Valid()
    ensures exists code ::
              w.Stream() == old(w.Stream()) + code && CopiesMatch(code, best, d)
  {
    ghost var start := w.Stream();
    var j := LengthIndex(best);
    w.AddSymbol(j + 257);
    var x, e := best - LENGTHC[j], LENGTHEB[j];
    WriteExtra(w, x, e);
    var k := DistIndex(d);
    w.AddCode(k, 5);
    var y, f := d - DISTC[k], DISTEB[k];
    WriteExtra(w, y, f);
    MatchCodeCopies(j, x, k, y, best, d);
    FourConcat(start, Inflate.FixedCode(257 + j), LowBits(x, e), HighFirst(k, 5), LowBits(y, f));
    assert w.Stream() == start + Inflate.MatchCode(j, x, k, y);
  }

  lemma FourConcat(s: bits, a: bits, b: bits, c: bits, d: bits)
    ensures (((s + a) + b) + c) + d == s + (a + (b + (c + d)))
  {
  }

  /** Decoding `code` copies `best` bytes from `d` back. */
  ghost predicate CopiesMatch(code: bits, best: nat, d: nat)
    requires d >= 1
  {
    forall out: bytes :: d <= |out| ==> Inflate.Codes(code, out, Inflate.CopyBack(out, d, best))
  }

  lemma MatchCodeCopies(j: nat, x: nat, k: nat, y: nat, best: nat, d: nat)
    requires Inflate.ValidMatchCode(j, x, k, y)
    requires best == Inflate.LengthBase(j) + x && d == Inflate.DistBase(k) + y
    ensures CopiesMatch(Inflate.MatchCode(j, x, k, y), best, d)
  {
    hide Inflate.Codes, Inflate.MatchCode, Inflate.CopyBack, Inflate.LengthBase, Inflate.DistBase;
    forall out: bytes | d <= |out|
      ensures Inflate.Codes(Inflate.MatchCode(j, x, k, y), out, Inflate.CopyBack(out, d, best))
    {
      Inflate.CodesMatch(j, x, k, y, out);
    }
  }
}
