/**
 The reader's side of the PNG writer's compressor, written from the standards and not
 from the encoder: DEFLATE with stored and fixed-Huffman blocks (sections 3.2.3 to 3.2.6
 of RFC 1951) and the zlib wrapper (section 2.2 of RFC 1950).
 */
module Inflate {
  import opened Prelude
  import opened Bits
  import opened Adler32

  // ----- fixed Huffman code (section 3.2.6) -----

  /** The codeword of literal/length symbol `n`. */
  ghost function FixedCode(n: nat): bits
    requires n < 288
  {
    if n <= 143 then HighFirst(0x30 + n, 8)
    else if n <= 255 then HighFirst(0x190 + (n - 144), 9)
    else if n <= 279 then HighFirst(n - 256, 7)
    else HighFirst(0xC0 + (n - 280), 8)
  }

  /** Reads one literal/length symbol. */
  ghost function ReadSymbol(b: bits): (r: Option<(nat, bits)>)
    ensures r.Some? ==> |r.value.1| < |b|
  {
    if |b| < 7 then None
    else if FromHigh(b[..7]) < 24 then Some((256 + FromHigh(b[..7]), b[7..]))
    else if |b| < 8 then None
    else if 48 <= FromHigh(b[..8]) < 192 then Some((FromHigh(b[..8]) - 48, b[8..]))
    else if 192 <= FromHigh(b[..8]) < 200 then Some((FromHigh(b[..8]) - 192 + 280, b[8..]))
    else if |b| < 9 || FromHigh(b[..9]) < 400 then None
    else Some((FromHigh(b[..9]) - 400 + 144, b[9..]))
  }

  lemma ReadFixedCode(n: nat, rest: bits)
    requires n < 288
    ensures ReadSymbol(FixedCode(n) + rest) == Some((n, rest))
  {
    var code := if n <= 143 then 0x30 + n else if n <= 255 then 0x190 + (n - 144)
                else if n <= 279 then n - 256 else 0xC0 + (n - 280);
    var size := if n <= 143 then 8 else if n <= 255 then 9 else if n <= 279 then 7 else 8;
    SmallShifts(0);
    CodePrefixes(code, size, rest);
    ReadPrefix(FixedCode(n) + rest, n, code, size, rest);
  }

  lemma ReadPrefix(b: bits, n: nat, code: nat, size: nat, rest: bits)
    requires n < 288
    requires code == if n <= 143 then 0x30 + n else if n <= 255 then 0x190 + (n - 144)
                     else if n <= 279 then n - 256 else 0xC0 + (n - 280)
    requires size == if n <= 143 then 8 else if n <= 255 then 9 else if n <= 279 then 7 else 8
    requires |b| >= size && b[size..] == rest && FromHigh(b[..size]) == code
    requires size > 7 ==> FromHigh(b[..size - 1]) == code / 2
    requires size > 8 ==> FromHigh(b[..size - 2]) == code / 4
    ensures ReadSymbol(b) == Some((n, rest))
  {
  }

  /** The values a reader sees in the first seven, eight and nine bits of a codeword. */
  lemma CodePrefixes(code: nat, n: nat, rest: bits)
    requires 7 <= n <= 9 && code < Pow2(n)
    ensures var b := HighFirst(code, n) + rest;
            && b[n..] == rest && FromHigh(b[..n]) == code
            && (n > 7 ==> FromHigh(b[..n - 1]) == code / 2)
            && (n > 8 ==> FromHigh(b[..n - 2]) == code / 4)
  {
    hide HighFirst, FromHigh;
    var b := HighFirst(code, n) + rest;
    assert b[..n] == HighFirst(code, n);
    FromHighHighFirst(code, n);
    if n > 7 {
      AllButLast(code, n);
      assert b[..n - 1] == HighFirst(code, n)[..n - 1];
      FromHighHighFirst(code / 2, n - 1);
    }
    if n > 8 {
      AllButLast(code / 2, n - 1);
      assert b[..n - 2] == HighFirst(code, n)[..n - 1][..n - 2];
      FromHighHighFirst(code / 2 / 2, n - 2);
    }
  }

  lemma AllButLast(code: nat, n: nat)
    requires n > 0 && code < Pow2(n)
    ensures HighFirst(code, n)[..n - 1] == HighFirst(code / 2, n - 1) && code / 2 < Pow2(n - 1)
  {
  }

  // ----- length and distance codes (section 3.2.5) -----

  /** Number of extra bits after length symbol 257 + `k`. */
  ghost function LengthExtra(k: nat): nat
  {
    if k < 8 || k == 28 then 0 else k / 4 - 1
  }

  /** Shortest match length of length symbol 257 + `k`. */
  ghost function LengthBase(k: nat): nat
  {
    if k < 8 then 3 + k else if k == 28 then 258 else 3 + ShiftLeft(4 + k % 4, k / 4 - 1)
  }

  ghost function DistExtra(k: nat): nat
  {
    if k < 4 then 0 else k / 2 - 1
  }

  ghost function DistBase(k: nat): (d: nat)
    ensures d >= 1
  {
    if k < 4 then 1 + k else 1 + ShiftLeft(2 + k % 2, k / 2 - 1)
  }

  /** Appends `len` bytes, each a copy of the one `dist` places before it. */
  ghost function CopyBack(out: bytes, dist: nat, len: nat): bytes
    requires 1 <= dist <= |out|
    decreases len
  {
    if len == 0 then out else CopyBack(out + [out[|out| - dist]], dist, len - 1)
  }

  // ----- block contents -----

  /** Reads an `n`-bit integer (stored least significant bit first). */
  ghost function ReadInt(b: bits, n: nat): (r: Option<(nat, bits)>)
    ensures r.Some? ==> |r.value.1| == |b| - n
  {
    if |b| < n then None else Some((FromLow(b[..n]), b[n..]))
  }

  /** Reads an `n`-bit codeword (stored most significant bit first). */
  ghost function ReadWord(b: bits, n: nat): (r: Option<(nat, bits)>)
    ensures r.Some? ==> |r.value.1| == |b| - n
  {
    if |b| < n then None else Some((FromHigh(b[..n]), b[n..]))
  }

  lemma ReadIntBack(v: nat, n: nat, rest: bits)
    requires v < Pow2(n)
    ensures ReadInt(LowBits(v, n) + rest, n) == Some((v, rest))
  {
    FromLowLowBits(v, n);
    assert (LowBits(v, n) + rest)[..n] == LowBits(v, n);
  }

  lemma ReadWordBack(v: nat, n: nat, rest: bits)
    requires v < Pow2(n)
    ensures ReadWord(HighFirst(v, n) + rest, n) == Some((v, rest))
  {
    FromHighHighFirst(v, n);
    assert (HighFirst(v, n) + rest)[..n] == HighFirst(v, n);
  }

  /** The distance at the start of `b`. */
  ghost function ReadDistance(b: bits): (r: Option<(nat, bits)>)
    ensures r.Some? ==> |r.value.1| <= |b| && r.value.0 >= 1
  {
    match ReadWord(b, 5)
    case None => None
    case Some((d, b1)) =>
      if d > 29 then None
      else
        match ReadInt(b1, DistExtra(d))
        case None => None
        case Some((y, b2)) => Some((DistBase(d) + y, b2))
  }

  /** The length and distance that follow length symbol 257 + `k`, and the bits after them. */
  ghost function ReadMatch(k: nat, b: bits): (r: Option<(nat, nat, bits)>)
    ensures r.Some? ==> |r.value.2| <= |b| && r.value.1 >= 1
  {
    if k > 28 then None
    else
      match ReadInt(b, LengthExtra(k))
      case None => None
      case Some((x, b1)) =>
        match ReadDistance(b1)
        case None => None
        case Some((dist, b2)) => Some((LengthBase(k) + x, dist, b2))
  }

  /** Decodes symbols up to and including end-of-block; the output so far is `out`. */
  ghost function ReadCodes(b: bits, out: bytes): (r: Option<(bytes, bits)>)
    ensures r.Some? ==> |r.value.1| < |b|
    decreases |b|
  {
    match ReadSymbol(b)
    case None => None
    case Some((n, rest)) =>
      if n < 256 then ReadCodes(rest, out + [n])
      else if n == 256 then Some((out, rest))
      else
        match ReadMatch(n - 257, rest)
        case None => None
        case Some((len, dist, rest')) =>
          if dist > |out| then None else ReadCodes(rest', CopyBack(out, dist, len))
  }

  /** Skips to the next byte boundary of a stream whose end is one. */
  ghost function Align(b: bits): (r: bits)
    ensures |r| % 8 == 0 && |r| <= |b|
  {
    b[|b| % 8..]
  }

  /** Decodes a stored block after its three header bits. */
  ghost function ReadStored(b: bits, out: bytes): (r: Option<(bytes, bits)>)
    ensures r.Some? ==> |r.value.1| <= |b|
  {
    var a := Align(b);
    if |a| < 32 then None
    else
      var len := FromLow(a[..16]);
      if len + FromLow(a[16..32]) != 0xFFFF || |a| < 32 + 8 * len then None
      else Some((out + BytesOf(a[32..32 + 8 * len]), a[32 + 8 * len..]))
  }

  /** Decodes blocks up to the one marked final. */
  ghost function ReadBlocks(b: bits, out: bytes): Option<(bytes, bits)>
    decreases |b|
  {
    if |b| < 3 then None
    else
      var r := if b[1..3] == [false, false] then ReadStored(b[3..], out)
               else if b[1..3] == [true, false] then ReadCodes(b[3..], out)
               else None;
      match r
      case None => None
      case Some((out', rest)) => if b[0] then Some((out', rest)) else ReadBlocks(rest, out')
  }

  // ----- zlib wrapper -----

  ghost predicate ValidHeader(cmf: byte, flg: byte)
  {
    && cmf % 16 == 8 && cmf / 16 <= 7
    && (cmf * 256 + flg) % 31 == 0
    && flg / 32 % 2 == 0
  }

  ghost function BigEndian(t: bytes): nat
  {
    if t == [] then 0 else BigEndian(t[..|t| - 1]) * 256 + t[|t| - 1]
  }

  /** The data a whole zlib stream stands for, or None when it is not one. */
  ghost function ReadZlib(s: bytes): Option<bytes>
  {
    if |s| < 2 || !ValidHeader(s[0], s[1]) then None
    else
      match ReadBlocks(BitsOf(s[2..]), [])
      case None => None
      case Some((out, rest)) =>
        var t := BytesOf(Align(rest));
        if |t| == 4 && BigEndian(t) == Checksum(out)
        then Some(out) else None
  }

  // ----- how decoding composes -----

  /** Reading `code` takes the output from `out` to `out'`, whatever follows. */
  ghost predicate Codes(code: bits, out: bytes, out': bytes)
  {
    forall rest: bits :: ReadCodes(code + rest, out) == ReadCodes(rest, out')
  }

  lemma CodesNothing(out: bytes)
    ensures Codes([], out, out)
  {
    forall rest: bits
      ensures ReadCodes([] + rest, out) == ReadCodes(rest, out)
    {
      assert [] + rest == rest;
    }
  }

  lemma CodesCompose(c: bits, d: bits, out: bytes, out': bytes, out'': bytes)
    requires Codes(c, out, out') && Codes(d, out', out'')
    ensures Codes(c + d, out, out'')
  {
    forall rest: bits
      ensures ReadCodes((c + d) + rest, out) == ReadCodes(rest, out'')
    {
      ConcatAssoc(c, d, rest);
    }
  }

  lemma CodesLiteral(n: byte, out: bytes)
    ensures Codes(FixedCode(n), out, out + [n])
  {
    forall rest: bits
      ensures ReadCodes(FixedCode(n) + rest, out) == ReadCodes(rest, out + [n])
    {
      ReadFixedCode(n, rest);
    }
  }

  lemma ReadEndOfBlock(rest: bits, out: bytes)
    ensures ReadCodes(FixedCode(256) + rest, out) == Some((out, rest))
  {
    ReadFixedCode(256, rest);
  }

  /** A length symbol, its extra bits, a distance symbol and its extra bits. */
  ghost function MatchCode(k: nat, x: nat, d: nat, y: nat): bits
    requires k <= 28
  {
    FixedCode(257 + k) + MatchTail(k, x, d, y)
  }

  ghost function MatchTail(k: nat, x: nat, d: nat, y: nat): bits
  {
    LowBits(x, LengthExtra(k)) + (HighFirst(d, 5) + LowBits(y, DistExtra(d)))
  }

  ghost predicate ValidMatchCode(k: nat, x: nat, d: nat, y: nat)
  {
    k <= 28 && x < Pow2(LengthExtra(k)) && d <= 29 && y < Pow2(DistExtra(d))
  }

  /** A length and a distance written with codes whose ranges hold them read back. */
  lemma CodesMatch(k: nat, x: nat, d: nat, y: nat, out: bytes)
    requires ValidMatchCode(k, x, d, y) && DistBase(d) + y <= |out|
    ensures Codes(MatchCode(k, x, d, y), out, CopyBack(out, DistBase(d) + y, LengthBase(k) + x))
  {
    CodesMatchAs(MatchCode(k, x, d, y), k, x, d, y, DistBase(d) + y, LengthBase(k) + x, out);
  }

  lemma CodesMatchAs(code: bits, k: nat, x: nat, d: nat, y: nat, dist: nat, len: nat, out: bytes)
    requires ValidMatchCode(k, x, d, y) && code == MatchCode(k, x, d, y)
    requires dist == DistBase(d) + y <= |out| && len == LengthBase(k) + x
    ensures Codes(code, out, CopyBack(out, dist, len))
  {
    hide ReadCodes, ReadSymbol, ReadMatch, MatchCode, MatchTail, CopyBack, LengthBase, DistBase, ValidMatchCode;
    forall rest: bits
      ensures ReadCodes(code + rest, out) == ReadCodes(rest, CopyBack(out, dist, len))
    {
      var t := MatchTail(k, x, d, y) + rest;
      ReadMatchCode(k, x, d, y, rest);
      ReadCodesMatch(code + rest, t, rest, k, len, dist, out);
    }
  }

  lemma ReadMatchCode(k: nat, x: nat, d: nat, y: nat, rest: bits)
    requires ValidMatchCode(k, x, d, y)
    ensures ReadSymbol(MatchCode(k, x, d, y) + rest) == Some((257 + k, MatchTail(k, x, d, y) + rest))
    ensures ReadMatch(k, MatchTail(k, x, d, y) + rest) == Some((LengthBase(k) + x, DistBase(d) + y, rest))
  {
    ConcatAssoc(FixedCode(257 + k), MatchTail(k, x, d, y), rest);
    ReadFixedCode(257 + k, MatchTail(k, x, d, y) + rest);
    ReadMatchTail(k, x, d, y, rest);
  }

  lemma ReadCodesMatch(s: bits, t: bits, rest: bits, k: nat, len: nat, dist: nat, out: bytes)
    requires ReadSymbol(s) == Some((257 + k, t)) && ReadMatch(k, t) == Some((len, dist, rest))
    requires 1 <= dist <= |out|
    ensures ReadCodes(s, out) == ReadCodes(rest, CopyBack(out, dist, len))
  {
  }

  lemma ReadMatchTail(k: nat, x: nat, d: nat, y: nat, rest: bits)
    requires ValidMatchCode(k, x, d, y)
    ensures ReadMatch(k, MatchTail(k, x, d, y) + rest) == Some((LengthBase(k) + x, DistBase(d) + y, rest))
  {
    var a, b := LowBits(x, LengthExtra(k)), HighFirst(d, 5) + LowBits(y, DistExtra(d));
    var s := MatchTail(k, x, d, y) + rest;
    assert s == a + (b + rest);
    assert ReadInt(s, LengthExtra(k)) == Some((x, b + rest)) by { ReadIntBack(x, LengthExtra(k), b + rest); }
    assert ReadDistance(b + rest) == Some((DistBase(d) + y, rest)) by { ReadDistanceBack(d, y, rest); }
  }

  lemma ReadDistanceBack(d: nat, y: nat, rest: bits)
    requires d <= 29 && y < Pow2(DistExtra(d))
    ensures ReadDistance((HighFirst(d, 5) + LowBits(y, DistExtra(d))) + rest) == Some((DistBase(d) + y, rest))
  {
    ConcatAssoc(HighFirst(d, 5), LowBits(y, DistExtra(d)), rest);
    assert Pow2(5) == 32 by { assert Pow2(3) == 8; }
    ReadWordBack(d, 5, LowBits(y, DistExtra(d)) + rest);
    ReadIntBack(y, DistExtra(d), rest);
  }

  /** Copying a match that lies in already written data extends the data by the match. */
  lemma {:induction false} CopyBackMatch(data: bytes, i: nat, dist: nat, len: nat)
    requires 1 <= dist <= i && i + len <= |data|
    requires forall t :: i <= t < i + len ==> data[t] == data[t - dist]
    ensures CopyBack(data[..i], dist, len) == data[..i + len]
    decreases len
  {
    if len == 0 {
    } else {
      assert data[..i] + [data[i - dist]] == data[..i + 1];
      CopyBackMatch(data, i + 1, dist, len - 1);
    }
  }
}
