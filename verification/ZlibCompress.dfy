/** stbi_zlib_compress as a whole, and reading its output back. */
module ZlibCompress {
  import opened Prelude
  import opened Bits
  import opened BitWriter
  import opened ZlibBlock
  import opened ZlibStored
  import Inflate
  import Adler32

  /** A zlib stream whose blocks decode to `data` with nothing but padding left reads as `data`. */
  lemma StreamReadsBack(z: bytes, data: bytes, rest: bits, tail: bytes)
    requires |z| >= 2 && Inflate.ValidHeader(z[0], z[1]) && |tail| == 4
    requires Inflate.ReadBlocks(BitsOf(z[2..] + tail), []) == Some((data, rest + BitsOf(tail))) && |rest| < 8
    requires Inflate.BigEndian(tail) == Adler32.Checksum(data)
    ensures Inflate.ReadZlib(z + tail) == Some(data)
  {
    hide Inflate.ReadBlocks, BytesOf, BitsOf, Inflate.Align, Inflate.BigEndian;
    assert (z + tail)[2..] == z[2..] + tail;
    AlignSkips(rest, BitsOf(tail));
    BytesOfBitsOf(tail);
  }

  lemma HeaderBits(out: bytes, header: bytes, rest: bits)
    requires BitsOf(out) == BitsOf(header) + rest
    ensures |out| >= |header| && out[..|header|] == header && BitsOf(out[|header|..]) == rest
  {
    hide BitsOf;
    assert |BitsOf(out)| == 8 * |out|;
    var n := |header|;
    assert out == out[..n] + out[n..];
    BitsOfConcat(out[..n], out[n..]);
    SamePrefix(BitsOf(out[..n]), BitsOf(out[n..]), BitsOf(header), rest);
    BitsOfInjective(out[..n], header);
  }

  lemma SamePrefix(a: bits, b: bits, c: bits, d: bits)
    requires a + b == c + d && |a| == |c|
    ensures a == c && b == d
  {
    assert (a + b)[..|a|] == a && (a + b)[|a|..] == b;
    assert (c + d)[..|c|] == c && (c + d)[|c|..] == d;
  }

  lemma BigEndianFour(a: byte, b: byte, c: byte, d: byte)
    ensures Inflate.BigEndian([a, b, c, d]) == 0x100_0000 * a + 0x1_0000 * b + 0x100 * c + d
  {
    assert Inflate.BigEndian([a]) == a by { assert [a][..0] == []; }
    assert Inflate.BigEndian([a, b]) == a * 256 + b by { assert [a, b][..1] == [a]; }
    assert Inflate.BigEndian([a, b, c]) == (a * 256 + b) * 256 + c by { assert [a, b, c][..2] == [a, b]; }
    assert [a, b, c, d][..3] == [a, b, c];
  }

  /** Empty input: the fallback's loop emits no block, and the four checksum bytes are no block either. */
  lemma EmptyStreamIsNoStream()
    ensures Inflate.ReadZlib(ZLIB_HEADER + [0, 0, 0, 1]) == None
  {
    var z := ZLIB_HEADER + [0, 0, 0, 1];
    assert z[2..] == [0, 0, 0, 1];
    BitsOfConcat([0], [0, 0, 1]);
    assert [0] + [0, 0, 1] == [0, 0, 0, 1];
    BitsOfOne(0);
    FinalByte(false);
    var b := BitsOf(z[2..]);
    assert b[1..3] == [false, false];
  }

  lemma EmptyStream(out: bytes, s1: u32, s2: u32)
    requires out == ZLIB_HEADER + StoredBlocks([], 0)
    requires s1 == Adler32.SumA([]) && s2 == Adler32.SumB([])
    ensures Inflate.ReadZlib(out + ChecksumBytes(s1, s2)) == None
  {
    assert out + ChecksumBytes(s1, s2) == ZLIB_HEADER + [0, 0, 0, 1];
    EmptyStreamIsNoStream();
  }

  lemma HeaderIsValid(out: bytes)
    requires |out| >= 2 && out[..2] == ZLIB_HEADER
    ensures Inflate.ValidHeader(out[0], out[1])
  {
    assert out[0] == out[..2][0] && out[1] == out[..2][1];
  }

  lemma StoredStreamReadsBack(out: bytes, data: bytes, stored: bytes, tail: bytes)
    requires data != [] && stored == StoredBlocks(data, 0) && out == ZLIB_HEADER + stored
    requires |tail| == 4 && Inflate.BigEndian(tail) == Adler32.Checksum(data)
    ensures Inflate.ReadZlib(out + tail) == Some(data)
  {
    assert out[..2] == ZLIB_HEADER && out[2..] == stored;
    hide *;
    HeaderIsValid(out);
    assert data[..0] == [];
    StoredReadsBack(data, 0, tail);
    assert [] + BitsOf(tail) == BitsOf(tail);
    StreamReadsBack(out, data, [], tail);
  }

  lemma BlockStreamReadsBack(out: bytes, b: bits, body: bits, pad: bits, data: bytes, tail: bytes)
    requires BitsOf(out) == BitsOf(ZLIB_HEADER) + b && FixedBlock(b, body, pad, data)
    requires |tail| == 4 && Inflate.BigEndian(tail) == Adler32.Checksum(data)
    ensures Inflate.ReadZlib(out + tail) == Some(data)
  {
    assert |ZLIB_HEADER| == 2;
    hide *;
    HeaderBits(out, ZLIB_HEADER, b);
    HeaderIsValid(out);
    BitsOfConcat(out[2..], tail);
    BlockReadsBack(b, body, pad, data, BitsOf(tail));
    StreamReadsBack(out, data, pad, tail);
  }

  /** The checksum as the writer stores it. */
  function ChecksumBytes(s1: u32, s2: u32): (t: bytes)
    requires s1 < 65536 && s2 < 65536
    ensures |t| == 4 && Inflate.BigEndian(t) == s2 * 65536 + s1
  {
    BigEndianFour(s2 / 256, s2 % 256, s1 / 256, s1 % 256);
    [s2 / 256, s2 % 256, s1 / 256, s1 % 256]
  }

  lemma BlockIsLonger(out: bytes, b: bits, body: bits, pad: bits, data: bytes)
    requires BitsOf(out) == BitsOf(ZLIB_HEADER) + b && FixedBlock(b, body, pad, data)
    ensures |out| > 2 && out[..2] == ZLIB_HEADER
  {
    HeaderBits(out, ZLIB_HEADER, b);
  }

  /**
   The whole compressor. Reading the result back gives the input for every non-empty input
   and every quality, and for no empty one; the part before the checksum is never longer
   than storing would make it.
   */
  method Compress(data: bytes, quality: int) returns (z: bytes)
    ensures Inflate.ReadZlib(z) == Some(data) <==> data != []
    ensures |z| <= StoredBound(|data|) + 4
  {
    hide Inflate.ReadZlib, BitsOf, FixedBlock, StoredBlocks, Inflate.BigEndian, Adler32.SumA, Adler32.SumB;
    var q: nat := if quality < 5 then 5 else quality;
    var w := new Writer();
    ghost var b, body, pad := WriteBlock(w, data, q);
    BlockIsLonger(w.out, b, body, pad, data);
    ghost var stored := |w.out| > StoredBound(|data|);
    if |w.out| > |data| + 2 + (|data| + 32766) / 32767 * 5 {
      Store(w, data);
    }
    var s1, s2 := Adler32.Deferred(data);
    var tail := ChecksumBytes(s1, s2);
    z := w.out + tail;
    if data == [] {
      EmptyStream(w.out, s1, s2);
    } else if stored {
      StoredStreamReadsBack(w.out, data, StoredBlocks(data, 0), tail);
    } else {
      BlockStreamReadsBack(w.out, b, body, pad, data, tail);
    }
  }
}
