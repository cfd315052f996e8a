/** The Adler-32 checksum of zlib streams and the writer's way of computing it. */
module Adler32 {
  import opened Prelude

  const BASE := 65521
  const NMAX := 5552

  /** Sum of all bytes, plus one; section 2.2 of RFC 1950 calls it s1. */
  ghost function SumA(d: bytes): nat
  {
    if d == [] then 1 else (SumA(d[..|d| - 1]) + d[|d| - 1]) % BASE
  }

  /** Sum of the successive values of s1; s2 in the RFC. */
  ghost function SumB(d: bytes): nat
  {
    if d == [] then 0 else (SumB(d[..|d| - 1]) + SumA(d)) % BASE
  }

  ghost function Checksum(d: bytes): nat
  {
    SumB(d) * 65536 + SumA(d)
  }

  ghost function Triangle(i: nat): nat
  {
    if i == 0 then 0 else Triangle(i - 1) + i
  }

  /** One block of the loop below: both 32-bit sums run unreduced over `blocklen` bytes. */
  method AddBlock(data: bytes, j: nat, blocklen: nat, r1: u32, r2: u32) returns (s1: u32, s2: u32)
    requires j + blocklen <= |data| && blocklen <= NMAX
    requires r1 == SumA(data[..j]) < BASE && r2 == SumB(data[..j]) < BASE
    ensures s1 == SumA(data[..j + blocklen]) && s2 == SumB(data[..j + blocklen])
  {
    s1, s2 := r1, r2;
    var i := 0;
    while i < blocklen
      invariant 0 <= i <= blocklen
      invariant s1 < BASE + 255 * i
      invariant s2 < BASE + BASE * i + 255 * Triangle(i)
      invariant s1 % BASE == SumA(data[..j + i]) && s2 % BASE == SumB(data[..j + i])
    {
      TriangleBound(i + 1);
      SumStep(data, j + i, s1, s2);
      NoWrap(s1 + data[j + i]);
      NoWrap(s2 + s1 + data[j + i]);
      s1 := (s1 + data[j + i]) % 0x1_0000_0000;
      s2 := (s2 + s1) % 0x1_0000_0000;
      i := i + 1;
    }
    s1, s2 := s1 % BASE, s2 % BASE;
  }

  lemma NoWrap(v: nat)
    requires v < 0x1_0000_0000
    ensures v % 0x1_0000_0000 == v
  {
  }

  /**
   stbi_zlib_compress's checksum loop: both 32-bit sums are reduced once per block of
   5552 bytes, with the remainder block first, which may be empty.
   */
  method Deferred(data: bytes) returns (s1: u32, s2: u32)
    ensures s1 == SumA(data) && s2 == SumB(data)
    ensures s1 < BASE && s2 < BASE
  {
    s1, s2 := 1, 0;
    var blocklen := |data| % NMAX;
    var j := 0;
    while j < |data|
      invariant 0 <= j <= |data|
      invariant blocklen == NMAX || (j == 0 && blocklen == |data| % NMAX)
      invariant blocklen == NMAX ==> (|data| - j) % NMAX == 0
      invariant s1 == SumA(data[..j]) < BASE && s2 == SumB(data[..j]) < BASE
      decreases |data| - j, NMAX - blocklen
    {
      assert j + blocklen <= |data| by { BlockFits(|data|, j, blocklen); }
      s1, s2 := AddBlock(data, j, blocklen, s1, s2);
      j := j + blocklen;
      blocklen := NMAX;
    }
    assert data[..j] == data;
  }

  lemma BlockFits(n: nat, j: nat, blocklen: nat)
    requires j < n
    requires blocklen == NMAX || (j == 0 && blocklen == n % NMAX)
    requires blocklen == NMAX ==> (n - j) % NMAX == 0
    ensures j + blocklen <= n
    ensures (n - (j + blocklen)) % NMAX == 0
  {
  }

  /** Adding one more byte to unreduced sums follows the reduced ones. */
  lemma SumStep(data: bytes, k: nat, s1: nat, s2: nat)
    requires k < |data|
    requires s1 % BASE == SumA(data[..k]) && s2 % BASE == SumB(data[..k])
    ensures (s1 + data[k]) % BASE == SumA(data[..k + 1])
    ensures (s2 + s1 + data[k]) % BASE == SumB(data[..k + 1])
  {
    assert data[..k + 1][..k] == data[..k];
    ModAdd(s1, data[k]);
    ModAdd(s2, s1 + data[k]);
    ModAdd(s1 + data[k], SumB(data[..k]));
  }

  lemma ModAdd(a: nat, b: nat)
    ensures (a + b) % BASE == (a % BASE + b) % BASE
  {
  }

  /** Neither 32-bit sum overflows within a block. */
  lemma TriangleBound(i: nat)
    requires i <= NMAX
    ensures BASE + 255 * i < 0x1_0000_0000
    ensures BASE + BASE * i + 255 * Triangle(i) < 0x1_0000_0000
  {
    TriangleFormula(i);
    assert i * (i + 1) <= 5552 * 5553;
  }

  lemma {:induction false} TriangleFormula(i: nat)
    ensures 2 * Triangle(i) == i * (i + 1)
  {
    if i == 0 {
    } else {
      TriangleFormula(i - 1);
      assert i * (i + 1) == (i - 1) * i + 2 * i;
    }
  }
}
