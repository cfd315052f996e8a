/** Little-endian numbers. */
module ByteOrder {
  import opened Prelude

  /** The low `n` bytes of `v`, least significant first. */
  function LittleEndian(v: nat, n: nat): (b: bytes)
    ensures |b| == n
  {
    if n == 0 then [] else [v % 0x100] + LittleEndian(v / 0x100, n - 1)
  }

  lemma TwoLow(v: u16)
    ensures LittleEndian(v, 2) == [v % 0x100, v / 0x100]
  {
    assert LittleEndian(v / 0x100, 1) == [v / 0x100 % 0x100] + LittleEndian(v / 0x1_0000, 0);
  }

  function FromLittleEndian(b: bytes): nat
  {
    if b == [] then 0 else b[0] + 0x100 * FromLittleEndian(b[1..])
  }

  function Pow256(n: nat): (p: nat)
    ensures p > 0
  {
    if n == 0 then 1 else 0x100 * Pow256(n - 1)
  }

  lemma EightBytes()
    ensures Pow256(8) == 0x1_0000_0000_0000_0000
  {
    assert Pow256(2) == 0x1_0000;
    assert Pow256(4) == 0x1_0000_0000;
    assert Pow256(6) == 0x1_0000_0000_0000;
  }

  lemma {:induction false} LittleEndianBack(v: nat, n: nat)
    requires v < Pow256(n)
    ensures FromLittleEndian(LittleEndian(v, n)) == v
  {
    if n == 0 {
    } else {
      LittleEndianBack(v / 0x100, n - 1);
      assert LittleEndian(v, n)[1..] == LittleEndian(v / 0x100, n - 1);
    }
  }

  lemma {:induction false} FromLittleEndianBound(b: bytes)
    ensures FromLittleEndian(b) < Pow256(|b|)
  {
    if b != [] { FromLittleEndianBound(b[1..]); }
  }

  /** The bytes of a number are determined by it. */
  lemma {:induction false} LittleEndianOf(b: bytes)
    ensures LittleEndian(FromLittleEndian(b), |b|) == b
  {
    if b != [] {
      LittleEndianOf(b[1..]);
      SplitLow(b[0], FromLittleEndian(b[1..]));
      assert b == [b[0]] + b[1..];
    }
  }

  lemma SplitLow(x: nat, more: nat)
    requires x < 0x100
    ensures (x + 0x100 * more) % 0x100 == x && (x + 0x100 * more) / 0x100 == more
  {
  }

  function Word16(x: nat, y: nat): nat { x + 0x100 * y }

  function Word32(x: nat, y: nat, z: nat, w: nat): nat { x + 0x100 * y + 0x1_0000 * z + 0x100_0000 * w }

  /** readU16LE */
  function U16At(b: bytes, i: nat): (v: u16)
    requires i + 2 <= |b|
    ensures v == FromLittleEndian(b[i..i + 2])
  {
    TwoBytes(b[i..i + 2]);
    Word16(b[i], b[i + 1])
  }

  lemma TwoBytes(b: bytes)
    requires |b| == 2
    ensures FromLittleEndian(b) == Word16(b[0], b[1])
  {
    assert b[1..][1..] == [];
    assert FromLittleEndian(b[1..]) == b[1];
  }

  /** readU32LE */
  function U32At(b: bytes, i: nat): (v: u32)
    requires i + 4 <= |b|
    ensures v == FromLittleEndian(b[i..i + 4])
  {
    FourBytes(b[i..i + 4]);
    Word32(b[i], b[i + 1], b[i + 2], b[i + 3])
  }

  lemma FourBytes(b: bytes)
    requires |b| == 4
    ensures FromLittleEndian(b) == Word32(b[0], b[1], b[2], b[3])
  {
    TwoBytes(b[2..]);
    assert b[1..][1..] == b[2..];
    assert FromLittleEndian(b[1..]) == Word16(b[1], FromLittleEndian(b[2..]));
  }
}
