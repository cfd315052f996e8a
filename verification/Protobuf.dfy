/** The protobuf wire format: the writer's primitives, and a reader of whole messages. */
module Protobuf {
  import opened Prelude
  import opened ByteOrder

  /** Fixed64 fields carry the bit pattern of a double. */
  datatype Field = Varint(num: nat, v: nat) | Fixed64(num: nat, bits: u64) | Bytes(num: nat, payload: bytes)

  // ----- encoding -----

  function EncodeVarint(v: nat): (b: bytes)
    ensures |b| >= 1
  {
    if v < 0x80 then [v] else [v % 0x80 + 0x80] + EncodeVarint(v / 0x80)
  }

  function Encode(f: Field): (b: bytes)
    ensures |b| >= 1
  {
    match f
    case Varint(num, v) => EncodeVarint(8 * num) + EncodeVarint(v)
    case Fixed64(num, bits) => EncodeVarint(8 * num + 1) + LittleEndian(bits, 8)
    case Bytes(num, payload) => EncodeVarint(8 * num + 2) + EncodeVarint(|payload|) + payload
  }

  function EncodeAll(fs: seq<Field>): bytes
  {
    if fs == [] then [] else EncodeAll(fs[..|fs| - 1]) + Encode(fs[|fs| - 1])
  }

  // ----- the writer's primitives -----

  /** varint */
  method AppendVarint(out: bytes, v: nat) returns (r: bytes)
    ensures r == out + EncodeVarint(v)
  {
    r := out;
    var rest := v;
    while rest >= 0x80
      invariant 0 <= rest && r + EncodeVarint(rest) == out + EncodeVarint(v)
    {
      ConcatAssoc(r, [rest % 0x80 + 0x80], EncodeVarint(rest / 0x80));
      r := r + [rest % 0x80 + 0x80];
      rest := rest / 0x80;
    }
    r := r + [rest];
  }

  /** uintField */
  method AppendUint(out: bytes, num: u32, v: nat) returns (r: bytes)
    ensures r == out + Encode(Varint(num, v))
  {
    r := AppendVarint(out, 8 * num);
    r := AppendVarint(r, v);
    ConcatAssoc(out, EncodeVarint(8 * num), EncodeVarint(v));
  }

  /** doubleField, given the bits of the double. */
  method AppendDouble(out: bytes, num: u32, bits: u64) returns (r: bytes)
    ensures r == out + Encode(Fixed64(num, bits))
  {
    r := AppendVarint(out, 8 * num + 1);
    ghost var tag := r;
    var i, rest := 0, bits;
    while i < 8
      invariant 0 <= i <= 8 && 0 <= rest && r + LittleEndian(rest, 8 - i) == tag + LittleEndian(bits, 8)
    {
      ConcatAssoc(r, [rest % 0x100], LittleEndian(rest / 0x100, 8 - i - 1));
      r := r + [rest % 0x100];
      rest := rest / 0x100;
      i := i + 1;
    }
    ConcatAssoc(out, EncodeVarint(8 * num + 1), LittleEndian(bits, 8));
  }

  /** bytesField */
  method AppendBytes(out: bytes, num: u32, v: bytes) returns (r: bytes)
    ensures r == out + Encode(Bytes(num, v))
  {
    r := AppendVarint(out, 8 * num + 2);
    r := AppendVarint(r, |v|);
    ghost var tag, size := EncodeVarint(8 * num + 2), EncodeVarint(|v|);
    ConcatAssoc(out, tag, size);
    ConcatAssoc(out, tag + size, v);
    r := r + v;
  }

  // ----- reading -----

  function ReadVarint(b: bytes): (r: Option<(nat, bytes)>)
    ensures r.Some? ==> |r.value.1| < |b|
  {
    if b == [] then None
    else if b[0] < 0x80 then Some((b[0], b[1..]))
    else
      match ReadVarint(b[1..])
      case None => None
      case Some((v, rest)) => Some((Low7(b[0]) + 0x80 * v, rest))
  }

  function Low7(x: nat): nat { x % 0x80 }

  function ReadField(b: bytes): (r: Option<(Field, bytes)>)
    ensures r.Some? ==> |r.value.1| < |b|
  {
    match ReadVarint(b)
    case None => None
    case Some((tag, b1)) => ReadValue(tag / 8, tag % 8, b1)
  }

  function ReadValue(num: nat, wire: nat, b: bytes): (r: Option<(Field, bytes)>)
    ensures r.Some? ==> |r.value.1| <= |b|
  {
    if wire == 0 then
      match ReadVarint(b)
      case None => None
      case Some((v, rest)) => Some((Varint(num, v), rest))
    else if wire == 1 then
      if |b| < 8 then None
      else
        var bits := FromLittleEndian(b[..8]);
        if bits < 0x1_0000_0000_0000_0000 then Some((Fixed64(num, bits), b[8..])) else None
    else if wire == 2 then
      match ReadVarint(b)
      case None => None
      case Some((size, rest)) => if size > |rest| then None else Some((Bytes(num, rest[..size]), rest[size..]))
    else None
  }

  /** All fields of a message. */
  function ReadAll(b: bytes): Option<seq<Field>>
    decreases |b|
  {
    if b == [] then Some([])
    else
      match ReadField(b)
      case None => None
      case Some((f, rest)) =>
        match ReadAll(rest)
        case None => None
        case Some(fs) => Some([f] + fs)
  }

  // ----- reading back what was written -----

  lemma {:induction false} ReadVarintBack(v: nat, rest: bytes)
    ensures ReadVarint(EncodeVarint(v) + rest) == Some((v, rest))
  {
    var b := EncodeVarint(v) + rest;
    if v < 0x80 {
      assert b[1..] == rest;
    } else {
      ReadVarintBack(v / 0x80, rest);
      assert b[1..] == EncodeVarint(v / 0x80) + rest;
      assert Low7(v % 0x80 + 0x80) == v % 0x80;
    }
  }

  lemma ReadFieldBack(f: Field, rest: bytes)
    ensures ReadField(Encode(f) + rest) == Some((f, rest))
  {
    hide EncodeVarint, ReadVarint, LittleEndian, FromLittleEndian;
    match f {
      case Varint(num, v) => ReadUintBack(num, v, rest);
      case Fixed64(num, bits) => ReadFixedBack(num, bits, rest);
      case Bytes(num, payload) => ReadBytesBack(num, payload, rest);
    }
  }

  lemma ReadUintBack(num: nat, v: nat, rest: bytes)
    ensures ReadField(Encode(Varint(num, v)) + rest) == Some((Varint(num, v), rest))
  {
    hide EncodeVarint, ReadVarint;
    ConcatAssoc(EncodeVarint(8 * num), EncodeVarint(v), rest);
    ReadVarintBack(8 * num, EncodeVarint(v) + rest);
    ReadVarintBack(v, rest);
  }

  lemma ReadFixedBack(num: nat, bits: u64, rest: bytes)
    ensures ReadField(Encode(Fixed64(num, bits)) + rest) == Some((Fixed64(num, bits), rest))
  {
    hide EncodeVarint, ReadVarint, LittleEndian, FromLittleEndian;
    var tag, le := EncodeVarint(8 * num + 1), LittleEndian(bits, 8);
    ConcatAssoc(tag, le, rest);
    ReadVarintBack(8 * num + 1, le + rest);
    EightBytes();
    LittleEndianBack(bits, 8);
    assert (le + rest)[..8] == le && (le + rest)[8..] == rest;
  }

  lemma ReadBytesBack(num: nat, payload: bytes, rest: bytes)
    ensures ReadField(Encode(Bytes(num, payload)) + rest) == Some((Bytes(num, payload), rest))
  {
    hide EncodeVarint, ReadVarint;
    var tag, size := EncodeVarint(8 * num + 2), EncodeVarint(|payload|);
    assert (tag + size + payload) + rest == tag + (size + (payload + rest));
    ReadVarintBack(8 * num + 2, size + (payload + rest));
    ReadVarintBack(|payload|, payload + rest);
    assert (payload + rest)[..|payload|] == payload && (payload + rest)[|payload|..] == rest;
  }

  /** A message reads back as the fields it was written from. */
  lemma {:induction false} ReadAllBack(fs: seq<Field>, rest: bytes)
    ensures ReadAll(rest).Some? ==> ReadAll(EncodeAll(fs) + rest) == Some(fs + ReadAll(rest).value)
    decreases |fs|
  {
    hide ReadField, Encode;
    if fs == [] {
      assert EncodeAll(fs) + rest == rest;
      assert ReadAll(rest).Some? ==> fs + ReadAll(rest).value == ReadAll(rest).value;
    } else {
      var n := |fs| - 1;
      ReadFieldBack(fs[n], rest);
      ReadAllBack(fs[..n], Encode(fs[n]) + rest);
      ConcatAssoc(EncodeAll(fs[..n]), Encode(fs[n]), rest);
      if ReadAll(rest).Some? {
        var more := ReadAll(rest).value;
        assert ReadAll(Encode(fs[n]) + rest) == Some([fs[n]] + more);
        assert fs[..n] + ([fs[n]] + more) == fs + more;
      }
    }
  }

  lemma ReadMessage(fs: seq<Field>)
    ensures ReadAll(EncodeAll(fs)) == Some(fs)
  {
    ReadAllBack(fs, []);
    assert EncodeAll(fs) + [] == EncodeAll(fs) && fs + [] == fs;
  }

  lemma {:induction false} EncodeConcat(a: seq<Field>, b: seq<Field>)
    ensures EncodeAll(a + b) == EncodeAll(a) + EncodeAll(b)
  {
    hide Encode;
    if b == [] {
      assert a + b == a;
    } else {
      var n := |b| - 1;
      EncodeConcat(a, b[..n]);
      assert (a + b)[..|a| + n] == a + b[..n];
      ConcatAssoc(EncodeAll(a), EncodeAll(b[..n]), Encode(b[n]));
    }
  }

  /** Appending one field to a message. */
  lemma EncodeSnoc(fs: seq<Field>, f: Field)
    ensures EncodeAll(fs + [f]) == EncodeAll(fs) + Encode(f)
  {
    assert (fs + [f])[..|fs|] == fs;
  }
}
