/** The compressed form: one final fixed-Huffman block behind the zlib header. */
module ZlibBlock {
  import opened Prelude
  import opened Bits
  import opened BitWriter
  import opened Lz77
  import opened DeflateCodes
  import Inflate

  const ZLIB_HEADER: bytes := [0x78, 0x5E]

  /** After `start`, what has been written decodes to the first `i` bytes of the input. */
  ghost predicate Wrote(stream: bits, start: bits, body: bits, data: bytes, i: nat)
  {
    && i <= |data|
    && stream == start + body
    && Inflate.Codes(body, [], data[..i])
  }

  lemma WroteLiteral(stream: bits, start: bits, body: bits, data: bytes, i: nat, code: bits)
    requires Wrote(stream, start, body, data, i) && i < |data| && code == Inflate.FixedCode(data[i])
    ensures Wrote(stream + code, start, body + code, data, i + 1)
  {
    hide Inflate.Codes, Inflate.FixedCode;
    ConcatAssoc(start, body, code);
    Inflate.CodesLiteral(data[i], data[..i]);
    assert data[..i] + [data[i]] == data[..i + 1];
    Inflate.CodesCompose(body, code, [], data[..i], data[..i + 1]);
  }

  lemma WroteMatch(stream: bits, start: bits, body: bits, data: bytes, i: nat, code: bits, loc: nat, len: nat)
    requires Wrote(stream, start, body, data, i)
    requires loc < i && Matches(data, loc, i, len) && CopiesMatch(code, len, i - loc)
    ensures Wrote(stream + code, start, body + code, data, i + len)
  {
    hide Inflate.Codes, Inflate.CopyBack;
    ConcatAssoc(start, body, code);
    Inflate.CopyBackMatch(data, i, i - loc, len);
    assert Inflate.Codes(code, data[..i], data[..i + len]);
    Inflate.CodesCompose(body, code, [], data[..i], data[..i + len]);
  }

  lemma WroteNothing(start: bits, data: bytes)
    ensures Wrote(start, start, [], data, 0)
  {
    Inflate.CodesNothing([]);
    assert data[..0] == [] && start + [] == start;
  }

  method WriteMatchAt(w: Writer, data: bytes, i: nat, best: nat, loc: nat, ghost start: bits, ghost body: bits)
    returns (ghost body': bits)
    requires w.Valid() && 3 <= best <= 258 && loc < i && i - loc <= 32767 && Matches(data, loc, i, best)
    requires Wrote(w.Stream(), start, body, data, i)
    modifies w
    ensures w.Valid() && Wrote(w.Stream(), start, body', data, i + best)
  {
    hide *;
    ghost var stream := w.Stream();
    WriteMatch(w, best, i - loc);
    ghost var code :| w.Stream() == stream + code && CopiesMatch(code, best, i - loc);
    WroteMatch(stream, start, body, data, i, code, loc, best);
    body' := body + code;
  }

  method WriteLiteralAt(w: Writer, data: bytes, i: nat, ghost start: bits, ghost body: bits)
    returns (ghost body': bits)
    requires w.Valid() && i < |data| && Wrote(w.Stream(), start, body, data, i)
    modifies w
    ensures w.Valid() && Wrote(w.Stream(), start, body', data, i + 1)
  {
    hide *;
    WroteLiteral(w.Stream(), start, body, data, i, Inflate.FixedCode(data[i]));
    w.AddSymbol(data[i]);
    body' := body + Inflate.FixedCode(data[i]);
  }

  /** The match loop, which leaves at most three bytes. */
  method WriteMatches(w: Writer, table: array<seq<nat>>, data: bytes, quality: nat, ghost start: bits)
    returns (i: nat, ghost body: bits)
    requires w.Valid() && quality >= 1 && w.Stream() == start && TableOk(table, 0, quality)
    modifies w, table
    ensures w.Valid() && i <= |data| && Wrote(w.Stream(), start, body, data, i)
  {
    hide *;
    i, body := 0, [];
    WroteNothing(start, data);
    while i < |data| - 3
      invariant i <= |data| && w.Valid() && Wrote(w.Stream(), start, body, data, i)
      invariant TableOk(table, i, quality)
      decreases |data| - i
    {
      var best, bestloc := ChooseMatch(data, table, i, quality);
      if bestloc.Some? {
        body := WriteMatchAt(w, data, i, best, bestloc.value, start, body);
        TableLater(table, i + 1, i + best, quality);
        i := i + best;
      } else {
        body := WriteLiteralAt(w, data, i, start, body);
        i := i + 1;
      }
    }
  }

  /** The match loop followed by the literals at the end. */
  method WriteSymbols(w: Writer, data: bytes, quality: nat)
    requires w.Valid() && quality >= 1
    modifies w
    ensures w.Valid()
    ensures exists body :: w.Stream() == old(w.Stream()) + body && Inflate.Codes(body, [], data)
  {
    hide Inflate.Codes, BitsOf, LowBits;
    ghost var start := w.Stream();
    var table := NewTable(quality);
    var i;
    ghost var body;
    i, body := WriteMatches(w, table, data, quality, start);
    while i < |data|
      invariant i <= |data| && w.Valid() && Wrote(w.Stream(), start, body, data, i)
    {
      body := WriteLiteralAt(w, data, i, start, body);
      i := i + 1;
    }
    assert data[..i] == data;
  }

  ghost predicate ZeroBits(pad: bits)
  {
    |pad| < 8 && forall i :: 0 <= i < |pad| ==> !pad[i]
  }

  /** Zero bits up to the next byte boundary. */
  method Pad(w: Writer)
    requires w.Valid()
    modifies w
    ensures w.Valid() && w.bitcount == 0
    ensures exists pad :: w.Stream() == old(w.Stream()) + pad && ZeroBits(pad)
  {
    hide BitsOf;
    ghost var pad: bits := [];
    ghost var start := w.Stream();
    assert start + pad == start;
    while w.bitcount != 0
      invariant w.Valid() && w.Stream() == start + pad && ZeroBits(pad)
      invariant w.bitcount != 0 ==> w.bitcount >= |pad| + 1
      decreases if w.bitcount == 0 then 0 else 8 - w.bitcount
    {
      ConcatAssoc(start, pad, LowBits(0, 1));
      w.Add(0, 1);
      pad := pad + LowBits(0, 1);
    }
  }

  /** The bits of one final fixed-Huffman block that holds `data`. */
  ghost predicate FixedBlock(b: bits, body: bits, pad: bits, data: bytes)
  {
    && b == [true, true, false] + (body + (Inflate.FixedCode(256) + pad))
    && ZeroBits(pad) && Inflate.Codes(body, [], data)
  }

  /** The zlib header and a single fixed-Huffman block, padded to a byte boundary. */
  method WriteBlock(w: Writer, data: bytes, quality: nat) returns (ghost b: bits, ghost body: bits, ghost pad: bits)
    requires w.Valid() && quality >= 1 && w.cap == 0 && w.bitcount == 0
    modifies w
    ensures w.Valid() && w.bitcount == 0 && w.cap > 0
    ensures BitsOf(w.out) == BitsOf(ZLIB_HEADER) + b && FixedBlock(b, body, pad, data)
  {
    w.Push(0x78);
    w.Push(0x5E);
    assert w.out == ZLIB_HEADER;
    ghost var header := w.Stream();
    assert header == BitsOf(ZLIB_HEADER);
    w.Add(1, 1);
    w.Add(1, 2);
    ghost var start := w.Stream();
    WriteSymbols(w, data, quality);
    body :| w.Stream() == start + body && Inflate.Codes(body, [], data);
    w.AddSymbol(256);
    ghost var codes := w.Stream();
    Pad(w);
    pad :| w.Stream() == codes + pad && ZeroBits(pad);
    b := [true, true, false] + (body + (Inflate.FixedCode(256) + pad));
    BlockBits(header, body, Inflate.FixedCode(256), pad);
  }

  lemma BlockBits(header: bits, body: bits, eob: bits, pad: bits)
    ensures ((((header + LowBits(1, 1)) + LowBits(1, 2)) + body) + eob) + pad
         == header + ([true, true, false] + (body + (eob + pad)))
  {
    assert LowBits(1, 1) == [true] && LowBits(1, 2) == [true, false];
    var s := ((header + [true]) + [true, false]) + body;
    assert s == header + ([true, true, false] + body);
  }

  /** The fixed-Huffman block, whatever follows it, decodes to the data. */
  lemma BlockReadsBack(b: bits, body: bits, pad: bits, data: bytes, t: bits)
    requires FixedBlock(b, body, pad, data)
    ensures Inflate.ReadBlocks(b + t, []) == Some((data, pad + t)) && |pad| < 8
  {
    var eob := Inflate.FixedCode(256);
    BlockConcat(body, eob, pad, t);
    var codes := body + (eob + (pad + t));
    assert Inflate.ReadCodes(codes, []) == Inflate.ReadCodes(eob + (pad + t), data);
    Inflate.ReadEndOfBlock(pad + t, data);
    OneFixedBlock(b + t, codes, data, pad + t);
  }

  lemma BlockConcat(body: bits, eob: bits, pad: bits, t: bits)
    ensures ([true, true, false] + (body + (eob + pad))) + t == [true, true, false] + (body + (eob + (pad + t)))
  {
  }

  lemma OneFixedBlock(b: bits, codes: bits, data: bytes, rest: bits)
    requires b == [true, true, false] + codes && Inflate.ReadCodes(codes, []) == Some((data, rest))
    ensures Inflate.ReadBlocks(b, []) == Some((data, rest))
  {
    assert b[3..] == codes;
    assert b[1..3] == [true, false];
  }
}
