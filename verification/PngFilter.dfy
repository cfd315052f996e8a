/** Scanline filters: the writer's choice and encoding, against the reader of section 6 of RFC 2083. */
module PngFilter {
  import opened Prelude

  type int8 = x: int | -128 <= x < 128

  // ----- the reader, from the standard -----

  /** How far `v` is from the linear estimate of the three neighbours. */
  ghost function Distance(a: int, b: int, c: int, v: int): nat { Abs(a + b - c - v) }

  ghost function PaethPredictor(a: int, b: int, c: int): int
  {
    var p := a + b - c;
    if Abs(p - a) <= Abs(p - b) && Abs(p - a) <= Abs(p - c) then a
    else if Abs(p - b) <= Abs(p - c) then b
    else c
  }

  /** What filter `t` subtracts, given the bytes to the left, above, and above left. */
  ghost function Predict(t: nat, left: byte, up: byte, upLeft: byte): int
  {
    if t == 1 then left
    else if t == 2 then up
    else if t == 3 then (left + up as int) / 2
    else if t == 4 then PaethPredictor(left, up, upLeft)
    else 0
  }

  /** The byte `n` places back, zero before the first pixel. */
  ghost function Back(row: bytes, i: nat, n: nat): byte
    requires i - n < |row|
  {
    if i < n then 0 else row[i - n]
  }

  ghost function UnfilterRow(t: nat, f: bytes, prior: bytes, n: nat): (row: bytes)
    requires n >= 1 && |prior| >= |f|
    ensures |row| == |f|
  {
    if f == [] then []
    else
      var i := |f| - 1;
      var row := UnfilterRow(t, f[..i], prior, n);
      row + [(f[i] + Predict(t, Back(row, i, n), prior[i], Back(prior, i, n))) % 256]
  }

  /** Undoes the filters of `rows` rows of `len` bytes below the row `prior`. */
  ghost function Unfilter(s: bytes, rows: nat, len: nat, n: nat, prior: bytes): Option<seq<bytes>>
    requires n >= 1 && |prior| == len
  {
    if rows == 0 then if s == [] then Some([]) else None
    else if |s| < 1 + len || s[0] > 4 then None
    else
      var row := UnfilterRow(s[0], s[1..1 + len], prior, n);
      match Unfilter(s[1 + len..], rows - 1, len, n, row)
      case None => None
      case Some(more) => Some([row] + more)
  }

  // ----- the writer -----

  /** The arguments every row of one image shares. Row 0 is at `first`; a negative stride steps towards the front. */
  datatype Image = Image(pixels: bytes, first: nat, stride: int, x: nat, y: nat, n: nat, flip: bool) {

    ghost predicate Valid() {
      && x >= 1 && n >= 1
      && (y > 0 ==>
            && first + x * n <= |pixels|
            && 0 <= first + stride * (y - 1) <= |pixels| - x * n)
    }

    /** Where row `j` of the output starts in the pixels. */
    function Start(j: nat): int
      requires j < y
    {
      first + stride * (if flip then y - 1 - j else j)
    }

    function SignedStride(): int { if flip then -stride else stride }

    ghost function Row(j: nat): (r: bytes)
      requires Valid() && j < y
      ensures |r| == x * n
    {
      RowFits(j);
      pixels[Start(j)..Start(j) + x * n]
    }

    /** The row above row `j`: zeros for the first. */
    ghost function Prior(j: nat): (r: bytes)
      requires Valid() && j < y
      ensures |r| == x * n
    {
      if j == 0 then Repeat(0, x * n) else Row(j - 1)
    }

    lemma RowFits(j: nat)
      requires Valid() && j < y
      ensures 0 <= Start(j) <= |pixels| - x * n
      ensures j > 0 ==> Start(j - 1) == Start(j) - SignedStride()
    {
      var k := if flip then y - 1 - j else j;
      Between(stride, k, y - 1);
      if j > 0 {
        assert stride * (k + 1) == stride * k + stride && stride * (k - 1) == stride * k - stride;
      }
    }
  }

  lemma Between(s: int, k: nat, m: nat)
    requires k <= m
    ensures if s >= 0 then 0 <= s * k <= s * m else s * m <= s * k <= 0
  {
    assert s * m == s * k + s * (m - k);
  }

  function ToSigned(v: int): int8 { (v + 128) % 256 - 128 }

  function Unsigned(v: int): byte { v % 256 }

  /** stbiw__paeth: the neighbour nearest to a + b - c, the first of equals. */
  function Paeth(a: byte, b: byte, c: byte): (r: byte)
    ensures r == a || r == b || r == c
    ensures Distance(a, b, c, r) <= Distance(a, b, c, a)
    ensures Distance(a, b, c, r) <= Distance(a, b, c, b)
    ensures Distance(a, b, c, r) <= Distance(a, b, c, c)
    ensures Distance(a, b, c, a) == Distance(a, b, c, r) ==> r == a
    ensures r != a && Distance(a, b, c, b) == Distance(a, b, c, r) ==> r == b
  {
    var p := a + b as int - c as int;
    var pa, pb, pc := Abs(p - a), Abs(p - b), Abs(p - c);
    if pa <= pb && pa <= pc then a else if pb <= pc then b else c
  }

  /** The residue of byte `i` of row `j` under filter `f`, as the standard defines it. */
  ghost function Residue(img: Image, j: nat, f: nat, i: nat): int8
    requires img.Valid() && j < img.y && i < img.x * img.n
  {
    var row, prior := img.Row(j), img.Prior(j);
    ToSigned(row[i] - Predict(f, Back(row, i, img.n), prior[i], Back(prior, i, img.n)))
  }

  ghost function Residues(img: Image, j: nat, f: nat): (r: seq<int8>)
    requires img.Valid() && j < img.y
    ensures |r| == img.x * img.n && forall i :: 0 <= i < |r| ==> r[i] == Residue(img, j, f, i)
  {
    seq(img.x * img.n, i requires 0 <= i < img.x * img.n => Residue(img, j, f, i))
  }

  const MAPPING: seq<nat> := [0, 1, 2, 3, 4]
  const FIRSTMAP: seq<nat> := [0, 1, 0, 5, 6]

  /** The encoder's filter number: the first row never looks up. */
  function MappedType(j: nat, filter: nat): nat
    requires filter <= 4
  {
    if j != 0 then MAPPING[filter] else FIRSTMAP[filter]
  }

  /** The encoder's formula in a row's first pixel. */
  function FirstPixel(typ: nat, v: byte, up: byte): int8
  {
    match typ
    case 1 => ToSigned(v)
    case 2 => ToSigned(v - up as int)
    case 3 => ToSigned(v - up as int / 2)
    case 4 => ToSigned(v - Paeth(0, up, 0) as int)
    case _ => ToSigned(v)
  }

  /** ... and in the pixels after it. */
  function LaterPixel(typ: nat, v: byte, left: byte, up: byte, upLeft: byte): int8
  {
    match typ
    case 1 => ToSigned(v - left as int)
    case 2 => ToSigned(v - up as int)
    case 3 => ToSigned(v - (left + up as int) / 2)
    case 4 => ToSigned(v - Paeth(left, up, upLeft) as int)
    case 5 => ToSigned(v - left as int / 2)
    case 6 => ToSigned(v - Paeth(left, 0, 0) as int)
    case _ => ToSigned(v)
  }

  /** The remapped formulas are the standard's, with zeros above the first row. */
  lemma FormulasAgree(j: nat, filter: nat, v: byte, left: byte, up: byte, upLeft: byte)
    requires filter <= 4 && (j == 0 ==> up == 0 && upLeft == 0)
    ensures FirstPixel(MappedType(j, filter), v, up) == ToSigned(v - Predict(filter, 0, up, 0))
    ensures LaterPixel(MappedType(j, filter), v, left, up, upLeft) == ToSigned(v - Predict(filter, left, up, upLeft))
  {
  }

  lemma PixelValues(img: Image, j: nat, i: nat)
    requires img.Valid() && j < img.y && i < img.x * img.n
    ensures 0 <= img.Start(j) + i < |img.pixels| && img.Row(j)[i] == img.pixels[img.Start(j) + i]
    ensures j == 0 ==> img.Prior(j)[i] == 0
    ensures j > 0 ==> var k := img.Start(j) + i - img.SignedStride();
                      0 <= k < |img.pixels| && img.Prior(j)[i] == img.pixels[k]
  {
    img.RowFits(j);
    if j > 0 { img.RowFits(j - 1); }
  }

  lemma PixelFits(img: Image)
    requires img.Valid()
    ensures 1 <= img.n <= img.x * img.n
  {
    assert (img.x - 1) * img.n >= 0;
  }

  /**
   stbiw__encode_png_line. On the first row Up becomes none, Average halves the left byte
   and Paeth repeats it.
   */
  method EncodeLine(img: Image, j: nat, filter: nat, line: array<int8>)
    requires img.Valid() && j < img.y && filter <= 4 && line.Length == img.x * img.n
    modifies line
    ensures line[..] == Residues(img, j, filter)
  {
    hide Residue, Predict, FirstPixel, LaterPixel, Image.Row, Image.Prior, Image.Valid, Image.Start, Image.SignedStride;
    var typ := MappedType(j, filter);
    var z, signedStride := img.Start(j), img.SignedStride();
    var p, n, len := img.pixels, img.n, img.x * img.n;
    PixelFits(img);
    var i := 0;
    while i < n
      invariant 0 <= i <= n && forall k :: 0 <= k < i ==> line[k] == Residue(img, j, filter, k)
    {
      PixelValues(img, j, i);
      FirstPixelIsResidue(img, j, filter, i);
      var up := if j == 0 then 0 else p[z + i - signedStride];
      line[i] := FirstPixel(typ, p[z + i], up);
      i := i + 1;
    }
    while i < len
      invariant n <= i <= len && forall k :: 0 <= k < i ==> line[k] == Residue(img, j, filter, k)
    {
      PixelValues(img, j, i);
      PixelValues(img, j, i - n);
      LaterPixelIsResidue(img, j, filter, i);
      var up := if j == 0 then 0 else p[z + i - signedStride];
      var upLeft := if j == 0 then 0 else p[z + i - signedStride - n];
      line[i] := LaterPixel(typ, p[z + i], p[z + i - n], up, upLeft);
      i := i + 1;
    }
    assert line[..] == Residues(img, j, filter);
  }

  lemma FirstPixelIsResidue(img: Image, j: nat, filter: nat, i: nat)
    requires img.Valid() && j < img.y && filter <= 4 && i < img.n && i < img.x * img.n
    ensures Residue(img, j, filter, i) == FirstPixel(MappedType(j, filter), img.Row(j)[i], img.Prior(j)[i])
  {
    hide Predict, FirstPixel, LaterPixel, MappedType;
    FormulasAgree(j, filter, img.Row(j)[i], 0, img.Prior(j)[i], 0);
  }

  lemma LaterPixelIsResidue(img: Image, j: nat, filter: nat, i: nat)
    requires img.Valid() && j < img.y && filter <= 4 && img.n <= i < img.x * img.n
    ensures var row, prior := img.Row(j), img.Prior(j);
            Residue(img, j, filter, i) == LaterPixel(MappedType(j, filter), row[i], row[i - img.n], prior[i], prior[i - img.n])
  {
    hide Predict, FirstPixel, LaterPixel, MappedType;
    var row, prior := img.Row(j), img.Prior(j);
    FormulasAgree(j, filter, row[i], row[i - img.n], prior[i], prior[i - img.n]);
  }

  // ----- choosing the filter -----

  /** Sum of absolute residues. */
  ghost function Cost(r: seq<int8>): (c: nat)
    ensures c <= 128 * |r|
  {
    if r == [] then 0 else Cost(r[..|r| - 1]) + Abs(r[|r| - 1])
  }

  method Estimate(line: array<int8>) returns (est: nat)
    ensures est == Cost(line[..])
  {
    est := 0;
    var i := 0;
    while i < line.Length
      invariant 0 <= i <= line.Length && est == Cost(line[..i])
    {
      assert line[..i + 1][..i] == line[..i];
      est := est + Abs(line[i]);
      i := i + 1;
    }
    assert line[..i] == line[..];
  }

  /** `f` is the first filter of least cost. */
  ghost predicate Best(img: Image, j: nat, f: nat)
    requires img.Valid() && j < img.y
  {
    && f <= 4
    && (forall g :: 0 <= g <= 4 ==> Cost(Residues(img, j, f)) <= Cost(Residues(img, j, g)))
    && (forall g :: 0 <= g < f ==> Cost(Residues(img, j, f)) < Cost(Residues(img, j, g)))
  }

  /** No sum of absolute residues of the row leaves the range of a C int. */
  ghost predicate SumsFit(img: Image, j: nat)
    requires img.Valid() && j < img.y
  {
    forall f :: 0 <= f <= 4 ==> Cost(Residues(img, j, f)) <= 0x7FFF_FFFF
  }

  lemma NarrowSumsFit(img: Image, j: nat)
    requires img.Valid() && j < img.y && img.x * img.n <= 0xFFFFFF
    ensures SumsFit(img, j)
  {
    hide Residue;
  }

  /** The trial of all five filters; the line is left encoded with the chosen one. */
  method ChooseFilter(img: Image, j: nat, line: array<int8>) returns (best: nat)
    requires img.Valid() && j < img.y && line.Length == img.x * img.n && SumsFit(img, j)
    modifies line
    ensures Best(img, j, best) && line[..] == Residues(img, j, best)
  {
    hide Cost, Residues;
    best := 0;
    var bestVal, filter := 0x7FFF_FFFF, 0;
    while filter < 5
      invariant 0 <= filter <= 5 && (filter == 0 ==> bestVal == 0x7FFF_FFFF && best == 0)
      invariant filter > 0 ==> best < filter && bestVal == Cost(Residues(img, j, best))
      invariant forall g :: 0 <= g < filter ==> bestVal <= Cost(Residues(img, j, g))
      invariant forall g :: 0 <= g < best ==> bestVal < Cost(Residues(img, j, g))
    {
      EncodeLine(img, j, filter, line);
      var est := Estimate(line);
      if est < bestVal {
        bestVal, best := est, filter;
      }
      filter := filter + 1;
    }
    if filter != best {
      EncodeLine(img, j, best, line);
    }
  }

  // ----- whole images -----

  /** Encoded row `j`: the filter byte and the residues as bytes. */
  ghost function EncodedRow(img: Image, j: nat, f: nat): bytes
    requires img.Valid() && j < img.y && f <= 4
  {
    [f] + seq(img.x * img.n, i requires 0 <= i < img.x * img.n => Unsigned(Residue(img, j, f, i)))
  }

  /** Encoded rows `from` onwards under the given filters. */
  ghost function EncodedRows(img: Image, from: nat, filters: seq<nat>): bytes
    requires img.Valid() && from + |filters| <= img.y && forall k :: 0 <= k < |filters| ==> filters[k] <= 4
    decreases |filters|
  {
    if filters == [] then [] else EncodedRow(img, from, filters[0]) + EncodedRows(img, from + 1, filters[1..])
  }

  ghost function Rows(img: Image, from: nat): seq<bytes>
    requires img.Valid() && from <= img.y
    decreases img.y - from
  {
    if from == img.y then [] else [img.Row(from)] + Rows(img, from + 1)
  }

  /** `e` holds what is left of each byte of the row after its prediction. */
  ghost predicate Leaves(t: nat, e: bytes, row: bytes, prior: bytes, n: nat)
    requires n >= 1 && |e| == |row| == |prior|
  {
    forall i :: 0 <= i < |row| ==> (e[i] + Predict(t, Back(row, i, n), prior[i], Back(prior, i, n))) % 256 == row[i]
  }

  /** Adding the predictions back gives the row, from left to right. */
  lemma {:induction false} UndoRow(t: nat, e: bytes, row: bytes, prior: bytes, n: nat, k: nat)
    requires n >= 1 && |e| == |row| == |prior| && k <= |row| && Leaves(t, e, row, prior, n)
    ensures UnfilterRow(t, e[..k], prior, n) == row[..k]
  {
    hide Predict, Back, UnfilterRow;
    if k == 0 {
      UnfilterNothing(t, prior, n);
      assert e[..0] == [] && row[..0] == [];
    } else {
      var i := k - 1;
      UndoRow(t, e, row, prior, n, i);
      assert e[..k][..i] == e[..i] && e[..k][i] == e[i];
      UnfilterLast(t, e[..k], prior, n);
      BackOfPrefix(row, i, n);
      assert row[..k] == row[..i] + [row[i]];
    }
  }

  /** One encoded row is undone. */
  lemma UnfilterEncodedRow(img: Image, j: nat, f: nat)
    requires img.Valid() && j < img.y && f <= 4
    ensures UnfilterRow(f, EncodedRow(img, j, f)[1..], img.Prior(j), img.n) == img.Row(j)
  {
    EncodedLeaves(img, j, f);
    hide Leaves, Image.Row, Image.Prior, EncodedRow, UnfilterRow;
    var e, row := EncodedRow(img, j, f)[1..], img.Row(j);
    UndoRow(f, e, row, img.Prior(j), img.n, |row|);
    assert e[..|row|] == e && row[..|row|] == row;
  }

  lemma EncodedLeaves(img: Image, j: nat, f: nat)
    requires img.Valid() && j < img.y && f <= 4
    ensures |EncodedRow(img, j, f)| == img.x * img.n + 1
    ensures Leaves(f, EncodedRow(img, j, f)[1..], img.Row(j), img.Prior(j), img.n)
  {
    assert img.n >= 1;
    hide *;
    EncodedRowLength(img, j, f);
    var e, row, prior, n := EncodedRow(img, j, f)[1..], img.Row(j), img.Prior(j), img.n;
    EncodedBytes(img, j, f);
    forall i | 0 <= i < |row|
      ensures (e[i] + Predict(f, Back(row, i, n), prior[i], Back(prior, i, n))) % 256 == row[i]
    {
      UndoResidue(img, j, f, i);
    }
    LeavesEach(f, e, row, prior, n);
  }

  lemma LeavesEach(t: nat, e: bytes, row: bytes, prior: bytes, n: nat)
    requires n >= 1 && |e| == |row| == |prior|
    requires forall i :: 0 <= i < |row| ==> (e[i] + Predict(t, Back(row, i, n), prior[i], Back(prior, i, n))) % 256 == row[i]
    ensures Leaves(t, e, row, prior, n)
  {
    hide Predict, Back;
  }

  lemma EncodedBytes(img: Image, j: nat, f: nat)
    requires img.Valid() && j < img.y && f <= 4
    ensures var e := EncodedRow(img, j, f)[1..];
            |e| == img.x * img.n && forall i :: 0 <= i < |e| ==> e[i] == Unsigned(Residue(img, j, f, i))
  {
    hide Residue, Unsigned;
  }

  lemma UnfilterNothing(f: nat, prior: bytes, n: nat)
    requires n >= 1
    ensures UnfilterRow(f, [], prior, n) == []
  {
  }

  lemma UnfilterLast(t: nat, f: bytes, prior: bytes, n: nat)
    requires n >= 1 && |prior| >= |f| && f != []
    ensures var i := |f| - 1;
            var row := UnfilterRow(t, f[..i], prior, n);
            UnfilterRow(t, f, prior, n) == row + [(f[i] + Predict(t, Back(row, i, n), prior[i], Back(prior, i, n))) % 256]
  {
    hide Predict, Back;
  }

  lemma BackOfPrefix(row: bytes, i: nat, n: nat)
    requires n >= 1 && i < |row|
    ensures Back(row[..i], i, n) == Back(row, i, n)
  {
  }

  lemma UndoResidue(img: Image, j: nat, f: nat, i: nat)
    requires img.Valid() && j < img.y && i < img.x * img.n
    ensures var row, prior := img.Row(j), img.Prior(j);
            (Unsigned(Residue(img, j, f, i)) + Predict(f, Back(row, i, img.n), prior[i], Back(prior, i, img.n))) % 256 == row[i]
  {
    hide Predict, Back, Image.Row, Image.Prior, ToSigned, Unsigned;
    var row, prior := img.Row(j), img.Prior(j);
    Undo(row[i], Predict(f, Back(row, i, img.n), prior[i], Back(prior, i, img.n)));
  }

  lemma Undo(v: byte, d: int)
    ensures (Unsigned(ToSigned(v - d)) + d) % 256 == v
  {
  }

  /** Every image comes back from its encoded rows, whatever filters were recorded. */
  lemma {:induction false} UnfilterEncoded(img: Image, from: nat, filters: seq<nat>)
    requires img.Valid() && from + |filters| == img.y && forall k :: 0 <= k < |filters| ==> filters[k] <= 4
    ensures from < img.y ==>
              Some(Rows(img, from))
              == Unfilter(EncodedRows(img, from, filters), img.y - from, img.x * img.n, img.n, img.Prior(from))
    ensures from == img.y ==> EncodedRows(img, from, filters) == []
    decreases |filters|
  {
    hide UnfilterRow, EncodedRow, Residue, Image.Row, Image.Prior;
    if from < img.y {
      var f, len := filters[0], img.x * img.n;
      var e, more := EncodedRow(img, from, f), EncodedRows(img, from + 1, filters[1..]);
      var s := e + more;
      FirstRowUnfilters(img, from, f, more);
      UnfilterEncoded(img, from + 1, filters[1..]);
      if from + 1 < img.y {
        PriorIsRow(img, from);
      }
    }
  }

  lemma NoRowAbove(img: Image)
    requires img.Valid() && img.y >= 1
    ensures img.Prior(0) == Repeat(0, img.x * img.n)
  {
  }

  lemma RowsArePositive(img: Image)
    requires img.Valid() && img.y >= 1
    ensures img.y * (img.x * img.n + 1) > 0
  {
  }

  lemma PriorIsRow(img: Image, j: nat)
    requires img.Valid() && j + 1 < img.y
    ensures img.Prior(j + 1) == img.Row(j)
  {
  }

  lemma FirstRowUnfilters(img: Image, j: nat, f: nat, more: bytes)
    requires img.Valid() && j < img.y && f <= 4
    ensures var s, len := EncodedRow(img, j, f) + more, img.x * img.n;
            && |s| >= 1 + len && s[0] == f && s[1 + len..] == more
            && UnfilterRow(f, s[1..1 + len], img.Prior(j), img.n) == img.Row(j)
  {
    hide UnfilterRow, Residue, Image.Row, Image.Prior;
    var e, len := EncodedRow(img, j, f), img.x * img.n;
    UnfilterEncodedRow(img, j, f);
    assert (e + more)[1..1 + len] == e[1..];
  }

  /** The filter of row `j`: the forced one, or the first of least cost. */
  ghost predicate Chosen(img: Image, force: int, j: nat, f: nat)
    requires img.Valid() && j < img.y
  {
    if 0 <= force < 5 then f == force else Best(img, j, f)
  }

  /** The residues moved behind the filter byte as unsigned bytes. */
  method RowBytes(img: Image, j: nat, filter: nat, line: array<int8>) returns (row: bytes)
    requires img.Valid() && j < img.y && filter <= 4 && line[..] == Residues(img, j, filter)
    ensures row == EncodedRow(img, j, filter)
  {
    hide Residue;
    row := [filter];
    var i := 0;
    while i < line.Length
      invariant 0 <= i <= line.Length && |row| == i + 1 && row[0] == filter
      invariant forall k :: 0 <= k < i ==> row[k + 1] == Unsigned(Residue(img, j, filter, k))
    {
      assert line[..][i] == Residue(img, j, filter, i);
      row := row + [Unsigned(line[i])];
      i := i + 1;
    }
  }

  /** One row of the filter loop. */
  method FilterRow(img: Image, force: int, j: nat, line: array<int8>) returns (row: bytes, filter: nat)
    requires img.Valid() && j < img.y && line.Length == img.x * img.n && force < 5
    requires force < 0 ==> SumsFit(img, j)
    modifies line
    ensures filter <= 4 && Chosen(img, force, j, filter) && row == EncodedRow(img, j, filter)
  {
    hide Best, EncodedRow, Residues, SumsFit;
    if force > -1 {
      filter := force;
      EncodeLine(img, j, force, line);
    } else {
      filter := ChooseFilter(img, j, line);
      assert filter <= 4 by { BestIsFilter(img, j, filter); }
    }
    row := RowBytes(img, j, filter, line);
  }

  lemma BestIsFilter(img: Image, j: nat, f: nat)
    requires img.Valid() && j < img.y && Best(img, j, f)
    ensures f <= 4
  {
  }

  /** The automatic choice, when it is made, sums every row within a C int. */
  ghost predicate Countable(img: Image, force: int)
    requires img.Valid()
  {
    0 <= force < 5 || forall j: nat | j < img.y :: SumsFit(img, j)
  }

  /** stbi_write_png_to_mem's filter loop. */
  method FilterImage(img: Image, force: int) returns (filt: bytes, ghost filters: seq<nat>)
    requires img.Valid() && Countable(img, force)
    ensures |filters| == img.y && forall j :: 0 <= j < img.y ==> filters[j] <= 4 && Chosen(img, force, j, filters[j])
    ensures filt == EncodedRows(img, 0, filters) && |filt| == img.y * (img.x * img.n + 1)
  {
    hide Best, EncodedRows, EncodedRow, SumsFit;
    var line := new int8[img.x * img.n];
    var forceFilter := if force >= 5 then -1 else force;
    filt, filters := [], [];
    NoRows(img);
    ghost var width := img.x * img.n + 1;
    var j := 0;
    while j < img.y
      invariant 0 <= j <= img.y && |filters| == j
      invariant forall k :: 0 <= k < j ==> filters[k] <= 4 && Chosen(img, force, k, filters[k])
      invariant filt == EncodedRows(img, 0, filters) && |filt| == j * width
    {
      var row, filter := FilterRow(img, forceFilter, j, line);
      EncodedRowsSnoc(img, 0, filters, filter);
      assert |row| == width by { EncodedRowLength(img, j, filter); }
      assert (j + 1) * width == j * width + width;
      filt := filt + row;
      filters := filters + [filter];
      j := j + 1;
    }
  }

  lemma EncodedRowLength(img: Image, j: nat, f: nat)
    requires img.Valid() && j < img.y && f <= 4
    ensures |EncodedRow(img, j, f)| == img.x * img.n + 1
  {
  }

  lemma NoRows(img: Image)
    requires img.Valid()
    ensures EncodedRows(img, 0, []) == []
  {
  }

  lemma {:induction false} EncodedRowsSnoc(img: Image, from: nat, filters: seq<nat>, f: nat)
    requires img.Valid() && from + |filters| < img.y && f <= 4 && forall k :: 0 <= k < |filters| ==> filters[k] <= 4
    ensures EncodedRows(img, from, filters + [f]) == EncodedRows(img, from, filters) + EncodedRow(img, from + |filters|, f)
    decreases |filters|
  {
    hide EncodedRow, Image.Valid;
    if filters == [] {
      assert [f][1..] == [] && filters + [f] == [f];
    } else {
      EncodedRowsSnoc(img, from + 1, filters[1..], f);
      assert (filters + [f])[1..] == filters[1..] + [f];
      ConcatAssoc(EncodedRow(img, from, filters[0]), EncodedRows(img, from + 1, filters[1..]), EncodedRow(img, from + |filters|, f));
    }
  }
}
