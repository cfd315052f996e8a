/** Run-length encoded scanlines of Radiance HDR images. */
module HdrRle {
  import opened Prelude

  datatype Packet = Dump(data: bytes) | Run(count: nat, value: byte)

  ghost predicate WellFormed(p: Packet)
  {
    match p
    case Dump(data) => 1 <= |data| <= 128
    case Run(count, _) => 1 <= count <= 127
  }

  ghost function PacketBytes(p: Packet): bytes
    requires WellFormed(p)
  {
    match p
    case Dump(data) => [|data|] + data
    case Run(count, value) => [count + 128, value]
  }

  function Expanded(p: Packet): bytes
  {
    match p
    case Dump(data) => data
    case Run(count, value) => Repeat(value, count)
  }

  ghost predicate AllWellFormed(ps: seq<Packet>)
  {
    forall p :: p in ps ==> WellFormed(p)
  }

  ghost function PacketsBytes(ps: seq<Packet>): bytes
    requires AllWellFormed(ps)
  {
    if ps == [] then [] else PacketsBytes(ps[..|ps| - 1]) + PacketBytes(ps[|ps| - 1])
  }

  ghost function AllExpanded(ps: seq<Packet>): bytes
  {
    if ps == [] then [] else AllExpanded(ps[..|ps| - 1]) + Expanded(ps[|ps| - 1])
  }

  // ----- the decoder -----

  /** What the next packet stands for, and the bytes it takes. */
  datatype Piece = Piece(data: bytes, used: nat)

  ghost function NextPiece(b: bytes): (p: Option<Piece>)
    requires b != []
    ensures p.Some? ==> p.value.data != [] && p.value.used <= |b|
  {
    if b[0] > 128 then
      if |b| < 2 then None else Some(Piece(Repeat(b[1], b[0] - 128), 2))
    else
      if b[0] == 0 || |b| < 1 + b[0] then None else Some(Piece(b[1..1 + b[0]], 1 + b[0]))
  }

  /** `n` bytes of one component. */
  ghost function ReadComponent(b: bytes, n: nat): (r: Option<(bytes, bytes)>)
    ensures r.Some? ==> |r.value.0| == n
    decreases n
  {
    if n == 0 then Some(([], b))
    else if b == [] then None
    else
      match NextPiece(b)
      case None => None
      case Some(p) =>
        if |p.data| > n then None
        else
          match ReadComponent(b[p.used..], n - |p.data|)
          case None => None
          case Some((more, rest)) => Some((p.data + more, rest))
  }

  /** Four bytes a pixel: red, green, blue, exponent. */
  datatype Rgbe = Rgbe(r: byte, g: byte, b: byte, e: byte)

  function Channel(p: Rgbe, c: nat): byte
  {
    if c == 0 then p.r else if c == 1 then p.g else if c == 2 then p.b else p.e
  }

  function Plane(row: seq<Rgbe>, c: nat): (r: bytes)
    ensures |r| == |row| && forall i :: 0 <= i < |row| ==> r[i] == Channel(row[i], c)
  {
    seq(|row|, i requires 0 <= i < |row| => Channel(row[i], c))
  }

  ghost function Woven(r: bytes, g: bytes, b: bytes, e: bytes): seq<Rgbe>
    requires |r| == |g| == |b| == |e|
  {
    seq(|r|, i requires 0 <= i < |r| => Rgbe(r[i], g[i], b[i], e[i]))
  }

  ghost function ReadFlat(b: bytes, width: nat): Option<(seq<Rgbe>, bytes)>
  {
    if width == 0 then Some(([], b))
    else if |b| < 4 then None
    else
      match ReadFlat(b[4..], width - 1)
      case None => None
      case Some((row, rest)) => Some(([Rgbe(b[0], b[1], b[2], b[3])] + row, rest))
  }

  /** A scanline of a reader that knows the width: run-length encoded when the width allows it and the marker is there. */
  ghost function ReadScanline(b: bytes, width: nat): Option<(seq<Rgbe>, bytes)>
  {
    if width < 8 || width >= 32768 || |b| < 4 || b[0] != 2 || b[1] != 2 || b[2] >= 128 then ReadFlat(b, width)
    else if b[2] != width / 256 || b[3] != width % 256 then None
    else ReadPlanes(b[4..], width)
  }

  ghost function ReadPlanes(b: bytes, width: nat): Option<(seq<Rgbe>, bytes)>
  {
    match ReadComponent(b, width)
    case None => None
    case Some((r, b1)) =>
      match ReadComponent(b1, width)
      case None => None
      case Some((g, b2)) =>
        match ReadComponent(b2, width)
        case None => None
        case Some((bl, b3)) =>
          match ReadComponent(b3, width)
          case None => None
          case Some((e, rest)) => Some((Woven(r, g, bl, e), rest))
  }

  // ----- the encoder -----

  lemma Snoc(out: bytes, ps: seq<Packet>, p: Packet)
    requires AllWellFormed(ps) && WellFormed(p)
    ensures AllWellFormed(ps + [p])
    ensures out + PacketsBytes(ps + [p]) == out + PacketsBytes(ps) + PacketBytes(p)
    ensures AllExpanded(ps + [p]) == AllExpanded(ps) + Expanded(p)
  {
    hide WellFormed, PacketBytes, Expanded;
    assert (ps + [p])[..|ps|] == ps;
    ConcatAssoc(out, PacketsBytes(ps), PacketBytes(p));
  }

  /** Where the next run of three begins; the length when there is none. */
  method FirstRun(comp: bytes, x: nat) returns (r: nat)
    requires x <= |comp|
    ensures x <= r <= |comp|
    ensures r < |comp| ==> r + 2 < |comp| && comp[r] == comp[r + 1] == comp[r + 2]
    ensures forall k :: x <= k < r && k + 2 < |comp| ==> !(comp[k] == comp[k + 1] == comp[k + 2])
  {
    r := x;
    while r + 2 < |comp|
      invariant x <= r <= |comp|
      invariant forall k :: x <= k < r && k + 2 < |comp| ==> !(comp[k] == comp[k + 1] == comp[k + 2])
    {
      if comp[r] == comp[r + 1] && comp[r] == comp[r + 2] { break; }
      r := r + 1;
    }
    if r + 2 >= |comp| { r := |comp|; }
  }

  /** stbiw__write_dump_data and stbiw__write_run_data in the loops that call them. */
  method DumpUpTo(out: bytes, comp: bytes, x: nat, r: nat, ghost before: seq<Packet>)
    returns (out': bytes, ghost ps: seq<Packet>)
    requires x <= r <= |comp| && AllWellFormed(before)
    ensures AllWellFormed(ps) && AllExpanded(ps) == AllExpanded(before) + comp[x..r]
    ensures forall base :: out == base + PacketsBytes(before) ==> out' == base + PacketsBytes(ps)
  {
    hide PacketsBytes, AllExpanded, PacketBytes;
    out', ps := out, before;
    var at := x;
    while at < r
      invariant x <= at <= r && AllWellFormed(ps) && AllExpanded(ps) == AllExpanded(before) + comp[x..at]
      invariant forall base :: out == base + PacketsBytes(before) ==> out' == base + PacketsBytes(ps)
    {
      var len := if r - at > 128 then 128 else r - at;
      ghost var p := Dump(comp[at..at + len]);
      DumpBytes(out', p);
      out' := out' + [len] + comp[at..at + len];
      forall base | out == base + PacketsBytes(before) ensures out' == base + PacketsBytes(ps + [p]) { Snoc(base, ps, p); }
      Snoc([], ps, p);
      ConcatAssoc(AllExpanded(before), comp[x..at], comp[at..at + len]);
      assert comp[x..at] + comp[at..at + len] == comp[x..at + len];
      ps := ps + [p];
      at := at + len;
    }
  }

  lemma DumpBytes(out: bytes, p: Packet)
    requires WellFormed(p) && p.Dump?
    ensures out + [|p.data|] + p.data == out + PacketBytes(p)
  {
    ConcatAssoc(out, [|p.data|], p.data);
  }

  method RunUpTo(out: bytes, comp: bytes, x: nat, r: nat, ghost before: seq<Packet>)
    returns (out': bytes, ghost ps: seq<Packet>)
    requires x <= r <= |comp| && AllWellFormed(before)
    requires forall k :: x <= k < r ==> comp[k] == comp[x]
    ensures AllWellFormed(ps) && AllExpanded(ps) == AllExpanded(before) + comp[x..r]
    ensures forall base :: out == base + PacketsBytes(before) ==> out' == base + PacketsBytes(ps)
  {
    hide PacketsBytes, AllExpanded, PacketBytes;
    out', ps := out, before;
    var at := x;
    while at < r
      invariant x <= at <= r && AllWellFormed(ps) && AllExpanded(ps) == AllExpanded(before) + comp[x..at]
      invariant forall base :: out == base + PacketsBytes(before) ==> out' == base + PacketsBytes(ps)
    {
      var len := if r - at > 127 then 127 else r - at;
      ghost var p := Run(len, comp[at]);
      RunBytes(out', p);
      out' := out' + [len + 128] + [comp[at]];
      forall base | out == base + PacketsBytes(before) ensures out' == base + PacketsBytes(ps + [p]) { Snoc(base, ps, p); }
      Snoc([], ps, p);
      assert Repeat(comp[at], len) == comp[at..at + len];
      ConcatAssoc(AllExpanded(before), comp[x..at], comp[at..at + len]);
      assert comp[x..at] + comp[at..at + len] == comp[x..at + len];
      ps := ps + [p];
      at := at + len;
    }
  }

  lemma RunBytes(out: bytes, p: Packet)
    requires WellFormed(p) && p.Run?
    ensures out + [p.count + 128] + [p.value] == out + PacketBytes(p)
  {
  }

  /** One component of a scanline. */
  method EncodeComponent(out: bytes, comp: bytes) returns (out': bytes)
    ensures exists ps :: AllWellFormed(ps) && out' == out + PacketsBytes(ps) && AllExpanded(ps) == comp
  {
    hide AllWellFormed, PacketBytes, Expanded;
    var width := |comp|;
    out' := out;
    ghost var ps: seq<Packet> := [];
    Nothing();
    assert out == out + PacketsBytes([]);
    var x := 0;
    while x < width
      invariant 0 <= x <= width && AllWellFormed(ps) && out' == out + PacketsBytes(ps) && AllExpanded(ps) == comp[..x]
      decreases width - x
    {
      var start := x;
      var r := FirstRun(comp, x);
      out', ps := DumpUpTo(out', comp, x, r, ps);
      assert comp[..x] + comp[x..r] == comp[..r];
      x := r;
      if r + 2 < width {
        while r < width && comp[r] == comp[x]
          invariant x <= r <= width
          invariant forall k :: x <= k < r ==> comp[k] == comp[x]
          invariant x + 2 < width && comp[x] == comp[x + 1]
          decreases width - r
        {
          r := r + 1;
        }
        out', ps := RunUpTo(out', comp, x, r, ps);
        assert comp[..x] + comp[x..r] == comp[..r];
        x := r;
      }
    }
    assert comp[..x] == comp;
  }

  lemma Nothing()
    ensures AllWellFormed([]) && PacketsBytes([]) == [] && AllExpanded([]) == []
  {
  }

  // ----- decoding undoes encoding -----

  lemma {:induction false} Front(ps: seq<Packet>)
    requires ps != [] && AllWellFormed(ps)
    ensures AllWellFormed(ps[1..]) && WellFormed(ps[0])
    ensures PacketsBytes(ps) == PacketBytes(ps[0]) + PacketsBytes(ps[1..])
    ensures AllExpanded(ps) == Expanded(ps[0]) + AllExpanded(ps[1..])
    decreases |ps|
  {
    hide WellFormed, PacketBytes, Expanded;
    var n := |ps| - 1;
    if n == 0 {
      assert ps[..0] == [] && ps[1..] == [];
    } else {
      Front(ps[..n]);
      assert ps[..n][1..] == ps[1..][..n - 1];
      ConcatAssoc(PacketBytes(ps[0]), PacketsBytes(ps[1..][..n - 1]), PacketBytes(ps[n]));
      ConcatAssoc(Expanded(ps[0]), AllExpanded(ps[1..][..n - 1]), Expanded(ps[n]));
    }
  }

  lemma PacketReads(p: Packet, tail: bytes, more: bytes, rest: bytes)
    requires WellFormed(p) && ReadComponent(tail, |more|) == Some((more, rest))
    ensures ReadComponent(PacketBytes(p) + tail, |Expanded(p)| + |more|) == Some((Expanded(p) + more, rest))
  {
    match p {
      case Dump(data) => DumpReads(data, tail, more, rest);
      case Run(count, value) => RunReads(count, value, tail, more, rest);
    }
  }

  lemma DumpReads(data: bytes, tail: bytes, more: bytes, rest: bytes)
    requires 1 <= |data| <= 128 && ReadComponent(tail, |more|) == Some((more, rest))
    ensures ReadComponent([|data|] + data + tail, |data| + |more|) == Some((data + more, rest))
  {
    hide ReadComponent, NextPiece;
    DumpPiece(data, tail);
    ComponentStep([|data|] + data + tail, 1 + |data|, data, more, rest);
  }

  lemma DumpPiece(data: bytes, tail: bytes)
    requires 1 <= |data| <= 128
    ensures var b := [|data|] + data + tail; NextPiece(b) == Some(Piece(data, 1 + |data|)) && b[1 + |data|..] == tail
  {
    hide Repeat;
    var head, b := [|data|] + data, [|data|] + data + tail;
    assert b[..1 + |data|] == head;
    assert b[1..1 + |data|] == head[1..] == data;
  }

  lemma RunReads(count: nat, value: byte, tail: bytes, more: bytes, rest: bytes)
    requires 1 <= count <= 127 && ReadComponent(tail, |more|) == Some((more, rest))
    ensures ReadComponent([count + 128, value] + tail, |Repeat(value, count)| + |more|) == Some((Repeat(value, count) + more, rest))
  {
    hide Repeat, ReadComponent;
    var b := [count + 128, value] + tail;
    assert b[2..] == tail;
    ComponentStep(b, 2, Repeat(value, count), more, rest);
  }

  /** One packet of the decoder. */
  lemma ComponentStep(b: bytes, used: nat, head: bytes, more: bytes, rest: bytes)
    requires b != [] && NextPiece(b) == Some(Piece(head, used))
    requires ReadComponent(b[used..], |more|) == Some((more, rest))
    ensures ReadComponent(b, |head| + |more|) == Some((head + more, rest))
  {
    hide NextPiece;
  }

  /** The packets of a component are read back as the component, and no byte more is taken. */
  lemma {:induction false} ComponentReadsBack(ps: seq<Packet>, rest: bytes)
    requires AllWellFormed(ps)
    ensures ReadComponent(PacketsBytes(ps) + rest, |AllExpanded(ps)|) == Some((AllExpanded(ps), rest))
    decreases |ps|
  {
    hide WellFormed, PacketBytes, Expanded;
    if ps == [] {
      assert PacketsBytes(ps) + rest == rest;
    } else {
      Front(ps);
      ComponentReadsBack(ps[1..], rest);
      ConcatAssoc(PacketBytes(ps[0]), PacketsBytes(ps[1..]), rest);
      PacketReads(ps[0], PacketsBytes(ps[1..]) + rest, AllExpanded(ps[1..]), rest);
    }
  }

  // ----- scanlines -----

  ghost function FlatBytes(row: seq<Rgbe>): bytes
  {
    if row == [] then [] else FlatBytes(row[..|row| - 1]) + PixelBytes(row[|row| - 1])
  }

  function PixelBytes(p: Rgbe): bytes
  {
    [p.r, p.g, p.b, p.e]
  }

  lemma {:induction false} FlatReadsBack(row: seq<Rgbe>, tail: bytes, more: seq<Rgbe>, rest: bytes)
    requires ReadFlat(tail, |more|) == Some((more, rest))
    ensures ReadFlat(FlatBytes(row) + tail, |row| + |more|) == Some((row + more, rest))
    decreases |row|
  {
    if row == [] {
      assert FlatBytes(row) + tail == tail && row + more == more;
    } else {
      var n := |row| - 1;
      var p := row[n];
      OneFlat(p, tail, more, rest);
      FlatReadsBack(row[..n], PixelBytes(p) + tail, [p] + more, rest);
      ConcatAssoc(FlatBytes(row[..n]), PixelBytes(p), tail);
      assert row[..n] + ([p] + more) == row + more;
    }
  }

  lemma OneFlat(p: Rgbe, tail: bytes, more: seq<Rgbe>, rest: bytes)
    requires ReadFlat(tail, |more|) == Some((more, rest))
    ensures ReadFlat(PixelBytes(p) + tail, 1 + |more|) == Some(([p] + more, rest))
  {
    assert (PixelBytes(p) + tail)[4..] == tail;
  }

  /** `out` has grown by bytes that read back as the row, whatever comes after them. */
  ghost predicate Appended(out: bytes, out': bytes, row: seq<Rgbe>)
  {
    |out| <= |out'| && out'[..|out|] == out && forall rest :: ReadScanline(out'[|out|..] + rest, |row|) == Some((row, rest))
  }

  lemma AppendedIs(out: bytes, scanline: bytes, row: seq<Rgbe>)
    requires forall rest :: ReadScanline(scanline + rest, |row|) == Some((row, rest))
    ensures Appended(out, out + scanline, row)
  {
    assert (out + scanline)[|out|..] == scanline && (out + scanline)[..|out|] == out;
  }

  /** stbiw__write_hdr_scanline, from the pixels in RGBE form on. */
  method WriteScanline(out: bytes, row: seq<Rgbe>) returns (out': bytes)
    ensures Appended(out, out', row)
  {
    hide AllWellFormed, PacketsBytes, AllExpanded, ReadFlat, ReadPlanes, FlatBytes, Plane, Appended;
    var width := |row|;
    out' := out;
    if width < 8 || width >= 32768 {
      out' := WriteFlat(out', row);
    } else {
      var scanlineheader: bytes := [2, 2, width / 256, width % 256];
      var out0 := out + scanlineheader;
      var out1 := EncodeComponent(out0, Plane(row, 0));
      ghost var r :| AllWellFormed(r) && out1 == out0 + PacketsBytes(r) && AllExpanded(r) == Plane(row, 0);
      var out2 := EncodeComponent(out1, Plane(row, 1));
      ghost var g :| AllWellFormed(g) && out2 == out1 + PacketsBytes(g) && AllExpanded(g) == Plane(row, 1);
      var out3 := EncodeComponent(out2, Plane(row, 2));
      ghost var b :| AllWellFormed(b) && out3 == out2 + PacketsBytes(b) && AllExpanded(b) == Plane(row, 2);
      out' := EncodeComponent(out3, Plane(row, 3));
      ghost var e :| AllWellFormed(e) && out' == out3 + PacketsBytes(e) && AllExpanded(e) == Plane(row, 3);
      ghost var scanline := scanlineheader + (PacketsBytes(r) + (PacketsBytes(g) + (PacketsBytes(b) + PacketsBytes(e))));
      FourAppended(out, scanlineheader, PacketsBytes(r), PacketsBytes(g), PacketsBytes(b), PacketsBytes(e));
      hide ReadScanline;
      forall rest ensures ReadScanline(scanline + rest, width) == Some((row, rest)) {
        ScanlineBack(row, r, g, b, e, rest);
      }
      AppendedIs(out, scanline, row);
    }
  }

  lemma FourAppended(out: bytes, h: bytes, r: bytes, g: bytes, b: bytes, e: bytes)
    ensures out + h + r + g + b + e == out + (h + (r + (g + (b + e))))
  {
  }

  lemma ScanlineBack(row: seq<Rgbe>, r: seq<Packet>, g: seq<Packet>, b: seq<Packet>, e: seq<Packet>, rest: bytes)
    requires 8 <= |row| < 32768 && AllWellFormed(r) && AllWellFormed(g) && AllWellFormed(b) && AllWellFormed(e)
    requires AllExpanded(r) == Plane(row, 0) && AllExpanded(g) == Plane(row, 1)
    requires AllExpanded(b) == Plane(row, 2) && AllExpanded(e) == Plane(row, 3)
    ensures ReadScanline([2, 2, |row| / 256, |row| % 256]
                         + (PacketsBytes(r) + (PacketsBytes(g) + (PacketsBytes(b) + PacketsBytes(e)))) + rest, |row|)
         == Some((row, rest))
  {
    hide AllWellFormed, PacketsBytes, AllExpanded, ReadFlat, ReadPlanes, Plane;
    PlanesReadBack(row, r, g, b, e, rest);
    var header: bytes := [2, 2, |row| / 256, |row| % 256];
    var planes := PacketsBytes(r) + (PacketsBytes(g) + (PacketsBytes(b) + (PacketsBytes(e) + rest)));
    assert header + (PacketsBytes(r) + (PacketsBytes(g) + (PacketsBytes(b) + PacketsBytes(e)))) + rest == header + planes;
    assert (header + planes)[4..] == planes;
  }

  method WriteFlat(out: bytes, row: seq<Rgbe>) returns (out': bytes)
    requires |row| < 8 || |row| >= 32768
    ensures Appended(out, out', row)
  {
    hide ReadFlat, Appended;
    out' := out;
    ghost var scanline: bytes := [];
    var x := 0;
    while x < |row|
      invariant 0 <= x <= |row| && out' == out + scanline && scanline == FlatBytes(row[..x])
    {
      assert row[..x + 1][..x] == row[..x];
      ConcatAssoc(out, scanline, PixelBytes(row[x]));
      out' := out' + PixelBytes(row[x]);
      scanline := scanline + PixelBytes(row[x]);
      x := x + 1;
    }
    assert row[..x] == row;
    forall rest: bytes ensures ReadScanline(scanline + rest, |row|) == Some((row, rest)) {
      NoFlat(rest);
      FlatReadsBack(row, rest, [], rest);
      assert row + [] == row;
    }
    AppendedIs(out, scanline, row);
  }

  lemma NoFlat(rest: bytes)
    ensures ReadFlat(rest, 0) == Some(([], rest))
  {
  }

  lemma PlanesReadBack(row: seq<Rgbe>, r: seq<Packet>, g: seq<Packet>, b: seq<Packet>, e: seq<Packet>, rest: bytes)
    requires AllWellFormed(r) && AllWellFormed(g) && AllWellFormed(b) && AllWellFormed(e)
    requires AllExpanded(r) == Plane(row, 0) && AllExpanded(g) == Plane(row, 1)
    requires AllExpanded(b) == Plane(row, 2) && AllExpanded(e) == Plane(row, 3)
    ensures ReadPlanes(PacketsBytes(r) + (PacketsBytes(g) + (PacketsBytes(b) + (PacketsBytes(e) + rest))), |row|)
         == Some((row, rest))
  {
    hide AllWellFormed, PacketsBytes, AllExpanded, ReadComponent, Plane;
    ComponentReadsBack(r, PacketsBytes(g) + (PacketsBytes(b) + (PacketsBytes(e) + rest)));
    ComponentReadsBack(g, PacketsBytes(b) + (PacketsBytes(e) + rest));
    ComponentReadsBack(b, PacketsBytes(e) + rest);
    ComponentReadsBack(e, rest);
    WovenBack(row);
  }

  lemma WovenBack(row: seq<Rgbe>)
    ensures Woven(Plane(row, 0), Plane(row, 1), Plane(row, 2), Plane(row, 3)) == row
  {
  }
}
