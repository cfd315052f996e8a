/** Run-length encoded TGA images. */
module TgaRle {
  import opened Prelude
  import opened ByteOrder

  /** A pixel is `comp` bytes: grey, grey and alpha, RGB, or RGB and alpha. */
  type Pixel = bytes

  datatype Packet = Raw(pixels: seq<Pixel>) | Run(count: nat, pixel: Pixel)

  /** stbiw__write_pixel as the TGA writer calls it: colours in BGR order, alpha last. */
  function PixelBytes(p: Pixel): (b: bytes)
    ensures |b| == |p|
  {
    if |p| >= 3 then [p[2], p[1], p[0]] + p[3..] else p
  }

  ghost function PixelsBytes(ps: seq<Pixel>): bytes
  {
    if ps == [] then [] else PixelsBytes(ps[..|ps| - 1]) + PixelBytes(ps[|ps| - 1])
  }

  ghost predicate WellFormed(p: Packet)
  {
    match p
    case Raw(pixels) => 1 <= |pixels| <= 128
    case Run(count, _) => 1 <= count <= 128
  }

  ghost function PacketBytes(p: Packet): bytes
    requires WellFormed(p)
  {
    match p
    case Raw(pixels) => [|pixels| - 1] + PixelsBytes(pixels)
    case Run(count, pixel) => [count + 127] + PixelBytes(pixel)
  }

  ghost function PacketPixels(p: Packet): seq<Pixel>
  {
    match p
    case Raw(pixels) => pixels
    case Run(count, pixel) => seq(count, _ => pixel)
  }

  ghost predicate AllWellFormed(ps: seq<Packet>)
  {
    forall p :: p in ps ==> WellFormed(p)
  }

  ghost function PacketsBytes(ps: seq<Packet>): bytes
    requires AllWellFormed(ps)
  {
    if ps == [] then [] else PacketsBytes(ps[..|ps| - 1]) + PacketBytes(ps[|ps| - 1])
  }

  ghost function PacketsPixels(ps: seq<Packet>): seq<Pixel>
  {
    if ps == [] then [] else PacketsPixels(ps[..|ps| - 1]) + PacketPixels(ps[|ps| - 1])
  }

  // ----- the decoder -----

  /** A stored pixel: blue, green, red when it has colours, and what follows them. */
  ghost function ReadPixel(b: bytes): Pixel
  {
    if |b| < 3 then b else [b[2]] + [b[1]] + [b[0]] + b[3..]
  }

  ghost function ReadPixels(b: bytes, comp: nat, n: nat): (r: Option<(seq<Pixel>, bytes)>)
    ensures r.Some? ==> |r.value.0| == n && |r.value.1| <= |b|
  {
    if n == 0 then Some(([], b))
    else if |b| < comp then None
    else
      match ReadPixels(b[comp..], comp, n - 1)
      case None => None
      case Some((ps, rest)) => Some(([ReadPixel(b[..comp])] + ps, rest))
  }

  /** A row of `x` pixels; packets end with the row. */
  ghost function ReadRow(b: bytes, comp: nat, x: nat): Option<(seq<Pixel>, bytes)>
    decreases x
  {
    if x == 0 then Some(([], b))
    else if b == [] then None
    else
      var count := b[0] % 128 + 1;
      if count > x then None
      else
        var pixels := ReadPixels(b[1..], comp, if b[0] >= 128 then 1 else count);
        match pixels
        case None => None
        case Some((ps, rest)) =>
          (match ReadRow(rest, comp, x - count)
           case None => None
           case Some((more, rest')) =>
             Some(((if b[0] >= 128 then seq(count, _ => ps[0]) else ps) + more, rest')))
  }

  // ----- the encoder -----

  /** The pixels are `n` equal ones from `i` on. */
  ghost predicate Same(row: seq<Pixel>, i: nat, n: nat)
  {
    i + n <= |row| && forall k :: i <= k < i + n ==> row[k] == row[i]
  }

  /** No pixel from `i` on, up to `n`, equals the one two before it. */
  ghost predicate NoRepeat(row: seq<Pixel>, i: nat, n: nat)
  {
    i + n <= |row| && forall k :: i + 2 <= k < i + n ==> row[k] != row[k - 2]
  }

  /** How far the next packet reaches, and whether it is raw. A raw packet ends with the first pixel that comes again two later. */
  method NextPacket(row: seq<Pixel>, i: nat) returns (len: nat, raw: bool)
    requires i < |row|
    ensures 1 <= len <= 128 && i + len <= |row|
    ensures raw <==> i + 1 == |row| || row[i] != row[i + 1]
    ensures !raw ==> Same(row, i, len) && (len == 128 || i + len == |row| || row[i + len] != row[i])
    ensures raw ==> NoRepeat(row, i, len)
    ensures raw && len < 128 && i + len < |row| ==> i + len + 1 < |row| && row[i + len + 1] == row[i + len - 1]
  {
    var x := |row|;
    var diff := true;
    len := 1;
    if i < x - 1 {
      len := len + 1;
      diff := row[i] != row[i + 1];
      var k := i + 2;
      if diff {
        var prev := i;
        while k < x && len < 128
          invariant k == i + len == prev + 2 && 2 <= len <= 128 && k <= x && NoRepeat(row, i, len)
          decreases x - k
        {
          if row[prev] != row[k] {
            prev := prev + 1;
            len := len + 1;
          } else {
            len := len - 1;
            break;
          }
          k := k + 1;
        }
      } else {
        while k < x && len < 128
          invariant k == i + len && 2 <= len <= 128 && k <= x && Same(row, i, len)
          decreases x - k
        {
          if row[i] == row[k] {
            len := len + 1;
          } else {
            break;
          }
          k := k + 1;
        }
      }
    }
    raw := diff;
  }

  lemma PixelsSnoc(row: seq<Pixel>, i: nat, k: nat)
    requires i + k < |row|
    ensures PixelsBytes(row[i..i + k + 1]) == PixelsBytes(row[i..i + k]) + PixelBytes(row[i + k])
    ensures PixelsBytes(row[i..i]) == []
  {
    hide PixelBytes;
    assert row[i..i + k + 1][..k] == row[i..i + k];
  }

  method WritePixels(out: bytes, row: seq<Pixel>, i: nat, len: nat) returns (r: bytes)
    requires 1 <= len && i + len <= |row|
    ensures r == out + PixelsBytes(row[i..i + len])
  {
    hide PixelBytes, PixelsBytes;
    r := out;
    var k := 0;
    PixelsSnoc(row, i, 0);
    while k < len
      invariant 0 <= k <= len && r == out + PixelsBytes(row[i..i + k])
    {
      PixelsSnoc(row, i, k);
      ConcatAssoc(out, PixelsBytes(row[i..i + k]), PixelBytes(row[i + k]));
      r := r + PixelBytes(row[i + k]);
      k := k + 1;
    }
  }

  method WritePacket(out: bytes, row: seq<Pixel>, i: nat, len: nat, raw: bool) returns (r: bytes, ghost p: Packet)
    requires 1 <= len <= 128 && i + len <= |row| && (!raw ==> Same(row, i, len))
    ensures WellFormed(p) && r == out + PacketBytes(p) && PacketPixels(p) == row[i..i + len]
  {
    hide PixelBytes, PixelsBytes;
    if raw {
      p := Raw(row[i..i + len]);
      r := WritePixels(out + [len - 1], row, i, len);
      ConcatAssoc(out, [len - 1], PixelsBytes(row[i..i + len]));
    } else {
      p := Run(len, row[i]);
      r := out + [len + 127];
      r := r + PixelBytes(row[i]);
    }
  }

  method EncodeRow(out: bytes, row: seq<Pixel>) returns (r: bytes)
    ensures exists ps :: AllWellFormed(ps) && r == out + PacketsBytes(ps) && PacketsPixels(ps) == row
  {
    hide WellFormed, PacketBytes, PacketPixels, Same, NoRepeat;
    r := out;
    ghost var ps: seq<Packet> := [];
    var i := 0;
    while i < |row|
      invariant 0 <= i <= |row| && AllWellFormed(ps) && r == out + PacketsBytes(ps) && PacketsPixels(ps) == row[..i]
      decreases |row| - i
    {
      var len, raw := NextPacket(row, i);
      ghost var p;
      r, p := WritePacket(r, row, i, len, raw);
      ghost var ps' := ps + [p];
      assert ps'[..|ps|] == ps;
      ConcatAssoc(out, PacketsBytes(ps), PacketBytes(p));
      assert row[..i + len] == row[..i] + row[i..i + len];
      ps := ps';
      i := i + len;
    }
    assert row[..i] == row;
  }

  // ----- decoding undoes encoding -----

  lemma PixelBack(p: Pixel)
    ensures ReadPixel(PixelBytes(p)) == p
  {
  }

  lemma {:induction false} ReadPixelsBack(ps: seq<Pixel>, comp: nat, rest: bytes)
    requires forall p :: p in ps ==> |p| == comp
    ensures ReadPixels(PixelsBytes(ps) + rest, comp, |ps|) == Some((ps, rest))
    decreases |ps|
  {
    hide PixelBytes, PixelsBytes, ReadPixel, ReadPixels;
    if ps == [] {
      NonePixels(comp, rest);
    } else {
      ReadPixelsBack(ps[1..], comp, rest);
      PixelsFront(ps);
      assert ps[0] in ps;
      ConcatAssoc(PixelBytes(ps[0]), PixelsBytes(ps[1..]), rest);
      PixelBack(ps[0]);
      ReadPixelStep(PixelBytes(ps[0]), PixelsBytes(ps[1..]) + rest, ps[1..], rest);
      assert ps == [ps[0]] + ps[1..];
    }
  }

  lemma NonePixels(comp: nat, rest: bytes)
    ensures PixelsBytes([]) == []
    ensures ReadPixels(PixelsBytes([]) + rest, comp, 0) == Some(([], rest))
  {
    assert [] + rest == rest;
  }

  lemma ReadPixelStep(b: bytes, tail: bytes, more: seq<Pixel>, rest: bytes)
    requires ReadPixels(tail, |b|, |more|) == Some((more, rest))
    ensures ReadPixels(b + tail, |b|, |more| + 1) == Some(([ReadPixel(b)] + more, rest))
  {
    hide ReadPixel;
    assert (b + tail)[..|b|] == b && (b + tail)[|b|..] == tail;
  }

  lemma {:induction false} PixelsFront(ps: seq<Pixel>)
    requires ps != []
    ensures PixelsBytes(ps) == PixelBytes(ps[0]) + PixelsBytes(ps[1..])
    decreases |ps|
  {
    hide PixelBytes, PixelsBytes;
    var n := |ps| - 1;
    PixelsLast(ps);
    if n == 0 {
      OnePixel(ps[0]);
      assert ps == [ps[0]] && ps[1..] == [];
      NonePixels(0, []);
    } else {
      PixelsFront(ps[..n]);
      PixelsLast(ps[1..]);
      assert ps[..n][1..] == ps[1..][..n - 1];
      ConcatAssoc(PixelBytes(ps[0]), PixelsBytes(ps[1..][..n - 1]), PixelBytes(ps[n]));
    }
  }

  lemma PixelsLast(ps: seq<Pixel>)
    requires ps != []
    ensures PixelsBytes(ps) == PixelsBytes(ps[..|ps| - 1]) + PixelBytes(ps[|ps| - 1])
  {
  }

  lemma {:induction false} PacketsFront(ps: seq<Packet>)
    requires ps != [] && AllWellFormed(ps)
    ensures AllWellFormed(ps[1..]) && WellFormed(ps[0])
    ensures PacketsBytes(ps) == PacketBytes(ps[0]) + PacketsBytes(ps[1..])
    ensures PacketsPixels(ps) == PacketPixels(ps[0]) + PacketsPixels(ps[1..])
    decreases |ps|
  {
    hide WellFormed, PacketBytes, PacketPixels;
    var n := |ps| - 1;
    if n == 0 {
      assert ps[..0] == [] && ps[1..] == [];
    } else {
      PacketsFront(ps[..n]);
      assert ps[..n][1..] == ps[1..][..n - 1];
      ConcatAssoc(PacketBytes(ps[0]), PacketsBytes(ps[1..][..n - 1]), PacketBytes(ps[n]));
      ConcatAssoc(PacketPixels(ps[0]), PacketsPixels(ps[1..][..n - 1]), PacketPixels(ps[n]));
    }
  }

  ghost predicate OfSize(ps: seq<Pixel>, comp: nat)
  {
    forall p :: p in ps ==> |p| == comp
  }

  /** The decoder reads the packets back as the row, and stops where the next row begins. */
  lemma {:induction false} ReadRowBack(ps: seq<Packet>, comp: nat, rest: bytes)
    requires AllWellFormed(ps) && OfSize(PacketsPixels(ps), comp)
    ensures ReadRow(PacketsBytes(ps) + rest, comp, |PacketsPixels(ps)|) == Some((PacketsPixels(ps), rest))
    decreases |ps|
  {
    hide PacketBytes, PacketPixels, PixelsBytes, PixelBytes, ReadPixels, ReadRow;
    if ps == [] {
      assert PacketsBytes(ps) + rest == rest;
      NoPixels(rest, comp);
    } else {
      PacketsFront(ps);
      var more := PacketsPixels(ps[1..]);
      SplitSize(PacketPixels(ps[0]), more, comp);
      ReadRowBack(ps[1..], comp, rest);
      ConcatAssoc(PacketBytes(ps[0]), PacketsBytes(ps[1..]), rest);
      ReadPacketBack(ps[0], comp, PacketsBytes(ps[1..]) + rest, more, rest);
    }
  }

  lemma NoPixels(rest: bytes, comp: nat)
    ensures ReadRow(rest, comp, 0) == Some(([], rest))
  {
  }

  lemma SplitSize(a: seq<Pixel>, b: seq<Pixel>, comp: nat)
    requires OfSize(a + b, comp)
    ensures OfSize(a, comp) && OfSize(b, comp)
  {
    assert forall p :: p in a ==> p in a + b;
    assert forall p :: p in b ==> p in a + b;
  }

  lemma ReadPacketBack(p: Packet, comp: nat, tail: bytes, more: seq<Pixel>, rest: bytes)
    requires WellFormed(p) && OfSize(PacketPixels(p), comp) && ReadRow(tail, comp, |more|) == Some((more, rest))
    ensures ReadRow(PacketBytes(p) + tail, comp, |PacketPixels(p)| + |more|) == Some((PacketPixels(p) + more, rest))
  {
    hide PixelsBytes, PixelBytes, ReadPixels, ReadRow;
    match p {
      case Raw(pixels) =>
        ReadPixelsBack(pixels, comp, tail);
        ReadRowStep(|pixels| - 1, PixelsBytes(pixels) + tail, comp, pixels, tail, more, rest);
        ConcatAssoc([|pixels| - 1], PixelsBytes(pixels), tail);
      case Run(count, pixel) =>
        assert PacketPixels(p)[0] == pixel;
        OnePixel(pixel);
        ReadPixelsBack([pixel], comp, tail);
        ReadRowStep(count + 127, PixelsBytes([pixel]) + tail, comp, [pixel], tail, more, rest);
        ConcatAssoc([count + 127], PixelsBytes([pixel]), tail);
    }
  }

  /** One packet of the decoder. */
  lemma ReadRowStep(h: byte, body: bytes, comp: nat, ps: seq<Pixel>, tail: bytes, more: seq<Pixel>, rest: bytes)
    requires |ps| == (if h >= 128 then 1 else h + 1) && ReadPixels(body, comp, |ps|) == Some((ps, tail))
    requires ReadRow(tail, comp, |more|) == Some((more, rest))
    ensures ReadRow([h] + body, comp, h % 128 + 1 + |more|)
         == Some(((if h >= 128 then seq(h % 128 + 1, _ => ps[0]) else ps) + more, rest))
  {
    hide ReadPixels;
    assert ([h] + body)[1..] == body;
  }

  lemma OnePixel(p: Pixel)
    ensures PixelsBytes([p]) == PixelBytes(p)
  {
    assert [p][..0] == [];
  }

  // ----- whole images -----

  datatype Image = Image(comp: nat, width: nat, rows: seq<seq<Pixel>>)

  ghost predicate ValidImage(m: Image)
  {
    && 1 <= m.comp <= 4
    && forall row :: row in m.rows ==> |row| == m.width && OfSize(row, m.comp)
  }

  function HasAlpha(comp: nat): nat { if comp == 2 || comp == 4 then 1 else 0 }

  /** The 18 bytes before the pixels. */
  function Header(comp: nat, x: nat, y: nat): (h: bytes)
    requires 1 <= comp <= 4
    ensures |h| == 18
  {
    var format := if comp - HasAlpha(comp) < 2 then 3 else 2;
    [0, 0, format + 8] + [0, 0] + [0, 0] + [0] + [0, 0] + [0, 0] + LittleEndian(x, 2) + LittleEndian(y, 2)
    + [comp * 8, HasAlpha(comp) * 8]
  }

  function Reversed<T>(s: seq<T>): (r: seq<T>)
    ensures |r| == |s| && forall i :: 0 <= i < |s| ==> r[i] == s[|s| - 1 - i]
  {
    seq(|s|, i requires 0 <= i < |s| => s[|s| - 1 - i])
  }

  ghost function ReadRows(b: bytes, comp: nat, x: nat, y: nat): (r: Option<(seq<seq<Pixel>>, bytes)>)
    ensures r.Some? ==> |r.value.0| == y
  {
    if y == 0 then Some(([], b))
    else
      match ReadRows(b, comp, x, y - 1)
      case None => None
      case Some((rows, rest)) =>
        match ReadRow(rest, comp, x)
        case None => None
        case Some((row, rest')) => Some((rows + [row], rest'))
  }

  /** Image type 10 holds colours, type 11 greys; the descriptor gives the bits of alpha and no origin bits. */
  ghost predicate Understood(b: bytes)
  {
    && |b| >= 18 && b[0] == 0 && b[1] == 0
    && (b[2] == 11 ==> (b[16] == 8 && b[17] == 0) || (b[16] == 16 && b[17] == 8))
    && (b[2] != 11 ==> b[2] == 10 && ((b[16] == 24 && b[17] == 0) || (b[16] == 32 && b[17] == 8)))
  }

  /** A TGA reader for run-length encoded images with no identification and no colour map: the first row stored is the lowest. */
  ghost function ReadTga(b: bytes): Option<Image>
  {
    if !Understood(b) then None
    else
      match ReadRows(b[18..], b[16] / 8, U16At(b, 12), U16At(b, 14))
      case None => None
      case Some((rows, rest)) =>
        if rest != [] then None else Some(Image(b[16] / 8, U16At(b, 12), Reversed(rows)))
  }

  /** The run-length branch of stbi_write_tga_core. The header keeps the low sixteen bits of each dimension. */
  method WriteTga(m: Image, flip: bool) returns (out: bytes)
    requires ValidImage(m)
    ensures ReadTga(out) == Some(if flip then m.(rows := Reversed(m.rows)) else m)
       <==> m.width < 0x1_0000 && |m.rows| < 0x1_0000
  {
    hide AllWellFormed, PacketsBytes, PacketsPixels, ReadTga, Reversed, Header, OfSize, RowsRead;
    var y := |m.rows|;
    out := Header(m.comp, m.width, y);
    ghost var stored := if flip then m.rows else Reversed(m.rows);
    ghost var body: bytes := [];
    var n := 0;
    var j := if flip then 0 else y - 1;
    NoRows(m.comp, m.width);
    while n < y
      invariant 0 <= n <= y && j == if flip then n else y - 1 - n
      invariant out == Header(m.comp, m.width, y) + body
      invariant RowsRead(body, m, stored[..n])
    {
      ghost var was := out;
      out := EncodeRow(out, m.rows[j]);
      ghost var ps :| AllWellFormed(ps) && out == was + PacketsBytes(ps) && PacketsPixels(ps) == m.rows[j];
      assert m.rows[j] in m.rows && stored[n] == m.rows[j];
      OneMoreRow(body, m, stored[..n], ps);
      assert stored[..n + 1] == stored[..n] + [stored[n]];
      ConcatAssoc(Header(m.comp, m.width, y), body, PacketsBytes(ps));
      body := body + PacketsBytes(ps);
      j := if flip then j + 1 else j - 1;
      n := n + 1;
    }
    assert stored[..n] == stored;
    if m.width < 0x1_0000 && y < 0x1_0000 {
      WholeImage(m, body, stored);
      if !flip { ReversedTwice(m.rows); }
    } else {
      ReadDimensions(out);
    }
  }

  ghost predicate RowsRead(body: bytes, m: Image, rows: seq<seq<Pixel>>)
  {
    forall rest :: ReadRows(body + rest, m.comp, m.width, |rows|) == Some((rows, rest))
  }

  lemma NoRows(comp: nat, width: nat)
    ensures forall m: Image :: m.comp == comp && m.width == width ==> RowsRead([], m, [])
  {
    assert forall rest: bytes :: [] + rest == rest;
  }

  lemma OneMoreRow(body: bytes, m: Image, rows: seq<seq<Pixel>>, ps: seq<Packet>)
    requires RowsRead(body, m, rows) && AllWellFormed(ps)
    requires |PacketsPixels(ps)| == m.width && OfSize(PacketsPixels(ps), m.comp)
    ensures RowsRead(body + PacketsBytes(ps), m, rows + [PacketsPixels(ps)])
  {
    hide AllWellFormed, PacketsBytes, PacketsPixels, ReadRow;
    var enc, row := PacketsBytes(ps), PacketsPixels(ps);
    forall rest: bytes ensures ReadRows(body + enc + rest, m.comp, m.width, |rows| + 1) == Some((rows + [row], rest)) {
      ConcatAssoc(body, enc, rest);
      assert ReadRows(body + (enc + rest), m.comp, m.width, |rows|) == Some((rows, enc + rest));
      ReadRowBack(ps, m.comp, rest);
    }
  }

  lemma HeaderReadsBack(comp: nat, x: u16, y: u16, body: bytes)
    requires 1 <= comp <= 4
    ensures var b := Header(comp, x, y) + body;
            && Understood(b) && b[16] == comp * 8 && U16At(b, 12) == x && U16At(b, 14) == y && b[18..] == body
  {
    hide LittleEndian, FromLittleEndian, U16At;
    var h, b := Header(comp, x, y), Header(comp, x, y) + body;
    assert Pow256(2) == 0x1_0000;
    LittleEndianBack(x, 2);
    LittleEndianBack(y, 2);
    assert b[12..14] == LittleEndian(x, 2) && b[14..16] == LittleEndian(y, 2);
  }

  /** No image read is wider or higher than sixteen bits can say. */
  lemma ReadDimensions(b: bytes)
    ensures ReadTga(b).Some? ==> ReadTga(b).value.width < 0x1_0000 && |ReadTga(b).value.rows| < 0x1_0000
  {
    hide ReadRows, U16At;
  }

  lemma WholeImage(m: Image, body: bytes, stored: seq<seq<Pixel>>)
    requires ValidImage(m) && m.width < 0x1_0000 && |m.rows| < 0x1_0000
    requires |stored| == |m.rows| && RowsRead(body, m, stored)
    ensures ReadTga(Header(m.comp, m.width, |m.rows|) + body) == Some(m.(rows := Reversed(stored)))
  {
    hide ReadRows, Reversed, Header, U16At;
    HeaderReadsBack(m.comp, m.width, |m.rows|, body);
    assert body + [] == body;
  }

  lemma ReversedTwice<T>(s: seq<T>)
    ensures Reversed(Reversed(s)) == s
  {
  }
}
