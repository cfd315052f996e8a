/** The pixel data of a PNG: filtered, then compressed. */
module PngWriter {
  import opened Prelude
  import opened PngFilter
  import ZlibCompress
  import Inflate

  /** A stride of zero stands for rows without gaps. */
  function Packed(img: Image): Image
  {
    if img.stride == 0 then img.(stride := img.x * img.n) else img
  }

  /** The bytes of an image, row by row from the top; flipping turns it upside down, a stride of zero leaves no gaps. */
  ghost predicate RowsOf(given: Image, rows: seq<bytes>)
  {
    var len := given.x * given.n;
    var stride := if given.stride == 0 then len else given.stride;
    && |rows| == given.y
    && forall k :: 0 <= k < given.y ==>
         RowAt(given.pixels, rows[k], given.first + stride * (if given.flip then given.y - 1 - k else k), len)
  }

  ghost predicate RowAt(pixels: bytes, row: bytes, at: int, len: nat)
  {
    0 <= at <= |pixels| - len && row == pixels[at..at + len]
  }

  lemma {:induction false} RowsFrom(img: Image, from: nat)
    requires img.Valid() && from <= img.y
    ensures |Rows(img, from)| == img.y - from
    ensures forall k :: from <= k < img.y ==> Rows(img, from)[k - from] == img.Row(k)
    decreases img.y - from
  {
    hide Image.Row, Image.Valid;
    if from < img.y { RowsFrom(img, from + 1); }
  }

  lemma RowsAreTheImages(given: Image)
    requires Packed(given).Valid()
    ensures RowsOf(given, Rows(Packed(given), 0))
  {
    var img := Packed(given);
    RowsFrom(img, 0);
    var rows := Rows(img, 0);
    assert img == given.(stride := img.stride);
    hide Rows, Image.Valid, Image.Row, RowAt;
    forall k | 0 <= k < given.y
      ensures RowAt(given.pixels, rows[k], given.first + img.stride * (if given.flip then given.y - 1 - k else k), given.x * given.n)
    {
      RowIs(img, k);
      assert rows[k] == img.Row(k);
    }
  }

  lemma RowIs(img: Image, k: nat)
    requires img.Valid() && k < img.y
    ensures RowAt(img.pixels, img.Row(k), img.first + img.stride * (if img.flip then img.y - 1 - k else k), img.x * img.n)
  {
    hide Image.Valid;
    img.RowFits(k);
  }

  function Flat(rows: seq<bytes>): bytes
  {
    if rows == [] then [] else Flat(rows[..|rows| - 1]) + rows[|rows| - 1]
  }

  /** A packed image that is not flipped is its pixels in order. */
  lemma PackedIsItsPixels(given: Image, rows: seq<bytes>)
    requires RowsOf(given, rows) && given.stride == 0 && !given.flip && given.first == 0
    ensures |rows| * (given.x * given.n) <= |given.pixels| && Flat(rows) == given.pixels[..|rows| * (given.x * given.n)]
  {
    var len := given.x * given.n;
    hide RowAt;
    forall j | 0 <= j < |rows| ensures RowAt(given.pixels, rows[j], len * j, len) {
      assert RowAt(given.pixels, rows[j], given.first + len * (if given.flip then given.y - 1 - j else j), len);
    }
    hide RowsOf;
    ConsecutiveRows(given.pixels, rows, len, |rows|);
    assert rows[..|rows|] == rows;
  }

  lemma {:induction false} ConsecutiveRows(pixels: bytes, rows: seq<bytes>, len: nat, k: nat)
    requires k <= |rows| && forall j :: 0 <= j < |rows| ==> RowAt(pixels, rows[j], len * j, len)
    ensures k * len <= |pixels| && Flat(rows[..k]) == pixels[..k * len]
  {
    hide RowAt, Flat;
    if k == 0 {
      NoRowsFlat(rows, pixels);
    } else {
      ConsecutiveRows(pixels, rows, len, k - 1);
      assert len * (k - 1) == (k - 1) * len && k * len == (k - 1) * len + len;
      assert RowAt(pixels, rows[k - 1], len * (k - 1), len);
      OneMoreFlat(rows, k, pixels, (k - 1) * len, len);
    }
  }

  lemma NoRowsFlat(rows: seq<bytes>, pixels: bytes)
    ensures Flat(rows[..0]) == pixels[..0]
  {
  }

  lemma OneMoreFlat(rows: seq<bytes>, k: nat, pixels: bytes, at: nat, len: nat)
    requires 0 < k <= |rows| && at <= |pixels| && Flat(rows[..k - 1]) == pixels[..at] && RowAt(pixels, rows[k - 1], at, len)
    ensures at + len <= |pixels| && Flat(rows[..k]) == pixels[..at + len]
  {
    assert rows[..k][..k - 1] == rows[..k - 1];
  }

  function RowLength(img: Image): nat { img.x * img.n }

  /** Inflating `z` and undoing the filters gives the rows of the image. */
  ghost predicate Shows(z: bytes, given: Image)
    requires given.n >= 1
  {
    exists filt, rows ::
      && Inflate.ReadZlib(z) == Some(filt)
      && Unfilter(filt, given.y, RowLength(given), given.n, Repeat(0, RowLength(given))) == Some(rows)
      && RowsOf(given, rows)
  }

  lemma LengthOf(img: Image)
    ensures RowLength(img) == img.x * img.n
  {
  }

  lemma ShowsRows(z: bytes, given: Image, filt: bytes, rows: seq<bytes>)
    requires given.n >= 1 && Inflate.ReadZlib(z) == Some(filt)
    requires Unfilter(filt, given.y, RowLength(given), given.n, Repeat(0, RowLength(given))) == Some(rows)
    requires RowsOf(given, rows)
    ensures Shows(z, given)
  {
    hide RowsOf, RowLength, Unfilter, Inflate.ReadZlib, Repeat;
  }

  /** What stbi_write_png_to_mem puts in the IDAT chunk, for every stride, flip, forced filter and compression level. */
  method ImageData(given: Image, force: int, level: int) returns (z: bytes)
    requires Packed(given).Valid() && given.y >= 1 && Countable(Packed(given), force)
    ensures Shows(z, given)
  {
    var img := Packed(given);
    assert img.y == given.y >= 1 && img.x == given.x && img.n == given.n;
    hide *;
    RowsAreTheImages(given);
    var filt;
    ghost var filters;
    filt, filters := FilterImage(img, force);
    UnfilterEncoded(img, 0, filters);
    NoRowAbove(img);
    assert img.y * (img.x * img.n + 1) > 0 by { RowsArePositive(img); }
    z := ZlibCompress.Compress(filt, level);
    LengthOf(given);
    ShowsRows(z, given, filt, Rows(img, 0));
  }
}
