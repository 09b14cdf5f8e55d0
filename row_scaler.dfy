/**
 * The justified ("brick wall") row: every image of a row is scaled to one
 * common height chosen so that the row is exactly `RowMaxWidth` wide.
 * This module states the arithmetic of `addImageRowToDom` over exact reals;
 * the in-place version that rewrites the image records is
 * `ImageData.AddImageRowToDom`.
 */
module RowScaler {

  /** Horizontal gap between neighbouring images of a row, in pixels. */
  const ImageSeparationWidth: real := 0.0
  /** Width every row is scaled to fill, in pixels. */
  const RowMaxWidth: real := 800.0

  /** Width and height of one image. */
  datatype Size = Size(width: real, height: real)

  /** Width divided by height. */
  function AspectRatio(s: Size): real
    requires 0.0 < s.height
  {
    s.width / s.height
  }

  /** The width of an image of the given size once scaled to `toHeight`. */
  function ScaledWidth(width: real, height: real, toHeight: real): real
    requires 0.0 < height
  {
    (width * toHeight) / height
  }

  /** Images the scaler can handle: a non-empty row of positive sizes. */
  predicate Scalable(row: seq<Size>)
  {
    |row| > 0 &&
    forall j :: 0 <= j < |row| ==> 0.0 < row[j].width && 0.0 < row[j].height
  }

  /** Left-to-right sum, as `Array.prototype.reduce` with `acc + x` from 0. */
  function Sum(xs: seq<real>): real
  {
    if xs == [] then 0.0 else Sum(xs[..|xs| - 1]) + xs[|xs| - 1]
  }

  function Widths(row: seq<Size>): seq<real>
  {
    seq(|row|, j requires 0 <= j < |row| => row[j].width)
  }

  /** `sizes`: every image scaled to the first image's height. */
  function NominalSizes(row: seq<Size>): (sizes: seq<Size>)
    requires Scalable(row)
    ensures |sizes| == |row| && sizes[0] == row[0]
    ensures forall j :: 0 <= j < |row| ==> sizes[j].height == row[0].height
  {
    [Size(row[0].width, row[0].height)] +
    seq(|row| - 1, j requires 0 <= j < |row| - 1 =>
          Size((row[0].height * row[j + 1].width) / row[j + 1].height, row[0].height))
  }

  /** `totalWidth`: the nominal width less the gaps between images. */
  function TotalWidth(row: seq<Size>): real
    requires Scalable(row)
  {
    Sum(Widths(NominalSizes(row))) - (|row| - 1) as real * ImageSeparationWidth
  }

  /** `newHeight`: the common height at which the row fills `RowMaxWidth`. */
  function NewHeight(row: seq<Size>): (h: real)
    requires Scalable(row)
    ensures 0.0 < h
  {
    TotalWidthPositive(row);
    (row[0].height * RowMaxWidth) / TotalWidth(row)
  }

  /** One image scaled to height `h`, keeping its aspect ratio. */
  function ScaleSize(s: Size, h: real): (r: Size)
    requires 0.0 < s.width && 0.0 < s.height && 0.0 < h
    ensures r.height == h && 0.0 < r.width
    ensures r.width == h * AspectRatio(s)
  {
    MulDivAssoc(h, s.width, s.height);
    Size(ScaledWidth(s.width, s.height, h), h)
  }

  /** Every image of a row scaled to the common height `h`. */
  function ScaleTo(row: seq<Size>, h: real): (scaled: seq<Size>)
    requires Scalable(row) && 0.0 < h
    ensures |scaled| == |row|
    ensures forall j :: 0 <= j < |row| ==>
              scaled[j].height == h && scaled[j].width == h * AspectRatio(row[j])
  {
    seq(|row|, j requires 0 <= j < |row| => ScaleSize(row[j], h))
  }

  /** The sizes `addImageRowToDom` gives the images of a row. */
  function ScaleRow(row: seq<Size>): (scaled: seq<Size>)
    requires Scalable(row)
    ensures |scaled| == |row| && Scalable(scaled)
    ensures forall j :: 0 <= j < |row| ==> scaled[j].height == NewHeight(row)
    ensures forall j :: 0 <= j < |row| ==>
              scaled[j].width == scaled[j].height * AspectRatio(row[j])
  {
    ScaleTo(row, NewHeight(row))
  }

  lemma MulCancel(x: real, y: real, c: real)
    requires c != 0.0 && x * c == y * c
    ensures x == y
  {
    assert (x - y) * c == 0.0;
  }

  lemma MulDivAssoc(a: real, b: real, c: real)
    requires c != 0.0
    ensures (b * a) / c == a * (b / c)
  {
    assert ((b * a) / c) * c == a * b;
    assert (a * (b / c)) * c == a * ((b / c) * c);
    MulCancel((b * a) / c, a * (b / c), c);
  }

  lemma NominalSizeAt(row: seq<Size>, i: nat)
    requires Scalable(row) && 0 < i < |row|
    ensures NominalSizes(row)[0] == row[0]
    ensures NominalSizes(row)[i] == Size((row[0].height * row[i].width) / row[i].height, row[0].height)
  {
  }

  /** Every nominal width is the first image's height times the image's aspect ratio. */
  lemma NominalWidths(row: seq<Size>)
    requires Scalable(row)
    ensures forall j :: 0 <= j < |row| ==>
              Widths(NominalSizes(row))[j] == row[0].height * AspectRatio(row[j])
  {
    var sizes, h0 := NominalSizes(row), row[0].height;
    forall j | 0 <= j < |row|
      ensures Widths(sizes)[j] == h0 * AspectRatio(row[j])
    {
      if j == 0 {
        assert (row[0].width / h0) * h0 == row[0].width;
      } else {
        assert h0 * row[j].width == row[j].width * h0;
        MulDivAssoc(h0, row[j].width, row[j].height);
      }
    }
  }

  lemma {:induction false} SumPositive(xs: seq<real>)
    requires |xs| > 0
    requires forall j :: 0 <= j < |xs| ==> 0.0 < xs[j]
    ensures 0.0 < Sum(xs)
  {
    var n := |xs| - 1;
    if n > 0 {
      SumPositive(xs[..n]);
    }
  }

  /** Every element of `ys` multiplied by `c`. */
  function Times(c: real, ys: seq<real>): (xs: seq<real>)
    ensures |xs| == |ys|
  {
    seq(|ys|, j requires 0 <= j < |ys| => c * ys[j])
  }

  lemma {:induction false} SumTimes(c: real, ys: seq<real>)
    ensures Sum(Times(c, ys)) == c * Sum(ys)
  {
    if ys != [] {
      var n := |ys| - 1;
      SumTimes(c, ys[..n]);
      assert Times(c, ys)[..n] == Times(c, ys[..n]) by {
        forall j | 0 <= j < n ensures Times(c, ys)[j] == Times(c, ys[..n])[j] { }
      }
    }
  }

  function Ratios(row: seq<Size>): (rs: seq<real>)
    requires Scalable(row)
    ensures |rs| == |row|
    ensures forall j :: 0 <= j < |row| ==> 0.0 < rs[j]
  {
    seq(|row|, j requires 0 <= j < |row| => AspectRatio(row[j]))
  }

  lemma NominalWidthsAreRatios(row: seq<Size>)
    requires Scalable(row)
    ensures Widths(NominalSizes(row)) == Times(row[0].height, Ratios(row))
  {
    NominalWidths(row);
    var ws, ts := Widths(NominalSizes(row)), Times(row[0].height, Ratios(row));
    forall j | 0 <= j < |row| ensures ws[j] == ts[j] { }
  }

  lemma TotalWidthIsRatioSum(row: seq<Size>)
    requires Scalable(row)
    ensures TotalWidth(row) == row[0].height * Sum(Ratios(row))
  {
    NominalWidthsAreRatios(row);
    SumTimes(row[0].height, Ratios(row));
    assert (|row| - 1) as real * ImageSeparationWidth == 0.0;
  }

  lemma TotalWidthPositive(row: seq<Size>)
    requires Scalable(row)
    ensures 0.0 < TotalWidth(row)
  {
    TotalWidthIsRatioSum(row);
    SumPositive(Ratios(row));
  }

  lemma ScaledWidthsAreRatios(row: seq<Size>, h: real)
    requires Scalable(row) && 0.0 < h
    ensures Widths(ScaleTo(row, h)) == Times(h, Ratios(row))
  {
    var ws, ts := Widths(ScaleTo(row, h)), Times(h, Ratios(row));
    forall j | 0 <= j < |row| ensures ws[j] == ts[j] { }
  }

  lemma ScaledSum(row: seq<Size>, h: real)
    requires Scalable(row) && 0.0 < h
    ensures Sum(Widths(ScaleTo(row, h))) == h * Sum(Ratios(row))
  {
    ScaledWidthsAreRatios(row, h);
    SumTimes(h, Ratios(row));
  }

  lemma NewHeightFills(row: seq<Size>)
    requires Scalable(row)
    ensures NewHeight(row) * Sum(Ratios(row)) == RowMaxWidth
  {
    var rs := Ratios(row);
    TotalWidthIsRatioSum(row);
    SumPositive(rs);
    CommonHeightFills(NewHeight(row) * Sum(rs), row[0].height, Sum(rs), TotalWidth(row), NewHeight(row));
  }

  /** With no gaps, the scaled images of a row are exactly `RowMaxWidth` wide together. */
  lemma ScaleRowFillsRow(row: seq<Size>)
    requires Scalable(row)
    ensures Sum(Widths(ScaleRow(row))) == RowMaxWidth
  {
    var h := NewHeight(row);
    assert ScaleRow(row) == ScaleTo(row, h);
    ScaledSum(row, h);
    NewHeightFills(row);
  }

  /**
   * The height `h0 * W / total` with `total == h0 * s` times `s` gives back
   * the width `W`.
   */
  lemma CommonHeightFills(width: real, h0: real, s: real, total: real, h: real)
    requires 0.0 < h0 && 0.0 < s && total == h0 * s
    requires h == (h0 * RowMaxWidth) / total
    requires width == h * s
    ensures width == RowMaxWidth
  {
    assert h * (h0 * s) == h0 * RowMaxWidth;
    assert h0 * (h * s) == h0 * RowMaxWidth;
  }

  /** A row holding one image makes it `RowMaxWidth` wide at its own aspect ratio. */
  lemma ScaleSingleImage(s: Size)
    requires 0.0 < s.width && 0.0 < s.height
    ensures ScaleRow([s]) == [Size(RowMaxWidth, RowMaxWidth * s.height / s.width)]
  {
    ScaleRowFillsRow([s]);
    var r := ScaleRow([s]);
    assert Widths(r) == [r[0].width];
    assert Sum([r[0].width]) == r[0].width;
    var h := NewHeight([s]);
    assert RowMaxWidth == h * (s.width / s.height);
    assert h * s.width == RowMaxWidth * s.height;
  }

  /** Two images 800x600 and 800x400 share height 240 and widths 320 and 480. */
  lemma ScaleRowExample()
    ensures ScaleRow([Size(800.0, 600.0), Size(800.0, 400.0)])
         == [Size(320.0, 240.0), Size(480.0, 240.0)]
  {
    var row := [Size(800.0, 600.0), Size(800.0, 400.0)];
    assert NominalSizes(row) == [Size(800.0, 600.0), Size(1200.0, 600.0)];
    assert Widths(NominalSizes(row)) == [800.0, 1200.0];
    assert Sum([800.0, 1200.0]) == 2000.0 by {
      assert [800.0, 1200.0][..1] == [800.0];
      assert Sum([800.0]) == 800.0;
    }
    assert NewHeight(row) == 240.0;
  }
}
