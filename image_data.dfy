/**
 * The `imgData` record the load handler attaches to an image once the
 * browser knows its natural size, and `addImageRowToDom`, which rewrites
 * the width and height of every record of a row in place.
 */
module ImageData {
  import opened CellWeights
  import opened RowScaler

  class ImgData {
    /** Position of the image in the page's image list. */
    const pageIndex: nat
    /** Natural width over natural height; never rewritten. */
    const aspectRatio: real
    /** Row cells the image takes, from `calculateCells`. */
    const numberOfCells: real
    /** Natural size until the row is laid out, then the rendered size. */
    var width: real
    var height: real

    /**
     * Positive dimensions in the image's own aspect ratio, and the cell count
     * of that ratio.
     */
    ghost predicate Valid()
      reads this
    {
      0.0 < width && 0.0 < height && width == aspectRatio * height &&
      numberOfCells == CalculateCells(aspectRatio)
    }

    /** The record the load handler builds from the image's natural size. */
    constructor Load(pageIndex: nat, naturalWidth: nat, naturalHeight: nat)
      requires 0 < naturalWidth && 0 < naturalHeight
      ensures Valid()
      ensures this.pageIndex == pageIndex
      ensures width == naturalWidth as real && height == naturalHeight as real
      ensures aspectRatio == naturalWidth as real / naturalHeight as real
    {
      this.pageIndex := pageIndex;
      aspectRatio := naturalWidth as real / naturalHeight as real;
      numberOfCells := CalculateCells(naturalWidth as real / naturalHeight as real);
      width := naturalWidth as real;
      height := naturalHeight as real;
    }
  }

  /** The current sizes of a row of records. */
  function Sizes(row: seq<ImgData>): (sizes: seq<Size>)
    reads row
  {
    seq(|row|, j reads row requires 0 <= j < |row| => Size(row[j].width, row[j].height))
  }

  ghost predicate AllValid(row: seq<ImgData>)
    reads row
  {
    forall j :: 0 <= j < |row| ==> row[j].Valid()
  }

  lemma ValidScalable(row: seq<ImgData>)
    requires |row| > 0 && AllValid(row)
    ensures Scalable(Sizes(row))
  {
  }

  /** The first loop of `addImageRowToDom`: every image scaled to the first image's height. */
  method ScaleToFirstHeight(row: seq<ImgData>) returns (sizes: seq<Size>)
    requires |row| > 0 && AllValid(row)
    ensures Scalable(Sizes(row)) && sizes == NominalSizes(Sizes(row))
  {
    ghost var before := Sizes(row);
    ValidScalable(row);
    var a := row[0];
    sizes := [Size(a.width, a.height)];
    ghost var nominal := NominalSizes(before);
    assert sizes == nominal[..1];
    for i := 1 to |row|
      invariant sizes == nominal[..i]
    {
      var b := row[i];
      NominalSizeAt(before, i);
      assert a.height == before[0].height && b.width == before[i].width && b.height == before[i].height;
      assert nominal[..i + 1] == nominal[..i] + [nominal[i]];
      var scaledToFirst := Size((a.height * b.width) / b.height, a.height);
      assert scaledToFirst == nominal[i];
      sizes := sizes + [scaledToFirst];
    }
    assert sizes == nominal;
  }

  /** One record of the second loop rewritten to height `newHeight`, keeping its aspect ratio. */
  method Resize(image: ImgData, newHeight: real)
    requires image.Valid() && 0.0 < newHeight
    modifies image
    ensures image.Valid()
    ensures Size(image.width, image.height) == ScaleSize(old(Size(image.width, image.height)), newHeight)
  {
    ghost var w, h := image.width, image.height;
    image.width := (image.width * newHeight) / image.height;
    image.height := newHeight;
    MulDivAssoc(newHeight, w, h);
  }

  /** The second loop of `addImageRowToDom`: every record rewritten to height `newHeight`. */
  method ResizeRow(row: seq<ImgData>, newHeight: real)
    requires |row| > 0 && AllValid(row) && 0.0 < newHeight
    requires forall j, k :: 0 <= j < k < |row| ==> row[j] != row[k]
    modifies row
    ensures AllValid(row)
    ensures Scalable(old(Sizes(row))) && Sizes(row) == ScaleTo(old(Sizes(row)), newHeight)
  {
    ghost var before := Sizes(row);
    ValidScalable(row);
    ghost var scaled := ScaleTo(before, newHeight);
    for j := 0 to |row|
      invariant forall m :: 0 <= m < j ==> Size(row[m].width, row[m].height) == scaled[m]
      invariant forall m :: j <= m < |row| ==> Size(row[m].width, row[m].height) == before[m]
      invariant AllValid(row)
    {
      var image := row[j];
      assert Size(image.width, image.height) == before[j];
      assert scaled[j] == ScaleSize(before[j], newHeight);
      assert forall m :: 0 <= m < |row| && m != j ==> row[m] != image;
      Resize(image, newHeight);
    }
    assert forall m :: 0 <= m < |row| ==> Sizes(row)[m] == scaled[m];
  }

  /**
   * `addImageRowToDom`: scales every image of the row to the first image's
   * height, solves for the height at which the row is `RowMaxWidth` wide and
   * rewrites each record's width and height.
   */
  method AddImageRowToDom(row: seq<ImgData>)
    requires |row| > 0 && AllValid(row)
    requires forall j, k :: 0 <= j < k < |row| ==> row[j] != row[k]
    modifies row
    ensures AllValid(row)
    ensures Scalable(old(Sizes(row))) && Sizes(row) == ScaleRow(old(Sizes(row)))
  {
    ghost var before := Sizes(row);
    var sizes := ScaleToFirstHeight(row);
    // `sizes.reduce` summing the widths from 0, left to right.
    var nominalWidth := Sum(Widths(sizes));
    var totalWidth := nominalWidth - (|row| - 1) as real * ImageSeparationWidth;
    TotalWidthPositive(before);
    var a := row[0];
    assert a.height == before[0].height;
    var newHeight := (a.height * RowMaxWidth) / totalWidth;
    assert newHeight == NewHeight(before);
    ResizeRow(row, newHeight);
    assert ScaleRow(before) == ScaleTo(before, newHeight);
  }
}
