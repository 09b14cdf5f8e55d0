/**
 * How many of a row's six cells an image takes, by its aspect ratio
 * (width divided by height).  Landscape images cost more of a row than
 * portrait ones; the thresholds are compared strictly.
 */
module CellWeights {

  /** 16:9, the widest class boundary. */
  const ArSixteenNine: real := 16.0 / 9.0
  /** 3:2, the middle class boundary. */
  const ArThreeTwo: real := 3.0 / 2.0
  /** Capacity of one row, in cells. */
  const MaxCellsPerRow: real := 6.0

  /** `calculateCells`: the cost of an image with the given aspect ratio. */
  function CalculateCells(aspectRatio: real): (cells: real)
    ensures cells == 1.0 || cells == 2.5 || cells == 3.0 || cells == 6.0
    ensures 0.0 < cells <= MaxCellsPerRow
  {
    if ArSixteenNine < aspectRatio then 6.0
    else if ArThreeTwo < aspectRatio then 3.0
    else if 1.0 < aspectRatio then 2.5
    else 1.0
  }

  /** Each cost belongs to exactly one band of aspect ratios, open at the bottom. */
  lemma CellsBands(aspectRatio: real)
    ensures CalculateCells(aspectRatio) == 6.0 <==> ArSixteenNine < aspectRatio
    ensures CalculateCells(aspectRatio) == 3.0 <==> ArThreeTwo < aspectRatio <= ArSixteenNine
    ensures CalculateCells(aspectRatio) == 2.5 <==> 1.0 < aspectRatio <= ArThreeTwo
    ensures CalculateCells(aspectRatio) == 1.0 <==> aspectRatio <= 1.0
  {
  }

  /** A ratio exactly on a boundary falls into the cheaper class. */
  lemma CellsAtBoundaries()
    ensures CalculateCells(16.0 / 9.0) == 3.0
    ensures CalculateCells(3.0 / 2.0) == 2.5
    ensures CalculateCells(1.0) == 1.0
  {
  }

  /** A wider image never costs fewer cells. */
  lemma CellsMonotone(r1: real, r2: real)
    requires r1 <= r2
    ensures CalculateCells(r1) <= CalculateCells(r2)
  {
  }
}
