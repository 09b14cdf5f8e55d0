# Brick-wall gallery layout

This project models the layout logic of the gallery page script `app.js`
and proves its properties. Images load one by one, in any order. Each one
is weighed by its aspect ratio into a number of row cells
(`calculateCells`). The page packs the loaded images into rows of at most
six cells, in page order (`processRow`). It does this incrementally,
through a sparse buffer of loaded images and a `processIndex` kept between
load callbacks. Each row that is complete is scaled to one common height,
so that it is exactly 800 pixels wide (`addImageRowToDom`).

Modules, one per file:

- `CellWeights` (`cell_weights.dfy`): the cell weights, as pure functions.
- `RowScaler` (`row_scaler.dfy`): the arithmetic of the justified row over
  exact reals (`Size`, `NominalSizes`, `NewHeight`, `ScaleRow`).
- `ImageData` (`image_data.dfy`): the `imgData` record as a class whose
  `width` and `height` are rewritten in place. Also holds the in-place
  `AddImageRowToDom` with its two loops.
- `RowPacker` (`row_packer.dfy`): the greedy packing rule as a fold.
  - `Step` is one loop iteration; `Scan` packs from an empty page;
    `GreedyRows` is the one-shot pass.
  - `IsGreedyPartition` is an independent, declarative statement of what
    a packing promises.
  - Proved: the fold meets `IsGreedyPartition`, and it is the only
    packing that does.
- `LoadBuffer` (`load_buffer.dfy`): the sparse buffer as
  `seq<Option<ImgData>>`.
  - `FirstHole` is its loaded front; `ProcessedFrom` says what one
    `processRow` call computes.
  - `Progress` is the invariant the page keeps across load callbacks.
  - It also holds the lemmas for each loop step and each callback.
- `ImageCollection` (`image_collection.dfy`):
  - `ProcessRow`, a method with the source's loop over an `array`;
  - the class `PageCollection`, which holds the buffer `loaded` and
    `processIndex`; its method `OnImageLoaded` is the load callback.

In the model, the value `undefined` is `None` (`Option`). It appears in
two places:

- In the buffer, `None` is a slot whose image has not loaded yet.
- As a `processIndex`, `None` is the value of the bare `return;` that
  `processRow` executes once it has laid out the last row of the page.
  - A later call with that index runs no iteration. In JavaScript,
    `undefined <= length` is false.
  - Reading `images[images.length]` gives `undefined`, which ends the
    loop like an empty slot.

Cell weights are the exact reals 1, 2.5, 3 and 6, and the thresholds are
the exact reals 16/9 and 3/2. The row capacity is 6, the row width 800 and
the separation width 0.

Two points where the model follows the code closely:

- **The return value.** The JSDoc of `processRow` (app.js:304) declares
  `@returns {number}`. After laying out the last row, the code returns
  `undefined`, and so does the model.
- **No row is closed empty.** No image weighs more than a row:
  `CalculateCells` never exceeds 6. So the overflow test never fires while
  the open row is empty; `PackedClose` proves `nextIndex < i` there.

## Model

| member | source | states |
|---|---|---|
| CellWeights.CalculateCells | app.js:130-145 | the weight is one of 1, 2.5, 3, 6, and lies in (0, 6] |
| CellWeights.CellsBands | app.js:130-145 | each weight holds exactly on its band of ratios, compared strictly: 6 iff r > 16/9; 3 iff 3/2 < r <= 16/9; 2.5 iff 1 < r <= 3/2; 1 iff r <= 1 |
| CellWeights.CellsAtBoundaries | app.js:41-42 | ratios exactly 16/9, 3/2 and 1 fall into the cheaper class: 3, 2.5 and 1 |
| CellWeights.CellsMonotone | app.js:130-145 | a wider image never costs fewer cells |
| RowScaler.NominalSizes | app.js:60-67 | the first size is the first image's own; every size has the first image's height |
| RowScaler.NominalWidths | app.js:60-67 | each image scaled to the first image's height is that height times its aspect ratio wide |
| RowScaler.TotalWidthIsRatioSum | app.js:69-76 | with no separation, the total width is the first height times the sum of the aspect ratios |
| RowScaler.TotalWidthPositive | app.js:76-77 | the total width is positive, so the new height is defined |
| RowScaler.NewHeight | app.js:77 | the common height is positive |
| RowScaler.NewHeightFills | app.js:77 | the common height times the sum of aspect ratios is exactly the row width 800 |
| RowScaler.ScaleSize | app.js:83-84 | one image gets the given height and keeps its aspect ratio |
| RowScaler.ScaleTo | app.js:80-85 | every image of the row gets the given height and keeps its aspect ratio |
| RowScaler.ScaleRow | app.js:79-85 | every image gets the common height and keeps its aspect ratio |
| RowScaler.ScaleRowFillsRow | app.js:58-85 | the widths of a scaled row add up to exactly 800 |
| RowScaler.ScaleSingleImage | app.js:58-85 | a one-image row becomes 800 wide and 800 * height / width high |
| RowScaler.ScaleRowExample | app.js:58-85 | rows 800x600 and 800x400 become 320x240 and 480x240 |
| ImageData.ImgData.Load | app.js:248-254 | the record holds the natural size, its aspect ratio and the cell weight of that ratio |
| ImageData.ScaleToFirstHeight | app.js:60-67 | the push loop builds exactly the sizes scaled to the first image's height |
| ImageData.Resize | app.js:82-84 | one record is rewritten to the new height, with its aspect ratio kept, so it stays a valid record |
| ImageData.ResizeRow | app.js:80-87 | every record of the row, and nothing else, is rewritten to the new height |
| ImageData.AddImageRowToDom | app.js:58-88 | the records of the row end with exactly the sizes of `ScaleRow` of their old sizes |
| RowPacker.StepWellPacked | app.js:326-334 | one iteration keeps the closed rows non-empty, within 6 cells and each closed only for the next image |
| RowPacker.ScanWellPacked | app.js:326-334 | packing from an empty page gives well-formed rows and an open row exactly when there were images |
| RowPacker.ScanCovers | app.js:326-334 | closed rows and the open row are exactly the images packed, in order, each once |
| RowPacker.GreedyRowsIsGreedyPartition | app.js:306-338 | the one-shot pass covers the images in order, with no empty or over-capacity row and no row closed early |
| RowPacker.GreedyPartitionUnique | app.js:326-334 | any packing with those properties is the one-shot greedy pass |
| RowPacker.ResumeFits | app.js:326-334 | images that fit all join the open row; a sum of exactly 6 still fits |
| RowPacker.ScanRestart | app.js:307-337 | packing on from the first image not yet laid out gives the same rows as one pass from the start |
| RowPacker.PackExampleSteps | app.js:326-334 | on weights 6, 2.5, 1: the first image opens a row it fills exactly, the second closes that row, the third joins the second |
| RowPacker.PackExample | app.js:326-334 | weights 6, 2.5, 1 pack as rows [6] and [2.5, 1] |
| LoadBuffer.FirstHole | app.js:320-324 | the loaded front ends at the first empty slot or the end of the page |
| LoadBuffer.RunEnd | app.js:320-324 | the run scanned from an index ends at the first empty slot after it |
| LoadBuffer.PackedStep | app.js:326-334 | one loop iteration keeps the loop state equal to the greedy pass over the images scanned so far |
| LoadBuffer.FinishedAtEnd | app.js:313-317 | reaching the end of the page with a row open lays out every row, the last one too, and returns no index |
| LoadBuffer.StoppedAtHole | app.js:320-337 | stopping at an empty slot returns the index after the closed rows and leaves the open row unlaid |
| LoadBuffer.ProcessedCovers | app.js:306-338 | one call's rows are greedy and cover the loaded images from the start index in order, up to the returned index (between the start and the first hole) or to the end of the page |
| LoadBuffer.ProcessAgainIdle | app.js:306-338 | calling again from the returned index with no new image lays out nothing and returns the same index |
| LoadBuffer.LoadStep | app.js:293-296 | storing an image and running the processor keeps the page's progress invariant |
| LoadBuffer.AllLoaded | app.js:282-296 | once every image of a non-empty page has loaded, the index is undefined and the rows laid out are the one-shot greedy pass, whatever the load order |
| LoadBuffer.ScaledRowFitted | app.js:58-85 | a row scaled by the scaler has one common height and is 800 wide |
| ImageCollection.LayOutRun | app.js:313-328 | laying out a run of loaded images keeps every earlier row fitted and makes the run a fitted row of later images, each image keeping its own aspect ratio; no record outside the run, and none at a page position outside it, changes size |
| ImageCollection.ProcessRow | app.js:306-338 | the loop computes exactly `ProcessedFrom`, covers an undefined or out-of-range start, and lays out every row it hands on, each image keeping its own aspect ratio; every record at a page position outside the rows it hands on, the open row's included, keeps its size |
| ImageCollection.Advance | app.js:295 | running the processor after a load keeps the progress invariant, lays out each new row to the page width, each image keeping its own aspect ratio, and changes the size of no record outside those rows' positions |
| ImageCollection.PageCollection.constructor | app.js:282-286 | an empty buffer of the page's length and index 0 |
| ImageCollection.PageCollection.StoreImage | app.js:294 | the load handler's record (built as `ImgData.Load` does, app.js:248-256) keeps the natural size and is stored at its own page position and nowhere else |
| ImageCollection.PageCollection.OnImageLoaded | app.js:293-296 | the callback stores the image, keeps the progress invariant and only adds rows |

The rows above are about these definitions, which carry no contract of
their own:

- `RowScaler.Sum` is the `reduce` over the widths (app.js:70-72).
- `RowScaler.TotalWidth` is the total width less the separations
  (app.js:76).
- `RowPacker.Step` is one iteration of the packing loop (app.js:326-334).
- `RowPacker.Scan` and `RowPacker.GreedyRows` are the packing loop run
  over a whole sequence of images (app.js:306-338).
- `LoadBuffer.ProcessedFrom` is what one `processRow` call computes
  (app.js:306-338).
- `LoadBuffer.Progress` is the state the load callbacks keep between
  them (app.js:282-296).

## Left out

- The DOM is not modelled: creating elements, image cells, `setInnerText`
  and `addImageToDom`. A laid-out row is its records' final sizes. The
  `img` element paired with each record is not modelled.
- Asynchronous loading is not modelled. Each load is a call to
  `OnImageLoaded`, in any order. Listener removal after the first load is
  the precondition that the slot is still empty.
- `Math.round` of the rendered sizes is not modelled, and neither is IEEE-754
  double arithmetic. All arithmetic is on exact reals, so the row width
  800 holds exactly.
- Images with a zero natural width or height are excluded as malformed
  input. `ImgData.Load`, `StoreImage` and `OnImageLoaded` require both
  natural sizes to be positive. In the source, a zero height makes the
  aspect ratio Infinity (6 cells) and both sizes zero make it NaN (1
  cell). The scaler then divides by zero (app.js:66, app.js:83).
- ImageCollection.ProcessRow: the frame on sizes is stated by page
  position, not by record identity. Records at positions outside the rows
  it hands on keep their sizes. On a page each position holds one record,
  so the two readings agree there. `LayOutRun` also states the frame by
  identity, for one row.
- The static image metadata and main.js are not part of this model.
- ImageCollection.PageCollection.OnImageLoaded: the contract does not
  restate that the rows it adds fill the page width, or that earlier rows
  keep their sizes. `Advance` and `ProcessRow` state the first, for the
  rows of each call.
- ImageCollection.ProcessRow: the contract states each laid-out row as
  fitted (one common height, 800 wide, every image in its own aspect
  ratio), not as the exact sizes `ScaleRow` gives. These two statements fix
  the same sizes, since one common height and the ratios determine the row.
  `AddImageRowToDom` states the exact sizes.
- RowScaler.TotalWidth: the separation width is the source's constant 0.
  Other separation widths are not modelled.
