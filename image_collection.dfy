/**
 * The row processor that runs over the sparse buffer each time an image
 * finishes loading: `processRow` packs rows from the first image not yet
 * laid out up to the first empty slot, lays out every row it closes, and
 * says where to start next time.
 */
module ImageCollection {
  import opened Wrappers
  import opened CellWeights
  import opened ImageData
  import opened RowPacker
  import opened LoadBuffer

  /**
   * `addImageRowToDom` on the run of loaded images at positions `a` to `b`:
   * the run is laid out as one row, and the rows `done` laid out before,
   * all of earlier images, stay as they are.
   */
  method LayOutRun(images: array<Option<ImgData>>, row: seq<ImgData>, ghost a: nat, ghost b: nat,
                   ghost done: seq<seq<ImgData>>, ghost lo: nat, ghost objs: set<ImgData>,
                   ghost slots: seq<Option<ImgData>>)
    requires Slotted(images, objs) && images[..] == slots
    requires a < b <= |slots| && forall j :: a <= j < b ==> slots[j].Some?
    requires row == Loaded(slots[a..b])
    requires lo <= a && LaidOut(done, lo, a, objs)
    modifies objs
    ensures Slotted(images, objs)
    ensures LaidOut(done + [row], lo, b, objs)
    ensures forall o :: o in objs && o !in row ==> o.width == old(o.width) && o.height == old(o.height)
    ensures forall o :: o in objs && !(a <= o.pageIndex < b) ==>
      o.width == old(o.width) && o.height == old(o.height)
  {
    LoadedAt(slots, a, b);
    assert forall j :: 0 <= j < |slots| ==> images[j] == slots[j];
    assert forall m :: 0 <= m < |row| ==> row[m] in objs && row[m].pageIndex == a + m;
    forall k, m | 0 <= k < |done| && 0 <= m < |done[k]| ensures done[k][m] !in row {
    }
    ghost var pre := Sizes(row);
    AddImageRowToDom(row);
    ScaledRowFitted(row, pre);
    forall j | 0 <= j < images.Length && images[j].Some?
      ensures images[j].value in objs && images[j].value.pageIndex == j && images[j].value.Valid()
    {
      if a <= j < b {
        assert images[j].value == row[j - a];
      }
    }
    LaidOutSnoc(done, row, lo, a, b, objs);
  }

  /**
   * `processRow`: packs the loaded run from `startIndex`, lays out each row
   * as soon as the next image shows it full, and lays out the last row too
   * once the run reaches the end of the page.
   */
  method ProcessRow(images: array<Option<ImgData>>, startIndex: Option<nat>, ghost objs: set<ImgData>)
      returns (next: Option<nat>, ghost rows: seq<seq<ImgData>>)
    requires Slotted(images, objs)
    modifies objs
    ensures images[..] == old(images[..])
    ensures Slotted(images, objs)
    ensures startIndex.None? ==> next.None? && rows == []
    ensures startIndex.Some? && images.Length < startIndex.value ==> next == startIndex && rows == []
    ensures startIndex.Some? && startIndex.value <= images.Length ==>
      ProcessedFrom(images[..], startIndex.value, next, rows)
    ensures startIndex.Some? ==>
      LaidOut(rows, startIndex.value, startIndex.value + |Flatten(rows)|, objs)
    ensures startIndex.Some? ==> forall o ::
      o in objs && !(startIndex.value <= o.pageIndex < startIndex.value + |Flatten(rows)|)
      ==> o.width == old(o.width) && o.height == old(o.height)
    ensures startIndex.None? ==> forall o :: o in objs ==>
      o.width == old(o.width) && o.height == old(o.height)
  {
    // Comparing `undefined` with the buffer length is false: the loop does not run.
    if startIndex.None? {
      return None, [];
    }
    var start := startIndex.value;
    if images.Length < start {
      return startIndex, [];
    }
    var nextIndex: nat := start;
    var rowCells := 0.0;
    var row: seq<ImgData> := [];
    rows := [];
    var i: nat := start;
    ghost var slots := images[..];
    PackedStart(slots, start);
    while i <= images.Length
      invariant images[..] == slots
      invariant PackedUpTo(slots, start, i, nextIndex, rows, row, rowCells)
      invariant Slotted(images, objs)
      invariant LaidOut(rows, start, nextIndex, objs)
      invariant forall o :: o in objs && !(start <= o.pageIndex < nextIndex) ==>
        o.width == old(o.width) && o.height == old(o.height)
      decreases images.Length - i
    {
      if images.Length <= i {
        if 0 < |row| {
          FinishedAtEnd(slots, start, nextIndex, rows, row, rowCells);
          LayOutRun(images, row, nextIndex, i, rows, start, objs, slots);
          rows := rows + [row];
          return None, rows;
        }
      }
      // `images[length]` is undefined, like an empty slot.
      if i == images.Length || images[i].None? {
        break;
      }
      var image := images[i].value;
      PackedStep(slots, start, i, nextIndex, rows, row, rowCells);
      if MaxCellsPerRow < rowCells + image.numberOfCells {
        LayOutRun(images, row, nextIndex, i, rows, start, objs, slots);
        rows := rows + [row];
        nextIndex := nextIndex + |row|;
        row := [];
        rowCells := 0.0;
      }
      row := row + [image];
      rowCells := rowCells + image.numberOfCells;
      i := i + 1;
    }
    StoppedAtHole(slots, start, i, nextIndex, rows, row, rowCells);
    return Some(nextIndex), rows;
  }

  /**
   * The second half of the load callback, `processIndex = processRow(...)`
   * after slot `i` has been filled with `image`: the page's progress is kept,
   * and every row handed to the page by this call fills the page width.
   */
  method Advance(images: array<Option<ImgData>>, index: Option<nat>, ghost objs: set<ImgData>,
                 ghost emitted: seq<seq<ImgData>>, ghost s0: seq<Option<ImgData>>, ghost i: nat,
                 ghost image: ImgData)
      returns (next: Option<nat>, ghost rows: seq<seq<ImgData>>)
    requires SlotsInRange(s0) && Progress(s0, index, emitted)
    requires i < |s0| && s0[i].None? && images[..] == s0[i := Some(image)]
    requires Slotted(images, objs)
    modifies objs
    ensures images[..] == old(images[..])
    ensures Slotted(images, objs)
    ensures Progress(images[..], next, emitted + rows)
    ensures AllFitted(rows)
    ensures forall o :: o in objs && !(index.value <= o.pageIndex < index.value + |Flatten(rows)|) ==>
      o.width == old(o.width) && o.height == old(o.height)
  {
    ProgressPending(s0, index, emitted, i);
    ghost var p := index.value;
    ghost var s1 := images[..];
    next, rows := ProcessRow(images, index, objs);
    LoadStep(s0, s1, i, image, emitted, p, next, rows);
  }

  /**
   * The state `createPageImageCollectionElements` keeps for one page: the
   * sparse buffer `loaded` of images that have finished loading, and the
   * index `processIndex` the row processor goes on from.
   */
  class PageCollection {
    const loaded: array<Option<ImgData>>
    var processIndex: Option<nat>
    /** The rows handed to the page so far, in order. */
    ghost var emitted: seq<seq<ImgData>>
    /** The records of the images loaded so far. */
    ghost var objs: set<ImgData>

    /**
     * Every loaded image sits at its own page position, and the rows laid
     * out are those the greedy pass closes over the loaded front of the
     * page (all of them once the page is complete).
     */
    ghost predicate Valid()
      reads this, loaded, objs
    {
      Slotted(loaded, objs) &&
      Progress(loaded[..], processIndex, emitted)
    }

    /** A page of `length` images, none of them loaded yet. */
    constructor (length: nat)
      ensures Valid()
      ensures fresh(loaded) && loaded.Length == length
      ensures forall j :: 0 <= j < length ==> loaded[j].None?
      ensures processIndex == Some(0) && emitted == []
    {
      loaded := new Option<ImgData>[length](_ => None);
      processIndex := Some(0);
      emitted := [];
      objs := {};
      new;
      assert loaded[..][..FirstHole(loaded[..])] == [];
    }

    /**
     * The first half of the load callback: the record the load handler
     * builds from the image's natural size, stored in its slot of the buffer.
     */
    method StoreImage(pageIndex: nat, naturalWidth: nat, naturalHeight: nat) returns (image: ImgData)
      requires Valid()
      requires pageIndex < loaded.Length && loaded[pageIndex].None?
      requires 0 < naturalWidth && 0 < naturalHeight
      modifies loaded
      ensures fresh(image) && image.pageIndex == pageIndex
      ensures image.width == naturalWidth as real && image.height == naturalHeight as real
      ensures image.aspectRatio == naturalWidth as real / naturalHeight as real
      ensures loaded[..] == old(loaded[..])[pageIndex := Some(image)]
      ensures Slotted(loaded, objs + {image})
    {
      image := new ImgData.Load(pageIndex, naturalWidth, naturalHeight);
      loaded[pageIndex] := Some(image);
    }

    /**
     * The load callback for the image at `pageIndex`: stores its record in
     * the buffer and runs the row processor from `processIndex`, which lays
     * out every row the longer loaded front now closes.
     */
    method OnImageLoaded(pageIndex: nat, naturalWidth: nat, naturalHeight: nat)
      requires Valid()
      requires pageIndex < loaded.Length && loaded[pageIndex].None?
      requires 0 < naturalWidth && 0 < naturalHeight
      modifies this, loaded, objs
      ensures Valid()
      ensures loaded[pageIndex].Some? && fresh(loaded[pageIndex].value)
      ensures loaded[pageIndex].value.aspectRatio == naturalWidth as real / naturalHeight as real
      ensures loaded[..] == old(loaded[..])[pageIndex := loaded[pageIndex]]
      ensures old(emitted) <= emitted
    {
      ghost var s0 := loaded[..];
      SlottedInRange(loaded, objs);
      ghost var before := emitted;
      var image := StoreImage(pageIndex, naturalWidth, naturalHeight);
      ghost var records := objs + {image};
      var next;
      ghost var rows;
      next, rows := Advance(loaded, processIndex, records, before, s0, pageIndex, image);
      objs, emitted, processIndex := records, before + rows, next;
    }
  }
}
