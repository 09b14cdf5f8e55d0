/**
 * The page's sparse buffer of loaded images: a slot is `None` until the
 * image at that page position has loaded.  This module states what the row
 * processor computes over the buffer and proves each step of its loop.
 */
module LoadBuffer {
  import opened Wrappers
  import opened CellWeights
  import opened RowScaler
  import opened ImageData
  import opened RowPacker

  /** Length of the run of loaded slots at the front of `slots`. */
  function FirstHole(slots: seq<Option<ImgData>>): (h: nat)
    ensures h <= |slots|
    ensures forall j :: 0 <= j < h ==> slots[j].Some?
    ensures h < |slots| ==> slots[h].None?
  {
    if slots == [] || slots[0].None? then 0 else 1 + FirstHole(slots[1..])
  }

  /** The images of a run of loaded slots. */
  function Loaded(slots: seq<Option<ImgData>>): (items: seq<ImgData>)
    requires forall j :: 0 <= j < |slots| ==> slots[j].Some?
    ensures |items| == |slots|
  {
    seq(|slots|, j requires 0 <= j < |slots| => slots[j].value)
  }

  /**
   * Every loaded image is one of the records `objs`, sits at its own page
   * position and is well formed.
   */
  ghost predicate Slotted(images: array<Option<ImgData>>, objs: set<ImgData>)
    reads images, objs
  {
    forall j :: 0 <= j < images.Length && images[j].Some? ==>
      images[j].value in objs && images[j].value.pageIndex == j && images[j].value.Valid()
  }

  /** Rows laid out to the page width, on one common height. */
  ghost predicate Fitted(row: seq<ImgData>)
    reads row
  {
    |row| > 0 &&
    (forall j :: 0 <= j < |row| ==> row[j].height == row[0].height) &&
    Sum(Widths(Sizes(row))) == RowMaxWidth
  }

  /** Every row in `rows` fills the page width. */
  ghost predicate AllFitted(rows: seq<seq<ImgData>>)
    reads set k, m | 0 <= k < |rows| && 0 <= m < |rows[k]| :: rows[k][m]
  {
    forall k :: 0 <= k < |rows| ==> Fitted(rows[k])
  }

  /** Rows laid out from the images at page positions `lo` up to `hi`. */
  ghost predicate LaidOut(rows: seq<seq<ImgData>>, lo: nat, hi: nat, objs: set<ImgData>)
    reads objs
  {
    (forall k, m :: 0 <= k < |rows| && 0 <= m < |rows[k]| ==>
       rows[k][m] in objs && lo <= rows[k][m].pageIndex < hi) &&
    (forall k :: 0 <= k < |rows| ==> Fitted(rows[k]))
  }

  /** The first empty slot at or after `start`, or the end of the page. */
  function RunEnd(slots: seq<Option<ImgData>>, start: nat): (stop: nat)
    requires start <= |slots|
    ensures start <= stop <= |slots|
    ensures forall j :: start <= j < stop ==> slots[j].Some?
    ensures stop < |slots| ==> slots[stop].None?
  {
    start + FirstHole(slots[start..])
  }

  /**
   * What one `processRow` call from `start` hands to the page: the rows the
   * greedy pass closes over the loaded run starting at `start`, plus the last
   * row when that run reaches the end of the page (and then there is no next
   * index); otherwise the index of the first image not yet laid out.
   */
  ghost predicate ProcessedFrom(slots: seq<Option<ImgData>>, start: nat, next: Option<nat>,
                                rows: seq<seq<ImgData>>)
    requires start <= |slots|
  {
    var stop := RunEnd(slots, start);
    var items := Loaded(slots[start..stop]);
    var s := Scan(items);
    if stop == |slots| && s.open != [] then
      next == None && rows == GreedyRows(items)
    else
      next == Some(start + |Flatten(s.closed)|) && rows == s.closed
  }

  lemma FirstHoleIs(slots: seq<Option<ImgData>>, h: nat)
    requires h <= |slots|
    requires forall j :: 0 <= j < h ==> slots[j].Some?
    requires h < |slots| ==> slots[h].None?
    ensures FirstHole(slots) == h
  {
  }

  lemma LoadedAt(slots: seq<Option<ImgData>>, a: nat, b: nat)
    requires a <= b <= |slots| && forall j :: a <= j < b ==> slots[j].Some?
    ensures forall m :: 0 <= m < b - a ==> Loaded(slots[a..b])[m] == slots[a + m].value
  {
  }

  /** A row scaled by `addImageRowToDom` is fitted. */
  lemma ScaledRowFitted(row: seq<ImgData>, pre: seq<Size>)
    requires Scalable(pre) && Sizes(row) == ScaleRow(pre)
    ensures Fitted(row)
  {
    ScaleRowFillsRow(pre);
    assert forall j :: 0 <= j < |row| ==> row[j].height == Sizes(row)[j].height;
  }

  /** Appending a fitted row of later images keeps the rows laid out. */
  lemma LaidOutSnoc(done: seq<seq<ImgData>>, row: seq<ImgData>, lo: nat, a: nat, b: nat,
                    objs: set<ImgData>)
    requires lo <= a && LaidOut(done, lo, a, objs)
    requires Fitted(row)
    requires forall m :: 0 <= m < |row| ==> row[m] in objs && a <= row[m].pageIndex < b
    ensures LaidOut(done + [row], lo, b, objs)
  {
    var all := done + [row];
    forall k | 0 <= k < |all| ensures Fitted(all[k]) {
      if k < |done| {
        assert all[k] == done[k];
      }
    }
    forall k, m | 0 <= k < |all| && 0 <= m < |all[k]|
      ensures all[k][m] in objs && lo <= all[k][m].pageIndex < b
    {
      if k < |done| {
        assert all[k] == done[k];
      } else {
        assert all[k] == row;
      }
    }
  }

  /**
   * The state of the packing loop after the loaded images at positions
   * `start` up to `i`: the rows closed so far, the open row and its cells.
   */
  ghost predicate PackedUpTo(slots: seq<Option<ImgData>>, start: nat, i: nat, nextIndex: nat,
                             rows: seq<seq<ImgData>>, row: seq<ImgData>, rowCells: real)
  {
    start <= nextIndex <= i <= |slots| &&
    (forall j :: start <= j < i ==> slots[j].Some?) &&
    PackState(rows, row) == Scan(Loaded(slots[start..i])) &&
    nextIndex == start + |Flatten(rows)| &&
    row == Loaded(slots[nextIndex..i]) &&
    rowCells == RowCells(row)
  }

  lemma PackedStart(slots: seq<Option<ImgData>>, start: nat)
    requires start <= |slots|
    ensures PackedUpTo(slots, start, start, start, [], [], 0.0)
  {
  }

  lemma LoadedSeqSnoc(slots: seq<Option<ImgData>>, a: nat, b: nat)
    requires a <= b < |slots|
    requires forall j :: a <= j <= b ==> slots[j].Some?
    ensures Loaded(slots[a..b + 1]) == Loaded(slots[a..b]) + [slots[b].value]
  {
  }

  /** The next image fits into the open row. */
  lemma PackedJoin(slots: seq<Option<ImgData>>, start: nat, i: nat, nextIndex: nat,
                   rows: seq<seq<ImgData>>, row: seq<ImgData>, rowCells: real)
    requires PackedUpTo(slots, start, i, nextIndex, rows, row, rowCells)
    requires i < |slots| && slots[i].Some?
    requires !(MaxCellsPerRow < rowCells + slots[i].value.numberOfCells)
    ensures PackedUpTo(slots, start, i + 1, nextIndex, rows, row + [slots[i].value],
                       rowCells + slots[i].value.numberOfCells)
  {
    var x := slots[i].value;
    LoadedSeqSnoc(slots, start, i);
    LoadedSeqSnoc(slots, nextIndex, i);
    ResumeSnoc(PackState([], []), Loaded(slots[start..i]), x);
    RowCellsSnoc(row, x);
  }

  /** The next image does not fit: the open row, which is not empty, is closed first. */
  lemma PackedClose(slots: seq<Option<ImgData>>, start: nat, i: nat, nextIndex: nat,
                    rows: seq<seq<ImgData>>, row: seq<ImgData>, rowCells: real)
    requires PackedUpTo(slots, start, i, nextIndex, rows, row, rowCells)
    requires i < |slots| && slots[i].Some? && slots[i].value.numberOfCells <= MaxCellsPerRow
    requires MaxCellsPerRow < rowCells + slots[i].value.numberOfCells
    ensures nextIndex < i
    ensures PackedUpTo(slots, start, i + 1, nextIndex + |row|, rows + [row], [slots[i].value],
                       0.0 + slots[i].value.numberOfCells)
  {
    var x := slots[i].value;
    LoadedSeqSnoc(slots, start, i);
    ResumeSnoc(PackState([], []), Loaded(slots[start..i]), x);
    assert Step(PackState(rows, row), x) == PackState(rows + [row], [x]);
    FlattenSnoc(rows, row);
    assert nextIndex + |row| == i;
    RowCellsSnoc([], x);
    assert [] + [x] == [x];
    assert [x] == Loaded(slots[i..i + 1]);
  }

  /**
   * One iteration of the packing loop on the loaded image at `i`: when it
   * does not fit, the open row, which is then not empty, is closed first.
   */
  lemma PackedStep(slots: seq<Option<ImgData>>, start: nat, i: nat, nextIndex: nat,
                   rows: seq<seq<ImgData>>, row: seq<ImgData>, rowCells: real)
    requires PackedUpTo(slots, start, i, nextIndex, rows, row, rowCells)
    requires i < |slots| && slots[i].Some? && slots[i].value.numberOfCells <= MaxCellsPerRow
    ensures var x := slots[i].value;
      if MaxCellsPerRow < rowCells + x.numberOfCells then
        nextIndex < i &&
        PackedUpTo(slots, start, i + 1, nextIndex + |row|, rows + [row], [x], 0.0 + x.numberOfCells)
      else
        PackedUpTo(slots, start, i + 1, nextIndex, rows, row + [x], rowCells + x.numberOfCells)
  {
    if MaxCellsPerRow < rowCells + slots[i].value.numberOfCells {
      PackedClose(slots, start, i, nextIndex, rows, row, rowCells);
    } else {
      PackedJoin(slots, start, i, nextIndex, rows, row, rowCells);
    }
  }

  /** The loop reached the end of the page with a row still open. */
  lemma FinishedAtEnd(slots: seq<Option<ImgData>>, start: nat, nextIndex: nat,
                      rows: seq<seq<ImgData>>, row: seq<ImgData>, rowCells: real)
    requires PackedUpTo(slots, start, |slots|, nextIndex, rows, row, rowCells)
    requires row != []
    ensures nextIndex < |slots|
    ensures ProcessedFrom(slots, start, None, rows + [row])
    ensures |Flatten(rows + [row])| == |slots| - start
  {
    FirstHoleIs(slots[start..], |slots| - start);
    FlattenSnoc(rows, row);
  }

  /** The loop stopped at the first empty slot, or at the end of the page with no row open. */
  lemma StoppedAtHole(slots: seq<Option<ImgData>>, start: nat, i: nat, nextIndex: nat,
                      rows: seq<seq<ImgData>>, row: seq<ImgData>, rowCells: real)
    requires PackedUpTo(slots, start, i, nextIndex, rows, row, rowCells)
    requires i < |slots| ==> slots[i].None?
    requires i == |slots| ==> row == []
    ensures ProcessedFrom(slots, start, Some(nextIndex), rows)
  {
    FirstHoleIs(slots[start..], i - start);
    assert slots[start..][..i - start] == slots[start..i];
  }

  /** Every loaded image takes some cells and at most a whole row. */
  ghost predicate SlotsInRange(slots: seq<Option<ImgData>>)
  {
    forall j :: 0 <= j < |slots| && slots[j].Some? ==>
      0.0 < slots[j].value.numberOfCells <= MaxCellsPerRow
  }

  lemma SlottedInRange(images: array<Option<ImgData>>, objs: set<ImgData>)
    requires Slotted(images, objs)
    ensures SlotsInRange(images[..])
  {
  }

  lemma LoadedInRange(slots: seq<Option<ImgData>>, a: nat, b: nat)
    requires SlotsInRange(slots)
    requires a <= b <= |slots| && forall j :: a <= j < b ==> slots[j].Some?
    ensures CellsInRange(Loaded(slots[a..b]))
  {
    LoadedAt(slots, a, b);
  }

  /**
   * What one `processRow` call hands on: rows that are not empty, fit in a
   * row and were each closed only for the image after them, and that cover
   * the loaded images from `start` in order: up to the returned index, which
   * lies between `start` and the first empty slot, or up to the end of the
   * page when no index is returned.
   */
  lemma ProcessedCovers(slots: seq<Option<ImgData>>, start: nat, next: Option<nat>,
                        rows: seq<seq<ImgData>>)
    requires SlotsInRange(slots)
    requires start <= |slots| && ProcessedFrom(slots, start, next, rows)
    ensures RowsFit(rows) && RowsMaximal(rows)
    ensures next.Some? ==>
      start <= next.value <= RunEnd(slots, start) &&
      Flatten(rows) == Loaded(slots[start..next.value])
    ensures next.None? ==>
      RunEnd(slots, start) == |slots| && Flatten(rows) == Loaded(slots[start..])
  {
    var stop := RunEnd(slots, start);
    var items := Loaded(slots[start..stop]);
    var s := Scan(items);
    LoadedInRange(slots, start, stop);
    ScanCovers(items);
    ScanWellPacked(items);
    if next.None? {
      GreedyRowsIsGreedyPartition(items);
      assert slots[start..stop] == slots[start..];
    } else {
      var n := next.value;
      LoadedSplit(slots, start, n, stop);
      assert items[..n - start] == Loaded(slots[start..n]);
    }
  }

  /** The run of loaded slots seen from a later index inside it ends at the same slot. */
  lemma RunEndInside(slots: seq<Option<ImgData>>, start: nat, n: nat)
    requires start <= |slots| && start <= n <= RunEnd(slots, start)
    ensures RunEnd(slots, n) == RunEnd(slots, start)
  {
    FirstHoleIs(slots[n..], RunEnd(slots, start) - n);
  }

  /** The loaded images after the rows a call closes are its open row. */
  lemma OpenRowTail(slots: seq<Option<ImgData>>, start: nat, n: nat)
    requires start <= |slots|
    requires var items := Loaded(slots[start..RunEnd(slots, start)]);
      n == start + |Flatten(Scan(items).closed)|
    ensures n <= RunEnd(slots, start)
    ensures Loaded(slots[n..RunEnd(slots, start)])
         == Scan(Loaded(slots[start..RunEnd(slots, start)])).open
  {
    var stop := RunEnd(slots, start);
    var items := Loaded(slots[start..stop]);
    var s := Scan(items);
    ScanCovers(items);
    var k := |Flatten(s.closed)|;
    assert s.open == items[k..];
    LoadedSplit(slots, start, n, stop);
    assert items[k..] == Loaded(slots[n..stop]);
  }

  /** Calling `processRow` again from the index it returned, with no new image loaded, lays out nothing. */
  lemma ProcessAgainIdle(slots: seq<Option<ImgData>>, start: nat, n: nat, rows: seq<seq<ImgData>>)
    requires SlotsInRange(slots)
    requires start <= |slots| && ProcessedFrom(slots, start, Some(n), rows)
    ensures n <= |slots| && ProcessedFrom(slots, n, Some(n), [])
  {
    var stop := RunEnd(slots, start);
    var items := Loaded(slots[start..stop]);
    var open := Scan(items).open;
    OpenRowTail(slots, start, n);
    RunEndInside(slots, start, n);
    LoadedInRange(slots, start, stop);
    ScanWellPacked(items);
    ScanWellPackedOpenInRange(items);
    if open != [] {
      FirstRowUnique(open);
    }
    assert Flatten<ImgData>([]) == [];
  }

  /**
   * How far the page has got, given the loaded slots: with an index, the
   * rows laid out are the rows the greedy pass closes over the loaded front
   * of the page, the index is the first image not in them, and the page is
   * not complete with a row still open; without one, the page is complete
   * and every row is laid out, the last one too.
   */
  ghost predicate Progress(slots: seq<Option<ImgData>>, index: Option<nat>, emitted: seq<seq<ImgData>>)
  {
    var h := FirstHole(slots);
    var s := Scan(Loaded(slots[..h]));
    match index
    case Some(p) =>
      emitted == s.closed && p == |Flatten(emitted)| && !(h == |slots| && s.open != [])
    case None =>
      h == |slots| && s.open != [] && emitted == s.closed + [s.open]
  }

  lemma FirstHoleSuffix(slots: seq<Option<ImgData>>, p: nat)
    requires p <= FirstHole(slots)
    ensures FirstHole(slots[p..]) == FirstHole(slots) - p
  {
    FirstHoleIs(slots[p..], FirstHole(slots) - p);
  }

  lemma FirstHoleAtLeast(slots: seq<Option<ImgData>>, h: nat)
    requires h <= |slots| && forall j :: 0 <= j < h ==> slots[j].Some?
    ensures h <= FirstHole(slots)
  {
  }

  lemma LoadedSplit(slots: seq<Option<ImgData>>, a: nat, b: nat, c: nat)
    requires a <= b <= c <= |slots| && forall j :: a <= j < c ==> slots[j].Some?
    ensures Loaded(slots[a..c]) == Loaded(slots[a..b]) + Loaded(slots[b..c])
  {
    LoadedAt(slots, a, c);
    LoadedAt(slots, a, b);
    LoadedAt(slots, b, c);
  }

  lemma LoadedDrop(slots: seq<Option<ImgData>>, h: nat, p: nat)
    requires p <= h <= |slots| && forall j :: 0 <= j < h ==> slots[j].Some?
    ensures Loaded(slots[..h])[p..] == Loaded(slots[p..h])
  {
    LoadedAt(slots, 0, h);
    LoadedAt(slots, p, h);
    assert slots[..h] == slots[0..h];
  }

  /** A packing from the empty page with no open row has packed nothing. */
  lemma ScanOpenEmpty(items: seq<ImgData>)
    requires Scan(items).open == []
    ensures items == []
  {
    ScanWellPacked(items);
    ScanCovers(items);
  }

  /** While an image is still missing, the page has an index to go on from. */
  lemma ProgressPending(slots: seq<Option<ImgData>>, index: Option<nat>, emitted: seq<seq<ImgData>>, i: nat)
    requires Progress(slots, index, emitted)
    requires i < |slots| && slots[i].None?
    ensures index.Some?
    ensures FirstHole(slots) <= i
    ensures index.value <= FirstHole(slots)
  {
    var h := FirstHole(slots);
    var items := Loaded(slots[..h]);
    ScanCovers(items);
  }

  /** Loading a missing image never moves the first hole back, nor changes the front before it. */
  lemma HoleMoves(s0: seq<Option<ImgData>>, s1: seq<Option<ImgData>>, i: nat, x: ImgData)
    requires i < |s0| && s0[i].None? && s1 == s0[i := Some(x)]
    ensures FirstHole(s0) <= i
    ensures FirstHole(s0) <= FirstHole(s1)
    ensures Loaded(s1[..FirstHole(s0)]) == Loaded(s0[..FirstHole(s0)])
  {
    var h0 := FirstHole(s0);
    assert s1[..h0] == s0[..h0];
    FirstHoleAtLeast(s1, h0);
  }

  /** The run from `p` to the hole `h1` is the tail of the front up to `h0`, then the rest. */
  lemma RunSplit(s1: seq<Option<ImgData>>, p: nat, h0: nat)
    requires p <= h0 <= FirstHole(s1)
    ensures FirstHole(s1[p..]) == FirstHole(s1) - p
    ensures Loaded(s1[p..FirstHole(s1)])
         == Loaded(s1[..h0])[p..] + Loaded(s1[h0..FirstHole(s1)])
    ensures Loaded(s1[..FirstHole(s1)])
         == Loaded(s1[..h0]) + Loaded(s1[h0..FirstHole(s1)])
  {
    var h1 := FirstHole(s1);
    FirstHoleSuffix(s1, p);
    LoadedDrop(s1, h0, p);
    LoadedSplit(s1, p, h0, h1);
    LoadedSplit(s1, 0, h0, h1);
    assert s1[..h1] == s1[0..h1] && s1[..h0] == s1[0..h0];
  }

  /**
   * Packing the loaded front after slot `i` has loaded is packing the old
   * front's closed rows, then the rest from the index reached so far.
   */
  lemma FrontRestart(s0: seq<Option<ImgData>>, s1: seq<Option<ImgData>>, i: nat, x: ImgData,
                     emitted: seq<seq<ImgData>>, p: nat)
    requires SlotsInRange(s0)
    requires Progress(s0, Some(p), emitted)
    requires i < |s0| && s0[i].None? && s1 == s0[i := Some(x)]
    ensures p <= FirstHole(s1) && p == |Flatten(emitted)|
    ensures var h1 := FirstHole(s1); var q := Scan(Loaded(s1[..h1]));
      var s := Scan(Loaded(s1[p..h1]));
      q.closed == emitted + s.closed && q.open == s.open
  {
    var h0, h1 := FirstHole(s0), FirstHole(s1);
    HoleMoves(s0, s1, i, x);
    var pre := Loaded(s0[..h0]);
    var sp := Scan(pre);
    LoadedInRange(s0, 0, h0);
    ScanCovers(pre);
    assert pre[p..] == sp.open;
    RunSplit(s1, p, h0);
    var e := Loaded(s1[h0..h1]);
    assert Loaded(s1[p..h1]) == sp.open + e;
    ScanRestart(pre, e);
  }

  /**
   * Loading the image at slot `i` and running the row processor from the
   * index reached so far keeps the page's progress: the rows it lays out
   * are the ones the greedy pass closes over the longer loaded front.
   */
  lemma LoadStep(s0: seq<Option<ImgData>>, s1: seq<Option<ImgData>>, i: nat, x: ImgData,
                 emitted: seq<seq<ImgData>>, p: nat, next: Option<nat>, rows: seq<seq<ImgData>>)
    requires SlotsInRange(s0)
    requires Progress(s0, Some(p), emitted)
    requires i < |s0| && s0[i].None? && s1 == s0[i := Some(x)]
    requires p <= |s1| && ProcessedFrom(s1, p, next, rows)
    ensures Progress(s1, next, emitted + rows)
  {
    FrontRestart(s0, s1, i, x, emitted, p);
    RunEndFront(s1, p);
    NextProgress(s1, emitted, p, next, rows);
  }

  lemma RunEndFront(slots: seq<Option<ImgData>>, start: nat)
    requires start <= FirstHole(slots)
    ensures RunEnd(slots, start) == FirstHole(slots)
  {
    FirstHoleSuffix(slots, start);
  }

  /** The last step of `LoadStep`: the new rows extend the closed rows of the front. */
  lemma NextProgress(s1: seq<Option<ImgData>>, emitted: seq<seq<ImgData>>, p: nat,
                     next: Option<nat>, rows: seq<seq<ImgData>>)
    requires p <= FirstHole(s1) && p == |Flatten(emitted)|
    requires var h1 := FirstHole(s1); var q := Scan(Loaded(s1[..h1]));
      var s := Scan(Loaded(s1[p..h1]));
      q.closed == emitted + s.closed && q.open == s.open
    requires RunEnd(s1, p) == FirstHole(s1) && ProcessedFrom(s1, p, next, rows)
    ensures Progress(s1, next, emitted + rows)
  {
    var s := Scan(Loaded(s1[p..FirstHole(s1)]));
    if next.None? {
      Assoc(emitted, s.closed, [s.open]);
    } else {
      FlattenAppend(emitted, s.closed);
    }
  }

  /**
   * Once every image of a non-empty page has loaded, the row processor has
   * finished, and the rows laid out are exactly those of one greedy pass
   * over the page, whatever order the images loaded in.
   */
  lemma AllLoaded(slots: seq<Option<ImgData>>, index: Option<nat>, emitted: seq<seq<ImgData>>)
    requires Progress(slots, index, emitted)
    requires |slots| > 0 && forall j :: 0 <= j < |slots| ==> slots[j].Some?
    ensures index == None
    ensures emitted == GreedyRows(Loaded(slots))
  {
    FirstHoleIs(slots, |slots|);
    assert slots[..|slots|] == slots;
    var items := Loaded(slots);
    if Scan(items).open == [] {
      ScanOpenEmpty(items);
      assert false;
    }
  }
}
