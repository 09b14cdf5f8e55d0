/**
 * The greedy row packer.  Images are taken in page order; the open row
 * takes the next image unless its cells would push the row over
 * `MaxCellsPerRow`, in which case the open row is closed first.  The
 * specification is the fold `Scan`; `ProcessRow` is the incremental,
 * in-place version that runs over the partly loaded image buffer.
 */
module RowPacker {
  import opened CellWeights
  import opened ImageData

  /** `rowCells`: the cells a row takes, summed left to right. */
  function RowCells(row: seq<ImgData>): real
  {
    if row == [] then 0.0 else RowCells(row[..|row| - 1]) + row[|row| - 1].numberOfCells
  }

  /** Every image takes some cells and at most a whole row. */
  predicate CellsInRange(items: seq<ImgData>)
  {
    forall j :: 0 <= j < |items| ==> 0.0 < items[j].numberOfCells <= MaxCellsPerRow
  }

  /** The rows laid end to end. */
  function Flatten<T>(rows: seq<seq<T>>): seq<T>
  {
    if rows == [] then [] else Flatten(rows[..|rows| - 1]) + rows[|rows| - 1]
  }

  /** The rows handed on so far and the row still being filled. */
  datatype PackState = PackState(closed: seq<seq<ImgData>>, open: seq<ImgData>)

  /** One iteration of the packing loop: close the open row if `x` does not fit, then add `x`. */
  function Step(s: PackState, x: ImgData): PackState
  {
    if MaxCellsPerRow < RowCells(s.open) + x.numberOfCells then
      PackState(s.closed + [s.open], [x])
    else
      PackState(s.closed, s.open + [x])
  }

  /** Packing `items` onward from state `s`. */
  function Resume(s: PackState, items: seq<ImgData>): PackState
  {
    if items == [] then s else Step(Resume(s, items[..|items| - 1]), items[|items| - 1])
  }

  /** Packing `items` from an empty page. */
  function Scan(items: seq<ImgData>): PackState
  {
    Resume(PackState([], []), items)
  }

  /** The rows of a one-shot greedy pass: the closed rows, then the last row if any. */
  function GreedyRows(items: seq<ImgData>): seq<seq<ImgData>>
  {
    var s := Scan(items);
    if s.open == [] then s.closed else s.closed + [s.open]
  }

  /** No row is empty and none is over capacity. */
  ghost predicate RowsFit(rows: seq<seq<ImgData>>)
  {
    forall k :: 0 <= k < |rows| ==> rows[k] != [] && RowCells(rows[k]) <= MaxCellsPerRow
  }

  /** Each row was closed only because the first image of the next row did not fit into it. */
  ghost predicate RowsMaximal(rows: seq<seq<ImgData>>)
  {
    forall k :: 0 < k < |rows| ==>
      rows[k] != [] && MaxCellsPerRow < RowCells(rows[k - 1]) + rows[k][0].numberOfCells
  }

  /**
   * Rows as the packer promises them: they cover `items` in order, none is
   * empty or over capacity, and none could have taken the next image.
   */
  ghost predicate IsGreedyPartition(rows: seq<seq<ImgData>>, items: seq<ImgData>)
  {
    Flatten(rows) == items && RowsFit(rows) && RowsMaximal(rows)
  }

  /** The shape every packing state reached from an empty page has. */
  ghost predicate WellPacked(s: PackState)
  {
    RowsFit(s.closed) && RowsMaximal(s.closed) &&
    RowCells(s.open) <= MaxCellsPerRow &&
    (s.closed != [] ==>
       s.open != [] &&
       MaxCellsPerRow < RowCells(s.closed[|s.closed| - 1]) + s.open[0].numberOfCells)
  }

  lemma Assoc<T>(a: seq<T>, b: seq<T>, c: seq<T>)
    ensures (a + b) + c == a + (b + c)
  {
  }

  lemma FlattenSnoc<T>(rows: seq<seq<T>>, row: seq<T>)
    ensures Flatten(rows + [row]) == Flatten(rows) + row
  {
    assert (rows + [row])[..|rows|] == rows;
  }

  lemma {:induction false} FlattenAppend<T>(a: seq<seq<T>>, b: seq<seq<T>>)
    ensures Flatten(a + b) == Flatten(a) + Flatten(b)
  {
    if b == [] {
      assert a + b == a;
    } else {
      var n := |b| - 1;
      var front, last := b[..n], b[n];
      assert b == front + [last];
      Assoc(a, front, [last]);
      calc {
        Flatten(a + b);
        Flatten((a + front) + [last]);
        { FlattenSnoc(a + front, last); }
        Flatten(a + front) + last;
        { FlattenAppend(a, front); }
        (Flatten(a) + Flatten(front)) + last;
        { Assoc(Flatten(a), Flatten(front), last); }
        Flatten(a) + (Flatten(front) + last);
        { FlattenSnoc(front, last); }
        Flatten(a) + Flatten(b);
      }
    }
  }
  lemma RowCellsSnoc(row: seq<ImgData>, x: ImgData)
    ensures RowCells(row + [x]) == RowCells(row) + x.numberOfCells
  {
    assert (row + [x])[..|row|] == row;
  }

  lemma ResumeSnoc(s: PackState, items: seq<ImgData>, x: ImgData)
    ensures Resume(s, items + [x]) == Step(Resume(s, items), x)
  {
    assert (items + [x])[..|items|] == items;
  }

  /** A step keeps the packing well formed. */
  lemma StepWellPacked(s: PackState, x: ImgData)
    requires WellPacked(s)
    requires 0.0 < x.numberOfCells <= MaxCellsPerRow
    ensures WellPacked(Step(s, x))
  {
    if MaxCellsPerRow < RowCells(s.open) + x.numberOfCells {
      assert s.open != [];
      RowCellsSnoc([], x);
      assert [] + [x] == [x];
      ClosedRowsGrow(s.closed, s.open);
    } else {
      RowCellsSnoc(s.open, x);
      if s.closed != [] {
        assert (s.open + [x])[0] == s.open[0];
      }
    }
  }

  /** Closing a fitting row that the previous row could not have taken keeps the rows greedy. */
  lemma ClosedRowsGrow(rows: seq<seq<ImgData>>, row: seq<ImgData>)
    requires RowsFit(rows) && RowsMaximal(rows)
    requires row != [] && RowCells(row) <= MaxCellsPerRow
    requires rows != [] ==> MaxCellsPerRow < RowCells(rows[|rows| - 1]) + row[0].numberOfCells
    ensures RowsFit(rows + [row]) && RowsMaximal(rows + [row])
  {
    var all: seq<seq<ImgData>> := rows + [row];
    forall k | 0 < k < |all|
      ensures all[k] != [] && MaxCellsPerRow < RowCells(all[k - 1]) + all[k][0].numberOfCells
    {
      if k < |rows| {
        assert all[k - 1] == rows[k - 1] && all[k] == rows[k];
      }
    }
  }

  /** Packing from an empty page always yields well-formed rows, and a last row exactly when there were images. */
  lemma {:induction false} ScanWellPacked(items: seq<ImgData>)
    requires CellsInRange(items)
    ensures WellPacked(Scan(items))
    ensures Scan(items).open == [] <==> items == []
  {
    if items != [] {
      var n := |items| - 1;
      ScanWellPacked(items[..n]);
      assert items == items[..n] + [items[n]];
      ResumeSnoc(PackState([], []), items[..n], items[n]);
      StepWellPacked(Scan(items[..n]), items[n]);
    }
  }

  /** The one-shot greedy pass meets the packer's promise. */
  lemma GreedyRowsIsGreedyPartition(items: seq<ImgData>)
    requires CellsInRange(items)
    ensures IsGreedyPartition(GreedyRows(items), items)
  {
    var s := Scan(items);
    ScanCovers(items);
    ScanWellPacked(items);
    if s.open != [] {
      FlattenSnoc(s.closed, s.open);
      ClosedRowsGrow(s.closed, s.open);
    } else {
      assert Flatten(s.closed) + [] == Flatten(s.closed);
    }
  }

  /** Packing loses, repeats and reorders no image. */
  lemma {:induction false} ResumeCovers(s: PackState, items: seq<ImgData>)
    ensures Flatten(Resume(s, items).closed) + Resume(s, items).open
         == Flatten(s.closed) + s.open + items
  {
    if items == [] {
      assert Flatten(s.closed) + s.open + [] == Flatten(s.closed) + s.open;
    } else {
      var n := |items| - 1;
      var t, x := Resume(s, items[..n]), items[n];
      var front := Flatten(s.closed) + s.open;
      ResumeCovers(s, items[..n]);
      assert Flatten(t.closed) + t.open == front + items[..n];
      assert items == items[..n] + [x];
      Assoc(front, items[..n], [x]);
      if MaxCellsPerRow < RowCells(t.open) + x.numberOfCells {
        FlattenSnoc(t.closed, t.open);
      } else {
        Assoc(Flatten(t.closed), t.open, [x]);
      }
    }
  }

  /** The closed rows and the open row together are exactly the images packed. */
  lemma ScanCovers(items: seq<ImgData>)
    ensures Flatten(Scan(items).closed) + Scan(items).open == items
  {
    var init := PackState([], []);
    ResumeCovers(init, items);
    assert Flatten(init.closed) + init.open + items == items;
  }

  /** Packing `a + b` is packing `a`, then going on with `b`. */
  lemma {:induction false} ResumeAppend(s: PackState, a: seq<ImgData>, b: seq<ImgData>)
    ensures Resume(s, a + b) == Resume(Resume(s, a), b)
  {
    if b == [] {
      assert a + b == a;
    } else {
      var n := |b| - 1;
      var front, x := b[..n], b[n];
      ResumeAppend(s, a, front);
      Assoc(a, front, [x]);
      assert b == front + [x];
      calc {
        Resume(s, a + b);
        { ResumeSnoc(s, a + front, x); }
        Step(Resume(s, a + front), x);
        Step(Resume(Resume(s, a), front), x);
        { ResumeSnoc(Resume(s, a), front, x); }
        Resume(Resume(s, a), b);
      }
    }
  }

  /** Images whose cells fit into the open row all join it, and no row is closed. */
  lemma {:induction false} ResumeFits(s: PackState, items: seq<ImgData>)
    requires CellsInRange(items)
    requires RowCells(s.open + items) <= MaxCellsPerRow
    ensures Resume(s, items) == PackState(s.closed, s.open + items)
  {
    if items == [] {
      assert s.open + items == s.open;
    } else {
      var n := |items| - 1;
      assert s.open + items == (s.open + items[..n]) + [items[n]];
      RowCellsSnoc(s.open + items[..n], items[n]);
      ResumeFits(s, items[..n]);
    }
  }

  /** Rows already closed play no part in how the rest is packed. */
  lemma {:induction false} ResumeKeepsClosed(closed: seq<seq<ImgData>>, open: seq<ImgData>, items: seq<ImgData>)
    ensures Resume(PackState(closed, open), items)
         == PackState(closed + Resume(PackState([], open), items).closed,
                      Resume(PackState([], open), items).open)
  {
    if items == [] {
      assert closed + [] == closed;
    } else {
      var n := |items| - 1;
      ResumeKeepsClosed(closed, open, items[..n]);
      var t := Resume(PackState([], open), items[..n]);
      if MaxCellsPerRow < RowCells(t.open) + items[n].numberOfCells {
        assert closed + (t.closed + [t.open]) == (closed + t.closed) + [t.open];
      }
    }
  }

  /**
   * Closing the rows of a prefix and packing again from the start of its open
   * row gives the same rows as packing everything in one pass.
   */
  lemma ScanRestart(a: seq<ImgData>, b: seq<ImgData>)
    requires CellsInRange(a)
    ensures Scan(a + b).closed == Scan(a).closed + Scan(Scan(a).open + b).closed
    ensures Scan(a + b).open == Scan(Scan(a).open + b).open
  {
    var init := PackState([], []);
    var s := Scan(a);
    ScanWellPacked(a);
    ResumeAppend(init, a, b);
    ResumeKeepsClosed(s.closed, s.open, b);
    ResumeAppend(init, s.open, b);
    assert [] + s.open == s.open;
    ScanWellPackedOpenInRange(a);
    ResumeFits(init, s.open);
  }

  lemma ScanWellPackedOpenInRange(a: seq<ImgData>)
    requires CellsInRange(a)
    ensures CellsInRange(Scan(a).open)
  {
    var s := Scan(a);
    ScanCovers(a);
    var front := Flatten(s.closed);
    forall j | 0 <= j < |s.open| ensures 0.0 < s.open[j].numberOfCells <= MaxCellsPerRow {
      assert s.open[j] == (front + s.open)[|front| + j];
    }
  }

  lemma CellsInRangeSplit(a: seq<ImgData>, b: seq<ImgData>)
    requires CellsInRange(a + b)
    ensures CellsInRange(a) && CellsInRange(b)
  {
    forall j | 0 <= j < |a| ensures 0.0 < a[j].numberOfCells <= MaxCellsPerRow {
      assert a[j] == (a + b)[j];
    }
    forall j | 0 <= j < |b| ensures 0.0 < b[j].numberOfCells <= MaxCellsPerRow {
      assert b[j] == (a + b)[|a| + j];
    }
  }

  lemma RowsPrefix(rows: seq<seq<ImgData>>, n: nat)
    requires RowsFit(rows) && RowsMaximal(rows) && n <= |rows|
    ensures RowsFit(rows[..n]) && RowsMaximal(rows[..n])
  {
    var rest: seq<seq<ImgData>> := rows[..n];
    forall k | 0 < k < |rest|
      ensures rest[k] != [] && MaxCellsPerRow < RowCells(rest[k - 1]) + rest[k][0].numberOfCells
    {
      assert rest[k - 1] == rows[k - 1] && rest[k] == rows[k];
    }
  }

  /** Dropping the last row of a greedy packing leaves a greedy packing of what precedes it. */
  lemma GreedyPartitionInit(rows: seq<seq<ImgData>>, items: seq<ImgData>)
    requires CellsInRange(items)
    requires IsGreedyPartition(rows, items)
    requires rows != []
    ensures items == Flatten(rows[..|rows| - 1]) + rows[|rows| - 1]
    ensures CellsInRange(Flatten(rows[..|rows| - 1])) && CellsInRange(rows[|rows| - 1])
    ensures IsGreedyPartition(rows[..|rows| - 1], Flatten(rows[..|rows| - 1]))
  {
    var n := |rows| - 1;
    assert rows == rows[..n] + [rows[n]];
    FlattenSnoc(rows[..n], rows[n]);
    CellsInRangeSplit(Flatten(rows[..n]), rows[n]);
    RowsPrefix(rows, n);
  }

  /**
   * After a well-packed state whose open row is the previous row, a row that
   * starts with an image that does not fit and then fits itself is taken whole.
   */
  lemma ResumeNewRow(s: PackState, row: seq<ImgData>)
    requires CellsInRange(row)
    requires row != [] && RowCells(row) <= MaxCellsPerRow
    requires MaxCellsPerRow < RowCells(s.open) + row[0].numberOfCells
    ensures Resume(s, row) == PackState(s.closed + [s.open], row)
  {
    var x, tail := row[0], row[1..];
    assert row == [x] + tail;
    ResumeAppend(s, [x], tail);
    ResumeSnoc(s, [], x);
    assert [] + [x] == [x];
    assert Resume(s, [x]) == PackState(s.closed + [s.open], [x]);
    assert CellsInRange(tail) by {
      forall j | 0 <= j < |tail| ensures 0.0 < tail[j].numberOfCells <= MaxCellsPerRow {
        assert tail[j] == row[j + 1];
      }
    }
    ResumeFits(PackState(s.closed + [s.open], [x]), tail);
  }

  /** The first row of a greedy packing: the packer keeps every item in one open row. */
  lemma FirstRowUnique(last: seq<ImgData>)
    requires CellsInRange(last)
    requires last != [] && RowCells(last) <= MaxCellsPerRow
    ensures Scan(last) == PackState([], last)
  {
    var init := PackState([], []);
    assert init.open + last == last;
    ResumeFits(init, last);
  }

  /** A later row of a greedy packing: the packer closes the rows before it and opens this one. */
  lemma NextRowUnique(rest: seq<seq<ImgData>>, last: seq<ImgData>)
    requires rest != [] && CellsInRange(Flatten(rest)) && CellsInRange(last)
    requires rest == GreedyRows(Flatten(rest))
    requires last != [] && RowCells(last) <= MaxCellsPerRow
    requires MaxCellsPerRow < RowCells(rest[|rest| - 1]) + last[0].numberOfCells
    ensures Scan(Flatten(rest) + last) == PackState(rest, last)
  {
    var front := Flatten(rest);
    var s := Scan(front);
    ScanWellPacked(front);
    assert s.open != [] && rest == s.closed + [s.open];
    assert rest[|rest| - 1] == s.open;
    ResumeAppend(PackState([], []), front, last);
    ResumeNewRow(s, last);
  }

  /** A packing that keeps the packer's promise is the one the greedy pass makes. */
  lemma {:induction false} GreedyPartitionUnique(rows: seq<seq<ImgData>>, items: seq<ImgData>)
    requires CellsInRange(items)
    requires IsGreedyPartition(rows, items)
    ensures rows == GreedyRows(items)
  {
    if rows == [] {
      assert items == [];
    } else {
      var n := |rows| - 1;
      var rest, last := rows[..n], rows[n];
      GreedyPartitionInit(rows, items);
      GreedyPartitionUnique(rest, Flatten(rest));
      if rest == [] {
        assert items == last;
        FirstRowUnique(last);
      } else {
        assert rows[n - 1] == rest[n - 1];
        NextRowUnique(rest, last);
      }
      assert rows == rest + [last];
    }
  }

  /** The three iterations of the packing loop on images taking 6, 2.5 and 1 cells. */
  lemma PackExampleSteps(x0: ImgData, x1: ImgData, x2: ImgData)
    requires x0.numberOfCells == 6.0 && x1.numberOfCells == 2.5 && x2.numberOfCells == 1.0
    ensures Step(PackState([], []), x0) == PackState([], [x0])
    ensures Step(PackState([], [x0]), x1) == PackState([[x0]], [x1])
    ensures Step(PackState([[x0]], [x1]), x2) == PackState([[x0]], [x1, x2])
  {
    assert [] + [x0] == [x0] && [] + [x1] == [x1];
    RowCellsSnoc([], x0);
    RowCellsSnoc([], x1);
  }

  /**
   * Images taking 6, 2.5 and 1 cells: the first fills a row on its own, the
   * other two share the next one.
   */
  lemma PackExample(x0: ImgData, x1: ImgData, x2: ImgData)
    requires x0.numberOfCells == 6.0 && x1.numberOfCells == 2.5 && x2.numberOfCells == 1.0
    ensures GreedyRows([x0, x1, x2]) == [[x0], [x1, x2]]
  {
    var init := PackState([], []);
    PackExampleSteps(x0, x1, x2);
    ResumeSnoc(init, [], x0);
    ResumeSnoc(init, [x0], x1);
    ResumeSnoc(init, [x0, x1], x2);
    assert [] + [x0] == [x0] && [x0] + [x1] == [x0, x1] && [x0, x1] + [x2] == [x0, x1, x2];
    var s := Scan([x0, x1, x2]);
    assert s == PackState([[x0]], [x1, x2]);
    assert s.closed + [s.open] == [[x0], [x1, x2]];
  }
}
