/** Rectangular regions of a two-dimensional array, as a NumPy slice
    `a[rowLo:rowHi, colLo:colHi]` selects them, the in-place assignment of one
    value to such a region, and the number of cells a region covers. */
module Grid {

  /** The half-open rows [rowLo, rowHi) crossed with the half-open columns
      [colLo, colHi). Like a Python slice, a range whose lower bound reaches
      its upper bound is empty. */
  datatype Rect = Rect(rowLo: int, rowHi: int, colLo: int, colHi: int) {

    predicate Contains(r: int, c: int) {
      rowLo <= r < rowHi && colLo <= c < colHi
    }

    /** All four bounds lie inside a rows x cols array, so the slice needs no
        clamping and no negative index is read from the end. */
    predicate WithinGrid(rows: nat, cols: nat) {
      0 <= rowLo && rowHi <= rows && 0 <= colLo && colHi <= cols
    }

    function Height(): nat {
      if rowLo <= rowHi then rowHi - rowLo else 0
    }

    function Width(): nat {
      if colLo <= colHi then colHi - colLo else 0
    }
  }

  /** `a[rect] = v`: every cell of the region becomes `v`, every other cell
      keeps its value. */
  method FillRect<T>(a: array2<T>, rect: Rect, v: T)
    requires rect.WithinGrid(a.Length0, a.Length1)
    modifies a
    ensures forall r, c :: 0 <= r < a.Length0 && 0 <= c < a.Length1 ==>
              a[r, c] == (if rect.Contains(r, c) then v else old(a[r, c]))
  {
    var r := rect.rowLo;
    while r < rect.rowHi
      invariant rect.rowLo <= r && (r <= rect.rowHi || r == rect.rowLo)
      invariant forall i, j :: 0 <= i < a.Length0 && 0 <= j < a.Length1 ==>
                  a[i, j] == (if rect.rowLo <= i < r && rect.colLo <= j < rect.colHi then v else old(a[i, j]))
    {
      var c := rect.colLo;
      while c < rect.colHi
        invariant rect.colLo <= c && (c <= rect.colHi || c == rect.colLo)
        invariant forall i, j :: 0 <= i < a.Length0 && 0 <= j < a.Length1 ==>
                    a[i, j] == (if (rect.rowLo <= i < r && rect.colLo <= j < rect.colHi) || (i == r && rect.colLo <= j < c)
                                then v else old(a[i, j]))
      {
        a[r, c] := v;
        c := c + 1;
      }
      r := r + 1;
    }
  }

  /** How many of the integers 0 .. n-1 lie in [lo, hi). */
  function Overlap(lo: int, hi: int, n: nat): nat {
    var a := if lo < 0 then 0 else lo;
    var b := if hi < n then hi else n;
    if a < b then b - a else 0
  }

  /** Number of cells (r, c) of the row r, columns 0 .. cols-1, inside the region. */
  ghost function RowCellCount(rect: Rect, r: int, cols: nat): nat {
    if cols == 0 then 0
    else RowCellCount(rect, r, cols - 1) + (if rect.Contains(r, cols - 1) then 1 else 0)
  }

  /** Number of cells of a rows x cols grid inside the region. */
  ghost function CellCount(rect: Rect, rows: nat, cols: nat): nat {
    if rows == 0 then 0
    else CellCount(rect, rows - 1, cols) + RowCellCount(rect, rows - 1, cols)
  }

  lemma {:induction false} RowCellCountIsOverlap(rect: Rect, r: int, cols: nat)
    ensures RowCellCount(rect, r, cols)
            == if rect.rowLo <= r < rect.rowHi then Overlap(rect.colLo, rect.colHi, cols) else 0
  {
    if cols > 0 {
      RowCellCountIsOverlap(rect, r, cols - 1);
    }
  }

  lemma {:induction false} CellCountIsProduct(rect: Rect, rows: nat, cols: nat)
    ensures CellCount(rect, rows, cols)
            == Overlap(rect.rowLo, rect.rowHi, rows) * Overlap(rect.colLo, rect.colHi, cols)
  {
    if rows > 0 {
      CellCountIsProduct(rect, rows - 1, cols);
      RowCellCountIsOverlap(rect, rows - 1, cols);
      var w := Overlap(rect.colLo, rect.colHi, cols);
      var h := Overlap(rect.rowLo, rect.rowHi, rows - 1);
      if rect.rowLo <= rows - 1 < rect.rowHi {
        assert Overlap(rect.rowLo, rect.rowHi, rows) == h + 1;
        assert (h + 1) * w == h * w + w;
      } else {
        assert Overlap(rect.rowLo, rect.rowHi, rows) == h;
      }
    }
  }

  /** A region inside the grid covers exactly its height times its width. */
  lemma CellCountWithinGrid(rect: Rect, rows: nat, cols: nat)
    requires rect.WithinGrid(rows, cols)
    ensures CellCount(rect, rows, cols) == rect.Height() * rect.Width()
  {
    CellCountIsProduct(rect, rows, cols);
    assert Overlap(rect.rowLo, rect.rowHi, rows) == rect.Height();
    assert Overlap(rect.colLo, rect.colHi, cols) == rect.Width();
  }
}
