/**
 * A fixed-size grid of optional cells kept in one flat array, the cell at
 * (row, col) living at index row * cols + col.
 */
module Grid {
  import opened Wrappers

  /** Where cell (row, col) lives in the flat array of a grid with cols columns. */
  function FlatIndex(row: int, col: int, cols: int): int {
    row * cols + col
  }

  /** An in-range cell has an index inside the array of a rows-by-cols grid. */
  lemma FlatIndexInRange(row: int, col: int, rows: nat, cols: nat)
    requires 0 <= row < rows && 0 <= col < cols
    ensures 0 <= FlatIndex(row, col, cols) < rows * cols
  {
    assert row * cols <= (rows - 1) * cols by {
      MulMonotone(row, rows - 1, cols);
    }
    assert (rows - 1) * cols + cols == rows * cols;
  }

  lemma MulMonotone(a: int, b: int, c: nat)
    requires a <= b
    ensures a * c <= b * c
  {
  }

  /** Distinct in-range cells have distinct indices. */
  lemma FlatIndexInjective(r1: int, c1: int, r2: int, c2: int, cols: nat)
    requires 0 <= c1 < cols && 0 <= c2 < cols
    requires FlatIndex(r1, c1, cols) == FlatIndex(r2, c2, cols)
    ensures r1 == r2 && c1 == c2
  {
    if r1 < r2 {
      MulMonotone(r1 + 1, r2, cols);
    } else if r2 < r1 {
      MulMonotone(r2 + 1, r1, cols);
    }
  }

  /** A rows-by-cols grid whose cells hold a value or nothing (null). */
  class Matrix2D<T> {
    const rows: nat
    const cols: nat
    const cells: array<Option<T>>

    ghost predicate Valid() {
      cells.Length == rows * cols
    }

    ghost predicate InRange(row: int, col: int) {
      0 <= row < rows && 0 <= col < cols
    }

    /** The cell at (row, col), read through the flat index. */
    ghost function Cell(row: int, col: int): Option<T>
      requires Valid() && InRange(row, col)
      reads cells
    {
      FlatIndexInRange(row, col, rows, cols);
      cells[FlatIndex(row, col, cols)]
    }

    constructor (rows: nat, cols: nat)
      ensures Valid() && fresh(cells)
      ensures this.rows == rows && this.cols == cols
      ensures RowCount() == rows && ColCount() == cols
      ensures forall i :: 0 <= i < cells.Length ==> cells[i] == None
      ensures forall row, col :: InRange(row, col) ==>
        0 <= FlatIndex(row, col, cols) < cells.Length && !IsPresent(row, col)
    {
      this.rows := rows;
      this.cols := cols;
      this.cells := new Option<T>[rows * cols](_ => None);
      new;
      forall row, col | InRange(row, col)
        ensures 0 <= FlatIndex(row, col, cols) < cells.Length && !IsPresent(row, col)
      {
        FlatIndexInRange(row, col, rows, cols);
      }
    }

    /** Whether the cell holds a value; the index must fall inside the array. */
    predicate IsPresent(row: int, col: int): (b: bool)
      requires 0 <= FlatIndex(row, col, cols) < cells.Length
      reads cells
      ensures Valid() && InRange(row, col) ==> (b <==> Cell(row, col).Some?)
    {
      cells[FlatIndex(row, col, cols)].Some?
    }

    /** The value of a present cell (an absent one cannot be wrapped). */
    method Get(row: int, col: int) returns (x: T)
      requires 0 <= FlatIndex(row, col, cols) < cells.Length
      requires IsPresent(row, col)
      ensures cells[FlatIndex(row, col, cols)] == Some(x)
      ensures Valid() && InRange(row, col) ==> Cell(row, col) == Some(x)
    {
      x := cells[FlatIndex(row, col, cols)].value;
    }

    /** Stores obj (None for null) in the cell; every other cell keeps its value. */
    method Set(row: int, col: int, obj: Option<T>)
      requires 0 <= FlatIndex(row, col, cols) < cells.Length
      modifies cells
      ensures cells[..] == old(cells[..])[FlatIndex(row, col, cols) := obj]
      ensures IsPresent(row, col) <==> obj.Some?
      ensures Valid() && InRange(row, col) ==> Cell(row, col) == obj
      ensures Valid() && InRange(row, col) ==>
        forall r, c :: InRange(r, c) && (r != row || c != col) ==> Cell(r, c) == old(Cell(r, c))
    {
      cells[FlatIndex(row, col, cols)] := obj;
      if Valid() && InRange(row, col) {
        forall r, c | InRange(r, c) && (r != row || c != col)
          ensures Cell(r, c) == old(Cell(r, c))
        {
          FlatIndexInRange(r, c, rows, cols);
          if FlatIndex(r, c, cols) == FlatIndex(row, col, cols) {
            FlatIndexInjective(r, c, row, col, cols);
          }
        }
      }
    }

    /** The number of rows; with the column count it spans exactly the array. */
    function RowCount(): (n: int)
      ensures Valid() ==> n * cols == cells.Length
    {
      rows
    }

    /** The number of columns; with the row count it spans exactly the array. */
    function ColCount(): (n: int)
      ensures Valid() ==> rows * n == cells.Length
    {
      cols
    }
  }

  /**
   * A fresh 3-by-4 grid: after setting (1, 2), that cell holds the value and
   * its neighbours are still empty.
   */
  method SetThenGet<T>(v: T) returns (x: T, neighbourPresent: bool)
    ensures x == v
    ensures !neighbourPresent
  {
    var m := new Matrix2D<T>(3, 4);
    m.Set(1, 2, Some(v));
    neighbourPresent := m.IsPresent(1, 3) || m.IsPresent(2, 2);
    x := m.Get(1, 2);
  }
}
