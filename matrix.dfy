/** The row-major matrix of include/savina_helper.hpp: a fixed block of
    y * x cells addressed as (row, column), standing in for the Java
    construct T[][]. */
module RowMajorMatrix {
  import opened Arithmetic

  /** The flat position of cell (row, column) in a matrix of the given
      width. */
  function Index(row: nat, column: nat, width: nat): nat
  {
    row * width + column
  }

  /** Cells of a matrix `height` rows high lie inside its y * x block. */
  lemma IndexInRange(row: nat, column: nat, width: nat, height: nat)
    requires row < height && column < width
    ensures Index(row, column, width) < height * width
  {
    assert (row + 1) * width <= height * width by {
      MulMonotone(row + 1, height, width);
    }
  }

  /** Within the width, distinct coordinates address distinct cells. */
  lemma IndexInjective(r1: nat, c1: nat, r2: nat, c2: nat, width: nat)
    requires c1 < width && c2 < width
    requires Index(r1, c1, width) == Index(r2, c2, width)
    ensures r1 == r2 && c1 == c2
  {
    if r1 < r2 {
      MulMonotone(r1 + 1, r2, width);
    } else if r2 < r1 {
      MulMonotone(r2 + 1, r1, width);
    }
  }

  class Matrix2D<T> {
    const width: nat
    const cells: array<T>

    /** `matrix2d(y, x)`: y * x cells, each holding the element type's
        default value, here passed in. */
    constructor (y: nat, x: nat, default: T)
      ensures width == x && cells.Length == y * x && fresh(cells)
      ensures forall i :: 0 <= i < cells.Length ==> cells[i] == default
    {
      width := x;
      cells := new T[y * x](_ => default);
    }

    /** The const `operator()`: the cell at (row, column). */
    function Get(row: nat, column: nat): (r: T)
      reads this, cells
      requires Index(row, column, width) < cells.Length
    {
      cells[Index(row, column, width)]
    }

    /** A write through the non-const `operator()`: the addressed cell takes
        the value, every other cell keeps its own, so reading back through
        the const `operator()` returns what was written. */
    method Set(row: nat, column: nat, value: T)
      requires Index(row, column, width) < cells.Length
      modifies cells
      ensures cells[..] == old(cells[..])[Index(row, column, width) := value]
      ensures Get(row, column) == value
      ensures column < width ==> forall r: nat, c: nat ::
        c < width && Index(r, c, width) < cells.Length && (r, c) != (row, column) ==>
          Get(r, c) == old(Get(r, c))
    {
      cells[Index(row, column, width)] := value;
      if column < width {
        forall r: nat, c: nat | c < width && Index(r, c, width) < cells.Length && (r, c) != (row, column)
          ensures Get(r, c) == old(Get(r, c))
        {
          if Index(r, c, width) == Index(row, column, width) {
            IndexInjective(r, c, row, column, width);
          }
        }
      }
    }

    /** `get_copy_of_line(y)` as written: `width` cells copied from flat
        position y on. */
    function CopyOfLineAsWritten(y: nat): (r: seq<T>)
      reads this, cells
      requires y + width <= cells.Length
      ensures |r| == width
      ensures forall i :: 0 <= i < width ==> r[i] == cells[y + i]
    {
      cells[y..y + width]
    }

    /** The copy of row y that the name promises: the cells (y, 0) to
        (y, width - 1). */
    function CopyOfLine(y: nat): (r: seq<T>)
      reads this, cells
      requires (y + 1) * width <= cells.Length
      ensures |r| == width
      ensures forall x :: 0 <= x < width ==> Index(y, x, width) < cells.Length && r[x] == Get(y, x)
    {
      cells[y * width..y * width + width]
    }
  }

  /** As written, line y of a matrix at least y + 1 wide and two rows high
      starts at cell (0, y) of the first row and not at (y, 0): for y = 1
      and width 2 it holds (0, 1) and (1, 0) instead of (1, 0) and (1, 1). */
  lemma LineAsWrittenStartsInFirstRow<T>(m: Matrix2D<T>, y: nat)
    requires 0 < y < m.width && y + m.width <= m.cells.Length
    ensures m.CopyOfLineAsWritten(y)[0] == m.Get(0, y)
    ensures Index(0, y, m.width) != Index(y, 0, m.width)
  {
    MulMonotone(1, y, m.width);
  }

  /** The two readings agree on the first line only. */
  lemma FirstLinesAgree<T>(m: Matrix2D<T>)
    requires m.width <= m.cells.Length
    ensures m.CopyOfLineAsWritten(0) == m.CopyOfLine(0)
  {
  }
}
