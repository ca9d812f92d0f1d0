/** The game grid: an N×N array of characters, ' ' for an empty cell, and a
    counter of empty cells that the class keeps by hand instead of rescanning.
    The board knows nothing about turns or winning. */
module Boards {
  import opened Grids

  class Board {
    const size: int
    const grid: array2<char>
    var emptyCells: int

    /** The array has the board's dimensions. */
    ghost predicate Shaped()
      reads this
    {
      grid.Length0 == size && grid.Length1 == size
    }

    /** The cells as a value, row by row. */
    ghost function Cells(): (g: Grid)
      reads this, grid
      requires Shaped()
      ensures IsSquare(g, size)
      ensures forall i, j :: 0 <= i < size && 0 <= j < size ==> g[i][j] == grid[i, j]
    {
      seq(grid.Length0, i requires 0 <= i < grid.Length0 reads grid =>
        seq(grid.Length1, j requires 0 <= j < grid.Length1 reads grid => grid[i, j]))
    }

    /** The board's invariant: the counter is the number of empty cells. */
    ghost predicate Valid()
      reads this, grid
    {
      Shaped() && emptyCells == EmptyCount(Cells())
    }

    /** A valid board's counter lies between 0 and size*size. */
    lemma CounterBounds()
      requires Valid()
      ensures 0 <= emptyCells <= size * size
    {
      EmptyCountBound(Cells(), size);
    }

    /** A new board of the given side: every cell empty, size*size empty cells. */
    constructor (size: nat)
      ensures this.size == size && Valid() && fresh(grid)
      ensures Cells() == Blank(size) && emptyCells == size * size
    {
      this.size := size;
      this.emptyCells := size * size;
      this.grid := new char[size, size];
      new;
      InitializeGrid();
      BlankCount(size);
    }

    /** Writes ' ' into every cell, row by row. */
    method InitializeGrid()
      requires Shaped()
      modifies grid
      ensures Cells() == Blank(size)
    {
      for i := 0 to size
        invariant forall r, c :: 0 <= r < i && 0 <= c < size ==> grid[r, c] == Empty
      {
        for j := 0 to size
          invariant forall r, c :: 0 <= r < i && 0 <= c < size ==> grid[r, c] == Empty
          invariant forall c :: 0 <= c < j ==> grid[i, c] == Empty
        {
          grid[i, j] := Empty;
        }
      }
      assert forall i :: 0 <= i < size ==> Cells()[i] == Blank(size)[i];
    }

    /** The cell holds no symbol. Out-of-range coordinates are the caller's
        responsibility, as the array access would fail. */
    function IsCellEmpty(row: int, col: int): (empty: bool)
      reads this, grid
      requires Shaped() && InRange(size, row, col)
      ensures empty <==> Cells()[row][col] == Empty
    {
      grid[row, col] == Empty
    }

    /** The counter has reached zero, which on a valid board means no cell is empty. */
    function IsFull(): (full: bool)
      reads this, grid
      requires Valid()
      ensures full <==> !HasEmpty(Cells())
    {
      EmptyCountPositive(Cells());
      emptyCells == 0
    }

    /** Writes move into (row, col) and decrements the counter, with no legality
        check. Only a symbol written into an empty cell keeps the counter true. */
    method PlaceMove(row: int, col: int, move: char)
      requires Shaped() && InRange(size, row, col)
      modifies this, grid
      ensures Shaped()
      ensures Cells() == Set(old(Cells()), row, col, move)
      ensures emptyCells == old(emptyCells) - 1
      ensures old(Valid()) && old(grid[row, col]) == Empty && move != Empty ==> Valid()
    {
      ghost var before := Cells();
      grid[row, col] := move;
      emptyCells := emptyCells - 1;
      assert forall i :: 0 <= i < size ==> Cells()[i] == Set(before, row, col, move)[i];
      if EmptyCount(before) == old(emptyCells) && before[row][col] == Empty && move != Empty {
        EmptyCountUpdate(before, row, col, move);
      }
    }

    /** The stored character of a cell. */
    function GetCell(row: int, col: int): (ch: char)
      reads this, grid
      requires Shaped() && InRange(size, row, col)
      ensures ch == Cells()[row][col]
    {
      grid[row, col]
    }

    /** The side of the board, which is each dimension of the array. */
    function GetSize(): (n: int)
      reads this
      requires Shaped()
      ensures n == grid.Length0 && n == grid.Length1
    {
      size
    }

    /** The coordinates do not address a cell of the array. */
    function OutOfRange(row: int, col: int): (out: bool)
      reads this
      requires Shaped()
      ensures out <==> !(0 <= row < grid.Length0 && 0 <= col < grid.Length1)
    {
      row < 0 || row >= size || col < 0 || col >= size
    }

    /** Empties every cell and restores the counter: the board is then the same
        as a newly constructed board of its size. */
    method Reset()
      requires Shaped()
      modifies this, grid
      ensures Valid()
      ensures Cells() == Blank(size) && emptyCells == size * size
    {
      emptyCells := size * size;
      InitializeGrid();
      BlankCount(size);
    }
  }
}
