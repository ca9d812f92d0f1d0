/** Value-level view of a game grid: a square of characters where ' ' marks
    an empty cell. The board class keeps its cells in an array; this module
    gives that array's contents a snapshot type and proves the facts about
    counting empty cells that the board's counter relies on. */
module Grids {

  /** The empty-cell marker. */
  const Empty: char := ' '

  /** A snapshot of the cells, row by row. */
  type Grid = seq<seq<char>>

  /** The two symbols the parties play with. */
  predicate IsSymbol(ch: char) {
    ch == 'X' || ch == 'O'
  }

  /** g has n rows of n cells each. */
  ghost predicate IsSquare(g: Grid, n: int) {
    |g| == n && forall i :: 0 <= i < |g| ==> |g[i]| == n
  }

  predicate InRange(n: int, row: int, col: int) {
    0 <= row < n && 0 <= col < n
  }

  /** The grid of side n with every cell empty. */
  ghost function Blank(n: nat): (g: Grid)
  {
    seq(n, i => seq(n, j => Empty))
  }

  /** g with the one cell (row, col) replaced by m. */
  ghost function Set(g: Grid, row: int, col: int, m: char): (g': Grid)
    requires 0 <= row < |g| && 0 <= col < |g[row]|
    ensures |g'| == |g| && forall i :: 0 <= i < |g| ==> |g'[i]| == |g[i]|
    ensures g'[row][col] == m
    ensures forall i, j :: 0 <= i < |g| && 0 <= j < |g[i]| && (i != row || j != col) ==> g'[i][j] == g[i][j]
  {
    g[row := g[row][col := m]]
  }

  /** Some cell of g is empty. */
  ghost predicate HasEmpty(g: Grid) {
    exists i, j :: 0 <= i < |g| && 0 <= j < |g[i]| && g[i][j] == Empty
  }

  /** Number of empty cells in one row. */
  ghost function RowEmptyCount(row: seq<char>): nat
  {
    if row == [] then 0 else (if row[0] == Empty then 1 else 0) + RowEmptyCount(row[1..])
  }

  /** Number of empty cells in the whole grid. */
  ghost function EmptyCount(g: Grid): nat
  {
    if g == [] then 0 else RowEmptyCount(g[0]) + EmptyCount(g[1..])
  }

  /** Writing a symbol into an empty cell of a row lowers its empty count by exactly one. */
  lemma {:induction false} RowEmptyCountUpdate(row: seq<char>, col: int, m: char)
    requires 0 <= col < |row| && row[col] == Empty && m != Empty
    ensures RowEmptyCount(row[col := m]) == RowEmptyCount(row) - 1
  {
    if col > 0 {
      assert row[col := m][1..] == row[1..][col - 1 := m];
      RowEmptyCountUpdate(row[1..], col - 1, m);
    } else {
      assert row[col := m][1..] == row[1..];
    }
  }

  /** Writing a symbol into an empty cell lowers the grid's empty count by exactly one. */
  lemma {:induction false} EmptyCountUpdate(g: Grid, row: int, col: int, m: char)
    requires 0 <= row < |g| && 0 <= col < |g[row]| && g[row][col] == Empty && m != Empty
    ensures EmptyCount(Set(g, row, col, m)) == EmptyCount(g) - 1
  {
    var g' := Set(g, row, col, m);
    if row == 0 {
      assert g'[1..] == g[1..];
      RowEmptyCountUpdate(g[0], col, m);
    } else {
      assert g'[1..] == Set(g[1..], row - 1, col, m);
      EmptyCountUpdate(g[1..], row - 1, col, m);
    }
  }

  /** A row has an empty cell exactly when its empty count is positive. */
  lemma {:induction false} RowEmptyCountPositive(row: seq<char>)
    ensures RowEmptyCount(row) > 0 <==> exists j :: 0 <= j < |row| && row[j] == Empty
  {
    if row != [] {
      RowEmptyCountPositive(row[1..]);
      if exists j :: 0 <= j < |row[1..]| && row[1..][j] == Empty {
        var j :| 0 <= j < |row[1..]| && row[1..][j] == Empty;
        assert row[j + 1] == Empty;
      }
      if exists j :: 0 <= j < |row| && row[j] == Empty {
        var j :| 0 <= j < |row| && row[j] == Empty;
        if j > 0 {
          assert row[1..][j - 1] == Empty;
        }
      }
    }
  }

  /** The counter view and the cell view of "the grid is full" agree. */
  lemma {:induction false} EmptyCountPositive(g: Grid)
    ensures EmptyCount(g) > 0 <==> HasEmpty(g)
  {
    if g != [] {
      EmptyCountPositive(g[1..]);
      RowEmptyCountPositive(g[0]);
      if HasEmpty(g[1..]) {
        var i, j :| 0 <= i < |g[1..]| && 0 <= j < |g[1..][i]| && g[1..][i][j] == Empty;
        assert g[i + 1][j] == Empty;
      }
      if HasEmpty(g) {
        var i, j :| 0 <= i < |g| && 0 <= j < |g[i]| && g[i][j] == Empty;
        if i > 0 {
          assert g[1..][i - 1][j] == Empty;
        }
      }
    }
  }

  /** A row of n cells holds at most n empty ones, and exactly n when all are empty. */
  lemma {:induction false} RowEmptyCountBound(row: seq<char>)
    ensures RowEmptyCount(row) <= |row|
    ensures (forall j :: 0 <= j < |row| ==> row[j] == Empty) ==> RowEmptyCount(row) == |row|
  {
    if row != [] {
      RowEmptyCountBound(row[1..]);
      if forall j :: 0 <= j < |row| ==> row[j] == Empty {
        assert forall j :: 0 <= j < |row[1..]| ==> row[1..][j] == Empty by {
          forall j | 0 <= j < |row[1..]| ensures row[1..][j] == Empty {
            assert row[1..][j] == row[j + 1];
          }
        }
      }
    }
  }

  /** k rows of n cells hold at most k*n empty cells, and exactly k*n when all are empty. */
  lemma {:induction false} EmptyCountBound(g: Grid, n: nat)
    requires forall i :: 0 <= i < |g| ==> |g[i]| == n
    ensures EmptyCount(g) <= |g| * n
    ensures (forall i, j :: 0 <= i < |g| && 0 <= j < n ==> g[i][j] == Empty) ==> EmptyCount(g) == |g| * n
  {
    if g != [] {
      EmptyCountBound(g[1..], n);
      RowEmptyCountBound(g[0]);
      assert |g| * n == n + |g[1..]| * n;
      if forall i, j :: 0 <= i < |g| && 0 <= j < n ==> g[i][j] == Empty {
        assert forall i, j :: 0 <= i < |g[1..]| && 0 <= j < n ==> g[1..][i][j] == Empty by {
          forall i, j | 0 <= i < |g[1..]| && 0 <= j < n ensures g[1..][i][j] == Empty {
            assert g[1..][i] == g[i + 1];
          }
        }
      }
    }
  }

  /** The blank grid of side n is square and has n*n empty cells. */
  lemma BlankCount(n: nat)
    ensures IsSquare(Blank(n), n)
    ensures EmptyCount(Blank(n)) == n * n
  {
    EmptyCountBound(Blank(n), n);
  }

  /** When exactly one cell is empty, a cell found empty is that cell: a random
      pick among empty cells has only one outcome. */
  lemma OnlyEmptyCell(g: Grid, r: int, c: int, r': int, c': int)
    requires EmptyCount(g) == 1
    requires 0 <= r < |g| && 0 <= c < |g[r]| && g[r][c] == Empty
    requires 0 <= r' < |g| && 0 <= c' < |g[r']| && g[r'][c'] == Empty
    ensures r == r' && c == c'
  {
    if r != r' || c != c' {
      var g' := Set(g, r, c, 'X');
      EmptyCountUpdate(g, r, c, 'X');
      assert g'[r'][c'] == Empty;
      EmptyCountPositive(g');
    }
  }
}
