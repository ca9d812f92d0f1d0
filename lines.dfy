/** Win detection on a grid snapshot. The engine does not scan whole lines: it
    walks outward from the last move along one axis in both directions and
    counts the contiguous cells holding the mover's symbol. This module gives
    that walk a specification (Run) and proves that, for each of the four axes,
    the count reaches the board's size exactly when the whole row, column or
    diagonal through the last move holds the symbol. */
module Lines {
  import opened Grids

  /** A unit step in one of the eight directions. */
  predicate IsDir(dr: int, dc: int) {
    -1 <= dr <= 1 && -1 <= dc <= 1 && (dr != 0 || dc != 0)
  }

  /** The four axes the engine scans: horizontal, vertical, main diagonal, anti-diagonal. */
  predicate IsAxis(dr: int, dc: int) {
    (dr == 0 && dc == 1) || (dr == 1 && dc == 0) || (dr == 1 && dc == 1) || (dr == 1 && dc == -1)
  }

  /** Coordinate p after t unit steps of sign d. */
  function Step(p: int, d: int, t: int): int {
    if d > 0 then p + t else if d < 0 then p - t else p
  }

  /** How many more unit steps of sign d keep p inside [0, n). */
  function Room(p: int, d: int, n: int): nat {
    if d > 0 then (if p < n then n - p else 0)
    else if d < 0 then (if p >= 0 then p + 1 else 0)
    else 0
  }

  /** Length of the contiguous run of cells holding s that starts at (r, c) and
      follows direction (dr, dc) while it stays on the grid. */
  ghost function Run(g: Grid, n: int, r: int, c: int, dr: int, dc: int, s: char): nat
    requires IsSquare(g, n) && IsDir(dr, dc)
    decreases Room(r, dr, n) + Room(c, dc, n)
  {
    if InRange(n, r, c) && g[r][c] == s then 1 + Run(g, n, r + dr, c + dc, dr, dc, s) else 0
  }

  /** A run never leaves the board: it is at most n cells long, and no longer
      than the room left in each direction it moves along. */
  lemma {:induction false} RunBound(g: Grid, n: int, r: int, c: int, dr: int, dc: int, s: char)
    requires IsSquare(g, n) && IsDir(dr, dc)
    ensures Run(g, n, r, c, dr, dc, s) <= n
    ensures dr != 0 ==> Run(g, n, r, c, dr, dc, s) <= Room(r, dr, n)
    ensures dc != 0 ==> Run(g, n, r, c, dr, dc, s) <= Room(c, dc, n)
    decreases Room(r, dr, n) + Room(c, dc, n)
  {
    if InRange(n, r, c) && g[r][c] == s {
      RunBound(g, n, r + dr, c + dc, dr, dc, s);
    }
  }

  ghost predicate RowFilled(g: Grid, n: int, r: int, s: char)
    requires IsSquare(g, n)
  {
    0 <= r < n && forall j :: 0 <= j < n ==> g[r][j] == s
  }

  ghost predicate ColumnFilled(g: Grid, n: int, c: int, s: char)
    requires IsSquare(g, n)
  {
    0 <= c < n && forall i :: 0 <= i < n ==> g[i][c] == s
  }

  ghost predicate MainDiagonalFilled(g: Grid, n: int, s: char)
    requires IsSquare(g, n)
  {
    forall i :: 0 <= i < n ==> g[i][i] == s
  }

  ghost predicate AntiDiagonalFilled(g: Grid, n: int, s: char)
    requires IsSquare(g, n)
  {
    forall i :: 0 <= i < n ==> g[i][n - 1 - i] == s
  }

  /** The whole line along axis (dr, dc) through (r, c) exists and holds s:
      the row, the column, or a diagonal that (r, c) lies on. */
  ghost predicate LineComplete(g: Grid, n: int, dr: int, dc: int, r: int, c: int, s: char)
    requires IsSquare(g, n)
  {
    if dr == 0 && dc == 1 then RowFilled(g, n, r, s)
    else if dr == 1 && dc == 0 then ColumnFilled(g, n, c, s)
    else if dr == 1 && dc == 1 then 0 <= r < n && r == c && MainDiagonalFilled(g, n, s)
    else if dr == 1 && dc == -1 then 0 <= r < n && r + c == n - 1 && AntiDiagonalFilled(g, n, s)
    else false
  }

  /** One of the four lines through (r, c) holds s. */
  ghost predicate Won(g: Grid, n: int, r: int, c: int, s: char)
    requires IsSquare(g, n)
  {
    LineComplete(g, n, 0, 1, r, c, s) || LineComplete(g, n, 1, 0, r, c, s) ||
    LineComplete(g, n, 1, 1, r, c, s) || LineComplete(g, n, 1, -1, r, c, s)
  }

  /** Some row, column or diagonal anywhere on the grid holds s. */
  ghost predicate SomeLineFilled(g: Grid, n: int, s: char)
    requires IsSquare(g, n)
  {
    (exists i :: 0 <= i < n && RowFilled(g, n, i, s)) ||
    (exists j :: 0 <= j < n && ColumnFilled(g, n, j, s)) ||
    (n > 0 && MainDiagonalFilled(g, n, s)) ||
    (n > 0 && AntiDiagonalFilled(g, n, s))
  }

  /** Every cell the run covers is on the grid and holds s. */
  lemma {:induction false} RunCell(g: Grid, n: int, r: int, c: int, dr: int, dc: int, s: char, t: int)
    requires IsSquare(g, n) && IsDir(dr, dc)
    requires 0 <= t < Run(g, n, r, c, dr, dc, s)
    ensures InRange(n, Step(r, dr, t), Step(c, dc, t)) && g[Step(r, dr, t)][Step(c, dc, t)] == s
    decreases t
  {
    if t > 0 {
      RunCell(g, n, r + dr, c + dc, dr, dc, s, t - 1);
    }
  }

  /** The run is maximal: the first cell past it is off the grid or does not hold s. */
  lemma {:induction false} RunStop(g: Grid, n: int, r: int, c: int, dr: int, dc: int, s: char)
    requires IsSquare(g, n) && IsDir(dr, dc)
    ensures var k := Run(g, n, r, c, dr, dc, s);
      !(InRange(n, Step(r, dr, k), Step(c, dc, k)) && g[Step(r, dr, k)][Step(c, dc, k)] == s)
    decreases Room(r, dr, n) + Room(c, dc, n)
  {
    if InRange(n, r, c) && g[r][c] == s {
      RunStop(g, n, r + dr, c + dc, dr, dc, s);
    }
  }

  /** Horizontal scan: the two runs plus the seed cell cover n cells iff row r holds s. */
  lemma {:induction false} RowScan(g: Grid, n: int, r: int, c: int, s: char)
    requires IsSquare(g, n) && InRange(n, r, c) && g[r][c] == s
    ensures 1 + Run(g, n, r, c + 1, 0, 1, s) + Run(g, n, r, c - 1, 0, -1, s) == n <==> RowFilled(g, n, r, s)
  {
    var f := Run(g, n, r, c + 1, 0, 1, s);
    var b := Run(g, n, r, c - 1, 0, -1, s);
    if f > 0 { RunCell(g, n, r, c + 1, 0, 1, s, f - 1); }
    if b > 0 { RunCell(g, n, r, c - 1, 0, -1, s, b - 1); }
    assert f <= n - 1 - c && b <= c;
    if 1 + f + b == n {
      forall j | 0 <= j < n ensures g[r][j] == s {
        if j > c {
          RunCell(g, n, r, c + 1, 0, 1, s, j - c - 1);
        } else if j < c {
          RunCell(g, n, r, c - 1, 0, -1, s, c - 1 - j);
        }
      }
    }
    if RowFilled(g, n, r, s) {
      RunStop(g, n, r, c + 1, 0, 1, s);
      RunStop(g, n, r, c - 1, 0, -1, s);
    }
  }

  /** Vertical scan: the two runs plus the seed cell cover n cells iff column c holds s. */
  lemma {:induction false} ColumnScan(g: Grid, n: int, r: int, c: int, s: char)
    requires IsSquare(g, n) && InRange(n, r, c) && g[r][c] == s
    ensures 1 + Run(g, n, r + 1, c, 1, 0, s) + Run(g, n, r - 1, c, -1, 0, s) == n <==> ColumnFilled(g, n, c, s)
  {
    var f := Run(g, n, r + 1, c, 1, 0, s);
    var b := Run(g, n, r - 1, c, -1, 0, s);
    if f > 0 { RunCell(g, n, r + 1, c, 1, 0, s, f - 1); }
    if b > 0 { RunCell(g, n, r - 1, c, -1, 0, s, b - 1); }
    assert f <= n - 1 - r && b <= r;
    if 1 + f + b == n {
      forall i | 0 <= i < n ensures g[i][c] == s {
        if i > r {
          RunCell(g, n, r + 1, c, 1, 0, s, i - r - 1);
        } else if i < r {
          RunCell(g, n, r - 1, c, -1, 0, s, r - 1 - i);
        }
      }
    }
    if ColumnFilled(g, n, c, s) {
      RunStop(g, n, r + 1, c, 1, 0, s);
      RunStop(g, n, r - 1, c, -1, 0, s);
    }
  }

  /** A main-diagonal count of n puts (r, c) on the main diagonal and fills it with s. */
  lemma {:induction false} MainDiagonalCovered(g: Grid, n: int, r: int, c: int, s: char)
    requires IsSquare(g, n) && InRange(n, r, c) && g[r][c] == s
    requires 1 + Run(g, n, r + 1, c + 1, 1, 1, s) + Run(g, n, r - 1, c - 1, -1, -1, s) == n
    ensures r == c && MainDiagonalFilled(g, n, s)
  {
    var f := Run(g, n, r + 1, c + 1, 1, 1, s);
    var b := Run(g, n, r - 1, c - 1, -1, -1, s);
    if f > 0 { RunCell(g, n, r + 1, c + 1, 1, 1, s, f - 1); }
    if b > 0 { RunCell(g, n, r - 1, c - 1, -1, -1, s, b - 1); }
    assert f <= n - 1 - r && f <= n - 1 - c && b <= r && b <= c;
    assert r == c;
    forall i | 0 <= i < n ensures g[i][i] == s {
      if i > r {
        RunCell(g, n, r + 1, c + 1, 1, 1, s, i - r - 1);
      } else if i < r {
        RunCell(g, n, r - 1, c - 1, -1, -1, s, r - 1 - i);
      }
    }
  }

  /** On a main diagonal full of s, the runs from (r, c) reach both corners. */
  lemma {:induction false} MainDiagonalReached(g: Grid, n: int, r: int, c: int, s: char)
    requires IsSquare(g, n) && InRange(n, r, c) && r == c && MainDiagonalFilled(g, n, s)
    ensures 1 + Run(g, n, r + 1, c + 1, 1, 1, s) + Run(g, n, r - 1, c - 1, -1, -1, s) == n
  {
    var f := Run(g, n, r + 1, c + 1, 1, 1, s);
    var b := Run(g, n, r - 1, c - 1, -1, -1, s);
    if f > 0 { RunCell(g, n, r + 1, c + 1, 1, 1, s, f - 1); }
    if b > 0 { RunCell(g, n, r - 1, c - 1, -1, -1, s, b - 1); }
    RunStop(g, n, r + 1, c + 1, 1, 1, s);
    RunStop(g, n, r - 1, c - 1, -1, -1, s);
  }

  /** Main-diagonal scan: the count reaches n iff (r, c) is on the main diagonal
      and the whole diagonal holds s. */
  lemma MainDiagonalScan(g: Grid, n: int, r: int, c: int, s: char)
    requires IsSquare(g, n) && InRange(n, r, c) && g[r][c] == s
    ensures 1 + Run(g, n, r + 1, c + 1, 1, 1, s) + Run(g, n, r - 1, c - 1, -1, -1, s) == n
            <==> r == c && MainDiagonalFilled(g, n, s)
  {
    if 1 + Run(g, n, r + 1, c + 1, 1, 1, s) + Run(g, n, r - 1, c - 1, -1, -1, s) == n {
      MainDiagonalCovered(g, n, r, c, s);
    }
    if r == c && MainDiagonalFilled(g, n, s) {
      MainDiagonalReached(g, n, r, c, s);
    }
  }

  /** An anti-diagonal count of n puts (r, c) on the anti-diagonal and fills it with s. */
  lemma {:induction false} AntiDiagonalCovered(g: Grid, n: int, r: int, c: int, s: char)
    requires IsSquare(g, n) && InRange(n, r, c) && g[r][c] == s
    requires 1 + Run(g, n, r + 1, c - 1, 1, -1, s) + Run(g, n, r - 1, c + 1, -1, 1, s) == n
    ensures r + c == n - 1 && AntiDiagonalFilled(g, n, s)
  {
    var f := Run(g, n, r + 1, c - 1, 1, -1, s);
    var b := Run(g, n, r - 1, c + 1, -1, 1, s);
    if f > 0 { RunCell(g, n, r + 1, c - 1, 1, -1, s, f - 1); }
    if b > 0 { RunCell(g, n, r - 1, c + 1, -1, 1, s, b - 1); }
    assert f <= n - 1 - r && f <= c && b <= r && b <= n - 1 - c;
    assert r + c == n - 1;
    forall i | 0 <= i < n ensures g[i][n - 1 - i] == s {
      if i > r {
        RunCell(g, n, r + 1, c - 1, 1, -1, s, i - r - 1);
      } else if i < r {
        RunCell(g, n, r - 1, c + 1, -1, 1, s, r - 1 - i);
      }
    }
  }

  /** On an anti-diagonal full of s, the runs from (r, c) reach both corners. */
  lemma {:induction false} AntiDiagonalReached(g: Grid, n: int, r: int, c: int, s: char)
    requires IsSquare(g, n) && InRange(n, r, c) && r + c == n - 1 && AntiDiagonalFilled(g, n, s)
    ensures 1 + Run(g, n, r + 1, c - 1, 1, -1, s) + Run(g, n, r - 1, c + 1, -1, 1, s) == n
  {
    var f := Run(g, n, r + 1, c - 1, 1, -1, s);
    var b := Run(g, n, r - 1, c + 1, -1, 1, s);
    if f > 0 { RunCell(g, n, r + 1, c - 1, 1, -1, s, f - 1); }
    if b > 0 { RunCell(g, n, r - 1, c + 1, -1, 1, s, b - 1); }
    RunStop(g, n, r + 1, c - 1, 1, -1, s);
    RunStop(g, n, r - 1, c + 1, -1, 1, s);
  }

  /** Anti-diagonal scan: the count reaches n iff (r, c) is on the anti-diagonal
      and the whole anti-diagonal holds s. */
  lemma AntiDiagonalScan(g: Grid, n: int, r: int, c: int, s: char)
    requires IsSquare(g, n) && InRange(n, r, c) && g[r][c] == s
    ensures 1 + Run(g, n, r + 1, c - 1, 1, -1, s) + Run(g, n, r - 1, c + 1, -1, 1, s) == n
            <==> r + c == n - 1 && AntiDiagonalFilled(g, n, s)
  {
    if 1 + Run(g, n, r + 1, c - 1, 1, -1, s) + Run(g, n, r - 1, c + 1, -1, 1, s) == n {
      AntiDiagonalCovered(g, n, r, c, s);
    }
    if r + c == n - 1 && AntiDiagonalFilled(g, n, s) {
      AntiDiagonalReached(g, n, r, c, s);
    }
  }

  /** The cell (r, c) and the runs of s leading away from it in direction
      (dr, dc) and in the opposite direction together count n cells. */
  ghost predicate Spans(g: Grid, n: int, r: int, c: int, dr: int, dc: int, s: char)
    requires IsSquare(g, n) && IsDir(dr, dc)
  {
    1 + Run(g, n, r + dr, c + dc, dr, dc, s) + Run(g, n, r - dr, c - dc, -dr, -dc, s) == n
  }

  /** For every axis the engine scans, the outward count from (r, c) reaches n
      exactly when the whole line along that axis through (r, c) holds s. */
  lemma AxisScan(g: Grid, n: int, r: int, c: int, dr: int, dc: int, s: char)
    requires IsSquare(g, n) && InRange(n, r, c) && g[r][c] == s && IsAxis(dr, dc)
    ensures Spans(g, n, r, c, dr, dc, s) <==> LineComplete(g, n, dr, dc, r, c, s)
  {
    if dr == 0 && dc == 1 {
      RowScan(g, n, r, c, s);
    } else if dr == 1 && dc == 0 {
      ColumnScan(g, n, r, c, s);
    } else if dr == 1 && dc == 1 {
      MainDiagonalScan(g, n, r, c, s);
    } else {
      AntiDiagonalScan(g, n, r, c, s);
    }
  }

  /** A line found through the last move is a real line of the grid. */
  lemma WonIsLine(g: Grid, n: int, r: int, c: int, s: char)
    requires IsSquare(g, n) && Won(g, n, r, c, s)
    ensures SomeLineFilled(g, n, s)
  {
  }

  /** Anchoring the scan at the last move loses nothing: if no line held t before
      s was written at (r, c) and some line holds t afterwards, then t is s and
      that line passes through (r, c) along one of the four scanned axes. */
  lemma {:induction false} AnchoredScanSuffices(g: Grid, n: int, r: int, c: int, s: char, t: char)
    requires IsSquare(g, n) && InRange(n, r, c)
    requires !SomeLineFilled(g, n, t)
    requires SomeLineFilled(Set(g, r, c, s), n, t)
    ensures t == s && Won(Set(g, r, c, s), n, r, c, s)
  {
    var g' := Set(g, r, c, s);
    if exists i :: 0 <= i < n && RowFilled(g', n, i, t) {
      var i :| 0 <= i < n && RowFilled(g', n, i, t);
      assert !RowFilled(g, n, i, t);
      var j :| 0 <= j < n && g[i][j] != t;
      assert g'[i][j] == t;
      assert i == r;
      assert g'[r][c] == t;
    } else if exists j :: 0 <= j < n && ColumnFilled(g', n, j, t) {
      var j :| 0 <= j < n && ColumnFilled(g', n, j, t);
      assert !ColumnFilled(g, n, j, t);
      var i :| 0 <= i < n && g[i][j] != t;
      assert g'[i][j] == t;
      assert j == c;
      assert g'[r][c] == t;
    } else if n > 0 && MainDiagonalFilled(g', n, t) {
      var i :| 0 <= i < n && g[i][i] != t;
      assert g'[i][i] == t;
      assert r == c;
      assert g'[r][r] == t;
    } else {
      var i :| 0 <= i < n && g[i][n - 1 - i] != t;
      assert g'[i][n - 1 - i] == t;
      assert r + c == n - 1;
      assert g'[r][n - 1 - r] == t;
    }
  }

  /** The grid after X(0,0), O(1,1), X(0,1), O(2,2), X(0,2) on a 3×3 board:
      the last move completes the top row, while cells remain empty. */
  lemma TopRowWin()
    ensures var g := Set(Set(Set(Set(Set(Blank(3), 0, 0, 'X'), 1, 1, 'O'), 0, 1, 'X'), 2, 2, 'O'), 0, 2, 'X');
      IsSquare(g, 3) && Won(g, 3, 0, 2, 'X') && HasEmpty(g)
  {
    var g := Set(Set(Set(Set(Set(Blank(3), 0, 0, 'X'), 1, 1, 'O'), 0, 1, 'X'), 2, 2, 'O'), 0, 2, 'X');
    assert g[0] == "XXX";
    assert g[1][0] == Empty;
  }

  /** The full 3×3 grid X O X / X O O / O X X. */
  const Drawn: Grid := ["XOX", "XOO", "OXX"]

  /** No row, column or diagonal of the drawn grid holds a single symbol. */
  lemma DrawnGridNoLine(s: char)
    ensures IsSquare(Drawn, 3) && !SomeLineFilled(Drawn, 3, s)
  {
    forall i | 0 <= i < 3 ensures Drawn[i][0] != Drawn[i][1] && Drawn[1][i] != Drawn[2][i] {
    }
    assert Drawn[0][0] != Drawn[1][1] && Drawn[0][2] != Drawn[1][1];
  }

  /** Every cell of the drawn grid holds a symbol. */
  lemma DrawnGridFull()
    ensures IsSquare(Drawn, 3) && !HasEmpty(Drawn)
  {
    forall i, j | 0 <= i < 3 && 0 <= j < 3 ensures Drawn[i][j] != Empty {
    }
  }

  /** Whatever cell of the drawn grid was played last, no line through it is
      complete, and no cell is left: the outcome is a draw. */
  lemma DrawnGrid()
    ensures IsSquare(Drawn, 3) && !HasEmpty(Drawn)
    ensures forall r, c :: InRange(3, r, c) ==> !Won(Drawn, 3, r, c, Drawn[r][c])
  {
    DrawnGridFull();
    forall r, c | InRange(3, r, c) ensures !Won(Drawn, 3, r, c, Drawn[r][c]) {
      DrawnGridNoLine(Drawn[r][c]);
      if Won(Drawn, 3, r, c, Drawn[r][c]) {
        WonIsLine(Drawn, 3, r, c, Drawn[r][c]);
      }
    }
  }
}
