/** The game engine: one board, one turn manager and the position of the last
    move. It validates and plays the human's moves, plays the computer's moves
    on a cell chosen among the empty ones, and reports the game's state by
    scanning the four lines through the last move. */
module Engine {
  import opened Grids
  import opened Lines
  import opened Boards
  import opened Turns

  datatype Option<T> = None | Some(value: T)

  /** A cell's coordinates, as the computer's move returns them. */
  datatype Position = Position(row: int, col: int)

  /** How the human-move guard ends: the move is refused, accepted, or the
      guard itself fails on an array access out of bounds. */
  datatype GuardResult = Rejected | Accepted | IndexOutOfBounds

  /** The human-move guard in the order the source evaluates it: emptiness of
      the cell first, then the range check, then the turn. Reading the cell of
      an out-of-range coordinate fails before the range check is reached, so
      every out-of-range move ends in an out-of-bounds failure instead of a
      refusal, and the range check never decides anything. */
  function GuardAsWritten(g: Grid, n: int, row: int, col: int, playerTurn: bool): (r: GuardResult)
    requires IsSquare(g, n)
    ensures r == IndexOutOfBounds <==> !InRange(n, row, col)
    ensures r == Accepted <==> InRange(n, row, col) && g[row][col] == Empty && playerTurn
  {
    if !(0 <= row < n && 0 <= col < n) then IndexOutOfBounds
    else if g[row][col] != Empty then Rejected
    else if row < 0 || row >= n || col < 0 || col >= n then Rejected
    else if !playerTurn then Rejected
    else Accepted
  }

  /** Row 3 of a 3×3 board, on the human's turn: the guard as written fails
      instead of refusing the move. */
  lemma OutOfRangeMoveThrows()
    ensures GuardAsWritten(Blank(3), 3, 3, 0, true) == IndexOutOfBounds
  {
    BlankCount(3);
  }

  class BoardManager {
    const board: Board
    const gameState: TurnManager
    var lastRow: int
    var lastCol: int
    /** A move has been played since the grid was last emptied, so the last
        position holds a symbol. */
    ghost var moved: bool

    ghost predicate Valid()
      reads this, board, board.grid, gameState
    {
      board.Valid() && gameState.Valid() &&
      InRange(board.size, lastRow, lastCol) &&
      (moved ==> IsSymbol(board.grid[lastRow, lastCol]))
    }

    /** A new game on an empty size×size board, the human playing playerRole. */
    constructor (size: int, playerRole: char)
      requires size >= 3 && IsSymbol(playerRole)
      ensures Valid() && fresh(board) && fresh(board.grid) && fresh(gameState)
      ensures board.size == size && board.Cells() == Blank(size) && board.emptyCells == size * size
      ensures gameState.ArmedFor(playerRole) && !moved
      ensures lastRow == 0 && lastCol == 0
    {
      board := new Board(size);
      gameState := new TurnManager(playerRole);
      lastRow, lastCol := 0, 0;
      moved := false;
    }

    /** Plays the human's move at (row, col) if the coordinates are on the
        board, the cell is empty and it is the human's turn; otherwise refuses
        it and changes nothing. The range is checked first. */
    method PlayerTurn(row: int, col: int) returns (ok: bool)
      requires Valid()
      modifies this, board, board.grid, gameState
      ensures Valid()
      ensures ok <==> old(InRange(board.size, row, col) && board.grid[row, col] == Empty && gameState.playerTurn)
      ensures !ok ==> unchanged(this, board, board.grid, gameState)
      ensures ok ==> board.Cells() == Set(old(board.Cells()), row, col, old(gameState.playerRole))
      ensures ok ==> board.emptyCells == old(board.emptyCells) - 1
      ensures ok ==> lastRow == row && lastCol == col && moved
      ensures ok ==> !gameState.playerTurn && unchanged(gameState`playerRole, gameState`computerRole)
    {
      if board.OutOfRange(row, col) || !board.IsCellEmpty(row, col) || !gameState.IsPlayerTurn() {
        return false;
      }
      NextMove(row, col);
      return true;
    }

    /** On the computer's turn, plays the computer's symbol on an empty cell
        and returns it; on the human's turn returns None and changes nothing.
        The source draws random cells until it finds an empty one, so it never
        returns on a full board. */
    method ComputerTurn() returns (move: Option<Position>)
      requires Valid()
      requires !gameState.IsPlayerTurn() ==> !board.IsFull()
      modifies this, board, board.grid, gameState
      ensures Valid()
      ensures old(gameState.playerTurn) ==> move == None && unchanged(this, board, board.grid, gameState)
      ensures !old(gameState.playerTurn) ==> (
        move.Some? &&
        var p := move.value;
        InRange(board.size, p.row, p.col) && old(board.grid[p.row, p.col]) == Empty &&
        board.Cells() == Set(old(board.Cells()), p.row, p.col, gameState.computerRole) &&
        board.emptyCells == old(board.emptyCells) - 1 &&
        lastRow == p.row && lastCol == p.col && moved &&
        gameState.playerTurn && unchanged(gameState`playerRole, gameState`computerRole))
    {
      if gameState.IsPlayerTurn() {
        return None;
      }
      var size := board.GetSize();
      ghost var g := board.Cells();
      ghost var i, j :| 0 <= i < size && 0 <= j < size && g[i][j] == Empty;
      assert board.grid[i, j] == Empty;
      var row, col :| 0 <= row < size && 0 <= col < size && board.grid[row, col] == Empty;
      NextMove(row, col);
      return Some(Position(row, col));
    }

    /** Plays the symbol due to move at an empty cell, records the position and
        passes the turn. */
    method NextMove(row: int, col: int)
      requires Valid() && InRange(board.size, row, col) && board.grid[row, col] == Empty
      modifies this, board, board.grid, gameState
      ensures Valid() && moved && lastRow == row && lastCol == col
      ensures board.Cells() == Set(old(board.Cells()), row, col, old(gameState.GetCurrentRole()))
      ensures board.emptyCells == old(board.emptyCells) - 1
      ensures gameState.playerTurn == !old(gameState.playerTurn)
      ensures unchanged(gameState`playerRole, gameState`computerRole)
    {
      board.PlaceMove(row, col, gameState.GetCurrentRole());
      lastRow := row;
      lastCol := col;
      moved := true;
      gameState.SwitchTurn();
    }

    /** The game's state after the last move: 1 if a line through it holds the
        human's symbol, -1 if it holds another symbol, otherwise 0 on a full
        board and 2 while cells remain empty. */
    method CheckState() returns (state: int)
      requires Valid()
      ensures var g := board.Cells(); var s := g[lastRow][lastCol];
        (state == 1 <==> Won(g, board.size, lastRow, lastCol, s) && s == gameState.playerRole) &&
        (state == -1 <==> Won(g, board.size, lastRow, lastCol, s) && s != gameState.playerRole) &&
        (state == 0 <==> !Won(g, board.size, lastRow, lastCol, s) && !HasEmpty(g)) &&
        (state == 2 <==> !Won(g, board.size, lastRow, lastCol, s) && HasEmpty(g))
      ensures moved && state == -1 ==> board.Cells()[lastRow][lastCol] == gameState.computerRole
      ensures board.Cells() == Blank(board.size) ==> state == -1
    {
      var lastMove := board.GetCell(lastRow, lastCol);
      var complete := AnyCompleteLine(lastMove);
      if complete {
        if gameState.RoleIsPlayer(lastMove) {
          return 1;
        }
        if moved {
          ComplementPair(gameState.playerRole);
        }
        return -1;
      }
      if board.IsFull() {
        return 0;
      }
      return 2;
    }

    /** The four scans through the last move, horizontal, vertical, main
        diagonal and anti-diagonal, each tried only while the previous ones
        found nothing: some line through the last move holds its symbol. */
    method AnyCompleteLine(lastMove: char) returns (complete: bool)
      requires board.Shaped() && InRange(board.size, lastRow, lastCol)
      requires board.Cells()[lastRow][lastCol] == lastMove
      ensures complete <==> Won(board.Cells(), board.size, lastRow, lastCol, lastMove)
    {
      ghost var g := board.Cells();
      AxisScan(g, board.size, lastRow, lastCol, 0, 1, lastMove);
      complete := IsCompleteLine(0, 1, lastMove);
      assert board.Cells() == g;
      if !complete {
        AxisScan(g, board.size, lastRow, lastCol, 1, 0, lastMove);
        complete := IsCompleteLine(1, 0, lastMove);
        assert board.Cells() == g;
      }
      if !complete {
        AxisScan(g, board.size, lastRow, lastCol, 1, 1, lastMove);
        complete := IsCompleteLine(1, 1, lastMove);
        assert board.Cells() == g;
      }
      if !complete {
        AxisScan(g, board.size, lastRow, lastCol, 1, -1, lastMove);
        complete := IsCompleteLine(1, -1, lastMove);
        assert board.Cells() == g;
      }
    }

    /** Counts the cells holding symbol contiguously on both sides of the last
        move along (rowDirection, colDirection), plus the last move itself, and
        reports whether the count is the board's size. Each of the two walks is
        one loop, run by CountRun; AxisScan relates the result to whole lines. */
    method IsCompleteLine(rowDirection: int, colDirection: int, symbol: char) returns (complete: bool)
      requires board.Shaped() && InRange(board.size, lastRow, lastCol) && IsDir(rowDirection, colDirection)
      ensures complete <==> Spans(board.Cells(), board.size, lastRow, lastCol, rowDirection, colDirection, symbol)
    {
      ghost var g := board.Cells();
      var forward := CountRun(lastRow + rowDirection, lastCol + colDirection, rowDirection, colDirection, symbol);
      var backward := CountRun(lastRow - rowDirection, lastCol - colDirection, -rowDirection, -colDirection, symbol);
      assert board.Cells() == g;
      complete := 1 + forward + backward == board.GetSize();
    }

    /** Walks from (r0, c0) by steps of (dr, dc) while the cell is on the board
        and holds symbol, and returns how many cells it passed: the length of
        the run of symbol starting there. */
    method CountRun(r0: int, c0: int, dr: int, dc: int, symbol: char) returns (k: int)
      requires board.Shaped() && IsDir(dr, dc)
      ensures k == Run(board.Cells(), board.size, r0, c0, dr, dc, symbol)
    {
      k := 0;
      var size := board.GetSize();
      ghost var g := board.Cells();
      var r, c := r0, c0;
      while r >= 0 && r < size && c >= 0 && c < size && board.GetCell(r, c) == symbol
        invariant k + Run(g, size, r, c, dr, dc, symbol) == Run(g, size, r0, c0, dr, dc, symbol)
        decreases Room(r, dr, size) + Room(c, dc, size)
      {
        k := k + 1;
        r := r + dr;
        c := c + dc;
      }
    }

    /** The symbol due to move: always 'X' or 'O' in a game, and the human's
        exactly on the human's turn. */
    function GetCurrentRole(): (role: char)
      reads this, gameState
      ensures role == gameState.GetCurrentRole()
      ensures gameState.Valid() ==> IsSymbol(role) && (role == gameState.playerRole <==> gameState.playerTurn)
    {
      gameState.GetCurrentRole()
    }

    /** Gives the human a new role and recomputes the turn; the board and the
        last move stay. */
    method SetRole(playerRole: char)
      requires Valid() && IsSymbol(playerRole)
      modifies gameState
      ensures Valid() && gameState.ArmedFor(playerRole)
      ensures unchanged(this, board, board.grid)
    {
      gameState.SetRole(playerRole);
    }

    /** Empties the board for a new round; turn state and last position stay. */
    method ResetGrid()
      requires Valid()
      modifies this, board, board.grid
      ensures Valid() && !moved
      ensures board.Cells() == Blank(board.size) && board.emptyCells == board.size * board.size
      ensures lastRow == old(lastRow) && lastCol == old(lastCol) && unchanged(gameState)
    {
      board.Reset();
      moved := false;
    }
  }

  /** With one empty cell left, the computer's move is that cell. */
  method LastEmptyCellIsChosen(m: BoardManager, r: int, c: int) returns (move: Option<Position>)
    requires m.Valid() && !m.gameState.playerTurn && m.board.emptyCells == 1
    requires InRange(m.board.size, r, c) && m.board.grid[r, c] == Empty
    modifies m, m.board, m.board.grid, m.gameState
    ensures move == Some(Position(r, c))
  {
    ghost var before := m.board.Cells();
    EmptyCountPositive(before);
    move := m.ComputerTurn();
    OnlyEmptyCell(before, r, c, move.value.row, move.value.col);
  }

  /** The human plays a move and the computer answers: each party moved once,
      and the turn is back with the human. */
  method MoveAndAnswer(m: BoardManager, row: int, col: int) returns (ok: bool, answer: Option<Position>)
    requires m.Valid() && m.gameState.playerTurn && m.board.emptyCells >= 2
    modifies m, m.board, m.board.grid, m.gameState
    ensures ok <==> old(InRange(m.board.size, row, col) && m.board.grid[row, col] == Empty)
    ensures ok ==> answer.Some? && answer.value != Position(row, col) && m.gameState.playerTurn
    ensures ok ==> m.board.emptyCells == old(m.board.emptyCells) - 2
  {
    ok := m.PlayerTurn(row, col);
    answer := None;
    if ok {
      answer := m.ComputerTurn();
    }
  }
}
