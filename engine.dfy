/**
 * The game engine of script.js as an object: the module-level variables `board`,
 * `currentPlayer`, `scores`, `gameOver`, `isRemovalPhase`, `removalTurnsLeft` and
 * `playerBeforeBoardFull` become the fields of a Match, and the engine's functions become
 * its methods. Each method is proved to perform the step of Rules or to compute the
 * function of Board or Strategy that specifies it.
 */
module Engine {
  import opened Wrappers
  import opened Board
  import opened Rules
  import opened Strategy

  class Match {
    /** The 5×5 board, indexed [row, col]. */
    const board: array2<Cell>
    var currentPlayer: Player
    var scoreX: nat
    var scoreO: nat
    var gameOver: bool
    var isRemovalPhase: bool
    var removalTurnsLeft: int
    var playerBeforeBoardFull: Option<Player>

    ghost predicate Valid() {
      board.Length0 == N && board.Length1 == N
    }

    /** The board's contents as a value. */
    ghost function Snapshot(): (g: Grid)
      requires Valid()
      reads board
      ensures forall r, c :: InBounds(r, c) ==> g[r][c] == board[r, c]
    {
      var b := board;
      seq(N, r requires 0 <= r < b.Length0 reads b =>
        seq(b.Length1, c requires 0 <= c < b.Length1 reads b => b[r, c]))
    }

    /** The whole game state as a value. */
    ghost function Abstract(): (s: Game)
      requires Valid()
      reads this, board
    {
      Game(Snapshot(), currentPlayer, scoreX, scoreO, gameOver, isRemovalPhase,
           removalTurnsLeft, playerBeforeBoardFull)
    }

    lemma SnapshotIs(g: Grid)
      requires Valid()
      requires forall r, c :: InBounds(r, c) ==> board[r, c] == g[r][c]
      ensures Snapshot() == g
    {
      var s := Snapshot();
      forall r | 0 <= r < N ensures s[r] == g[r] {
        assert forall c :: 0 <= c < N ==> s[r][c] == g[r][c];
      }
    }

    /** initGame: an empty board, X to move, no scores, no removal phase. */
    constructor ()
      ensures Valid() && Abstract() == Initial
    {
      board := new Cell[N, N]((r, c) => Empty);
      currentPlayer := X;
      scoreX, scoreO := 0, 0;
      gameOver := false;
      isRemovalPhase := false;
      removalTurnsLeft := 0;
      playerBeforeBoardFull := None;
      new;
      SnapshotIs(EmptyGrid);
    }

    // -------------------------------------------------------------------------
    // Board queries
    // -------------------------------------------------------------------------

    /**
     * One inner loop of checkWin and getMaxLineLengthContaining: step from (r, c) along the
     * axis while the next cell is on the board and holds `player`, at most `steps` times.
     */
    method ScanRay(player: Cell, r: int, c: int, axis: Axis, forward: bool, steps: nat) returns (cells: seq<Pos>)
      requires Valid()
      ensures cells == Ray(Snapshot(), player, r, c, axis, forward, steps)
    {
      ghost var g := Snapshot();
      var dr, dc := DRow(axis, forward), DCol(axis, forward);
      cells := [];
      var nr, nc := r, c;
      var i: nat := 0;
      while i < steps
        invariant i <= steps
        invariant cells + Walk(g, player, nr, nc, dr, dc, steps - i) == Walk(g, player, r, c, dr, dc, steps)
        decreases steps - i
      {
        var tr, tc := nr + dr, nc + dc;
        if !(InBounds(tr, tc) && board[tr, tc] == player) {
          break;
        }
        WalkAdvance(g, player, r, c, dr, dc, steps, cells, nr, nc, steps - i);
        cells := cells + [Pos(tr, tc)];
        nr, nc := tr, tc;
        i := i + 1;
      }
      WalkStop(g, player, r, c, dr, dc, steps, cells, nr, nc, steps - i);
    }

    /**
     * The body of checkWin's loop over the axes: the cell itself, then the cells collected
     * forwards, then backwards.
     */
    method AxisRun(player: Cell, r: int, c: int, axis: Axis, steps: nat) returns (winningCells: seq<Pos>)
      requires Valid()
      ensures winningCells == Run(Snapshot(), player, r, c, axis, steps)
    {
      var fwd := ScanRay(player, r, c, axis, true, steps);
      var bwd := ScanRay(player, r, c, axis, false, steps);
      winningCells := [Pos(r, c)] + fwd + bwd;
    }

    /**
     * checkWin(lastRow, lastCol, connectLength): the cells of a line of exactly connectLength
     * through the cell, which holds a symbol, all of that symbol; nothing for an empty cell.
     */
    method CheckWin(lastRow: int, lastCol: int, connectLength: nat) returns (win: Option<seq<Pos>>)
      requires Valid() && InBounds(lastRow, lastCol)
      ensures win == WinningCells(Snapshot(), lastRow, lastCol, connectLength)
      ensures board[lastRow, lastCol] == Empty ==> win == None
      ensures win.Some? ==>
        && board[lastRow, lastCol] != Empty
        && |win.value| == connectLength
        && AllInBounds(win.value)
        && exists a ::
             && win.value == Run(Snapshot(), board[lastRow, lastCol], lastRow, lastCol, a, Steps(connectLength))
             && IsLineThrough(win.value, Snapshot(), board[lastRow, lastCol], lastRow, lastCol, a)
    {
      ghost var g := Snapshot();
      var player := board[lastRow, lastCol];
      if player == Empty {
        return None;
      }
      var k := 0;
      while k < |Axes|
        invariant k <= |Axes|
        invariant WinFrom(g, lastRow, lastCol, connectLength, k) == WinningCells(g, lastRow, lastCol, connectLength)
      {
        var winningCells := AxisRun(player, lastRow, lastCol, Axes[k], Steps(connectLength));
        WinFromStep(g, lastRow, lastCol, connectLength, k);
        if |winningCells| == connectLength {
          WinningCellsShape(g, lastRow, lastCol, connectLength);
          return Some(winningCells);
        }
        k := k + 1;
      }
      return None;
    }

    /** isBoardFull: true exactly when no cell is empty. */
    method IsBoardFull() returns (full: bool)
      requires Valid()
      ensures full <==> Full(Snapshot())
      ensures full <==> EmptyCells(Snapshot()) == []
    {
      FullIffNoEmptyCells(Snapshot());
      var r := 0;
      while r < N
        invariant 0 <= r <= N
        invariant forall r', c' :: 0 <= r' < r && 0 <= c' < N ==> board[r', c'] != Empty
      {
        var c := 0;
        while c < N
          invariant 0 <= c <= N
          invariant forall c' :: 0 <= c' < c ==> board[r, c'] != Empty
        {
          if board[r, c] == Empty {
            return false;
          }
          c := c + 1;
        }
        r := r + 1;
      }
      return true;
    }

    /**
     * The row-major scan of getEmptyCells and of getAIRemovalMove's opponentCells: every
     * cell holding v, each once, in row-major order.
     */
    method CellsHolding(v: Cell) returns (cells: seq<Pos>)
      requires Valid()
      ensures cells == CellsOf(Snapshot(), v)
      ensures forall q :: q in cells <==> InBounds(q.row, q.col) && board[q.row, q.col] == v
      ensures RowMajor(cells) && AllInBounds(cells)
    {
      ghost var g := Snapshot();
      cells := [];
      var r := 0;
      while r < N
        invariant 0 <= r <= N
        invariant cells == CellsBefore(g, v, r)
      {
        var c := 0;
        while c < N
          invariant 0 <= c <= N
          invariant cells == CellsBefore(g, v, r) + RowCells(g, v, r, c)
        {
          if board[r, c] == v {
            assert cells + [Pos(r, c)] == CellsBefore(g, v, r) + (RowCells(g, v, r, c) + [Pos(r, c)]);
            cells := cells + [Pos(r, c)];
          }
          c := c + 1;
        }
        r := r + 1;
      }
      CellsOfSpec(g, v);
    }

    /** getEmptyCells. */
    method GetEmptyCells() returns (cells: seq<Pos>)
      requires Valid()
      ensures cells == EmptyCells(Snapshot())
      ensures forall q :: q in cells <==> InBounds(q.row, q.col) && board[q.row, q.col] == Empty
      ensures RowMajor(cells) && AllInBounds(cells)
      ensures cells == [] <==> Full(Snapshot())
    {
      FullIffNoEmptyCells(Snapshot());
      cells := CellsHolding(Empty);
    }

    /**
     * getMaxLineLengthContaining(r, c, player): the longest of the four axis counts through
     * (r, c), counting the cell itself whatever it holds.
     */
    method GetMaxLineLengthContaining(r: int, c: int, player: Cell) returns (maxLength: nat)
      requires Valid()
      ensures maxLength == MaxLineLength(Snapshot(), player, r, c)
      ensures 1 <= maxLength
      ensures forall a: Axis :: RunLength(Snapshot(), player, r, c, a) <= maxLength
      ensures exists a: Axis :: RunLength(Snapshot(), player, r, c, a) == maxLength
    {
      ghost var g := Snapshot();
      MaxLineLengthIsMax(g, player, r, c);
      maxLength := 0;
      var k := 0;
      while k < |Axes|
        invariant k <= |Axes|
        invariant maxLength == MaxUpTo(g, player, r, c, k)
      {
        var fwd := ScanRay(player, r, c, Axes[k], true, N - 1);
        var bwd := ScanRay(player, r, c, Axes[k], false, N - 1);
        var currentLength := 1 + |fwd| + |bwd|;
        maxLength := Max(maxLength, currentLength);
        k := k + 1;
      }
    }

    // -------------------------------------------------------------------------
    // Board updates
    // -------------------------------------------------------------------------

    /** `board[row][col] = v`. */
    method WriteCell(row: int, col: int, v: Cell)
      requires Valid() && InBounds(row, col)
      modifies board
      ensures Snapshot() == Set(old(Snapshot()), Pos(row, col), v)
    {
      ghost var h := Set(Snapshot(), Pos(row, col), v);
      board[row, col] := v;
      SnapshotIs(h);
    }

    /** placeSymbol(row, col, player). */
    method PlaceSymbol(row: int, col: int, player: Player)
      requires Valid() && InBounds(row, col)
      modifies board
      ensures Snapshot() == Set(old(Snapshot()), Pos(row, col), player)
    {
      WriteCell(row, col, player);
    }

    /** removeSymbol(row, col): the cell becomes empty (it is only written when it held a symbol). */
    method RemoveSymbol(row: int, col: int)
      requires Valid() && InBounds(row, col)
      modifies board
      ensures Snapshot() == Set(old(Snapshot()), Pos(row, col), Empty)
    {
      var player := board[row, col];
      if player != Empty {
        WriteCell(row, col, Empty);
      } else {
        SetSame(Snapshot(), Pos(row, col));
      }
    }

    /** highlightAndClearCells(cells): removeSymbol on each cell in turn. */
    method HighlightAndClearCells(cells: seq<Pos>)
      requires Valid() && AllInBounds(cells)
      modifies board
      ensures Snapshot() == ClearCells(old(Snapshot()), cells)
    {
      ghost var g := Snapshot();
      var i := 0;
      while i < |cells|
        invariant 0 <= i <= |cells|
        invariant Snapshot() == ClearCells(g, cells[..i])
      {
        assert cells[..i + 1][..i] == cells[..i];
        RemoveSymbol(cells[i].row, cells[i].col);
        i := i + 1;
      }
      assert cells[..|cells|] == cells;
    }

    // -------------------------------------------------------------------------
    // Turn and score bookkeeping
    // -------------------------------------------------------------------------

    /** updateScore(player, points). */
    method UpdateScore(player: Player, points: nat)
      requires Valid()
      modifies this
      ensures Abstract() == AddScore(old(Abstract()), player, points)
    {
      if player == X {
        scoreX := scoreX + points;
      } else {
        scoreO := scoreO + points;
      }
    }

    /** switchPlayer. */
    method SwitchPlayer()
      requires Valid()
      modifies this
      ensures Abstract() == Rules.SwitchPlayer(old(Abstract()))
    {
      currentPlayer := if currentPlayer == X then O else X;
    }

    /** startRemovalPhase. */
    method StartRemovalPhase()
      requires Valid()
      modifies this
      ensures Abstract() == StartRemoval(old(Abstract()))
    {
      isRemovalPhase := true;
      removalTurnsLeft := RemovalTurnsEach * 2;
      playerBeforeBoardFull := Some(currentPlayer);
      currentPlayer := X;
    }

    /** endRemovalPhase (the bot's resumed turn is a separate BotMove). */
    method EndRemovalPhase()
      requires Valid()
      modifies this
      ensures Abstract() == EndRemoval(old(Abstract()))
    {
      isRemovalPhase := false;
      currentPlayer := if playerBeforeBoardFull.Some? && playerBeforeBoardFull.value == X then O else X;
      playerBeforeBoardFull := None;
    }

    // -------------------------------------------------------------------------
    // Moves
    // -------------------------------------------------------------------------

    /**
     * A scoring branch of processMoveResult: add the points; end the game at WINNING_SCORE,
     * otherwise clear the run and give the scorer the bonus turn.
     */
    method AwardRun(player: Player, points: nat, cells: seq<Pos>)
      requires Valid() && AllInBounds(cells)
      modifies this, board
      ensures Abstract() == Scored(old(Abstract()), player, points, cells)
    {
      UpdateScore(player, points);
      if (if player == X then scoreX else scoreO) >= WinningScore {
        gameOver := true;
        return;
      }
      HighlightAndClearCells(cells);
      currentPlayer := player;
    }

    /**
     * processMoveResult(row, col, player): a connect-5 scores first, then a connect-4; with
     * no score a full board opens the removal phase and otherwise the turn passes.
     */
    method ProcessMoveResult(row: int, col: int, player: Player)
      requires Valid() && InBounds(row, col)
      modifies this, board
      ensures Abstract() == AfterMove(old(Abstract()), row, col, player)
    {
      var win5 := CheckWin(row, col, 5);
      if win5.Some? {
        AwardRun(player, Connect5Points, win5.value);
        return;
      }
      var win4 := CheckWin(row, col, 4);
      if win4.Some? {
        AwardRun(player, Connect4Points, win4.value);
        return;
      }
      var full := IsBoardFull();
      if full {
        StartRemovalPhase();
      } else {
        SwitchPlayer();
      }
    }

    /** handleNormalPlayClick: X plays an empty cell; a taken cell changes nothing. */
    method HandleNormalPlayClick(row: int, col: int)
      requires Valid() && InBounds(row, col)
      modifies this, board
      ensures Abstract() == NormalPlayClick(old(Abstract()), row, col)
    {
      if board[row, col] != Empty {
        return;
      }
      PlaceSymbol(row, col, X);
      ProcessMoveResult(row, col, X);
    }

    /**
     * handlePlayerRemovalClick: X removes an O piece and counts the removal; any other cell
     * changes nothing.
     */
    method HandlePlayerRemovalClick(row: int, col: int)
      requires Valid() && InBounds(row, col)
      modifies this, board
      ensures Abstract() == PlayerRemovalClick(old(Abstract()), row, col)
    {
      if board[row, col] == O {
        RemoveSymbol(row, col);
        removalTurnsLeft := removalTurnsLeft - 1;
        if removalTurnsLeft == 0 {
          EndRemovalPhase();
        } else {
          SwitchPlayer();
        }
      }
    }

    /** handleCellClick: the human's click, ignored after game over and on O's turn. */
    method HandleCellClick(row: int, col: int)
      requires Valid() && InBounds(row, col)
      modifies this, board
      ensures Abstract() == CellClick(old(Abstract()), row, col)
    {
      if gameOver {
        return;
      }
      if isRemovalPhase {
        if currentPlayer == X {
          HandlePlayerRemovalClick(row, col);
        }
      } else {
        if currentPlayer == X {
          HandleNormalPlayClick(row, col);
        }
      }
    }

    // -------------------------------------------------------------------------
    // The bot
    // -------------------------------------------------------------------------

    /**
     * The probe inside findWinningMove's loop: put player on the empty cell q, ask checkWin,
     * and empty the cell again.
     */
    method WinsAt(q: Pos, player: Player, connectLength: nat) returns (wins: bool)
      requires Valid() && InBounds(q.row, q.col) && board[q.row, q.col] == Empty
      modifies board
      ensures Snapshot() == old(Snapshot())
      ensures wins == Wins(old(Snapshot()), q, player, connectLength)
    {
      ghost var g := Snapshot();
      WriteCell(q.row, q.col, player);
      var win := CheckWin(q.row, q.col, connectLength);
      WriteCell(q.row, q.col, Empty);
      SetUndo(g, q, player);
      wins := win.Some?;
    }

    /**
     * findWinningMove(player, connectLength): try player on each empty cell in row-major
     * order and return the first where checkWin succeeds; every probe is undone.
     */
    method FindWinningMove(player: Player, connectLength: nat) returns (move: Option<Pos>)
      requires Valid()
      modifies board
      ensures Snapshot() == old(Snapshot())
      ensures move == WinningMove(old(Snapshot()), player, connectLength)
    {
      ghost var g := Snapshot();
      var emptyCells := GetEmptyCells();
      var i := 0;
      while i < |emptyCells|
        invariant 0 <= i <= |emptyCells|
        invariant Snapshot() == g
        invariant FirstWinning(g, player, connectLength, emptyCells[i..]) == WinningMove(g, player, connectLength)
      {
        var q := emptyCells[i];
        FirstWinningStep(g, player, connectLength, emptyCells, i);
        var wins := WinsAt(q, player, connectLength);
        if wins {
          return Some(q);
        }
        i := i + 1;
      }
      return None;
    }

    /**
     * The probe of findHeuristicMove: with player's piece on the empty cell (row, col), can
     * X complete a 5-run or a 4-run on its next move? The probe is undone.
     */
    method OpponentWinsAfter(row: int, col: int, player: Player) returns (opponentWinsNext: bool)
      requires Valid() && InBounds(row, col) && board[row, col] == Empty
      modifies board
      ensures Snapshot() == old(Snapshot())
      ensures opponentWinsNext <==> !Safe(old(Snapshot()), Pos(row, col), player)
    {
      ghost var g := Snapshot();
      WriteCell(row, col, player);
      var win5 := FindWinningMove(X, 5);
      opponentWinsNext := win5.Some?;
      if !opponentWinsNext {
        var win4 := FindWinningMove(X, 4);
        opponentWinsNext := win4.Some?;
      }
      WriteCell(row, col, Empty);
      SetUndo(g, Pos(row, col), player);
    }

    /** findHeuristicMove's centre loop: the first centre cell that is empty and safe. */
    method FirstSafeCentre(player: Player) returns (move: Option<Pos>)
      requires Valid()
      modifies board
      ensures Snapshot() == old(Snapshot())
      ensures move == SafeCentre(old(Snapshot()), player)
    {
      ghost var g := Snapshot();
      var centerCoords := Centre;
      var k := 0;
      while k < |centerCoords|
        invariant 0 <= k <= |centerCoords|
        invariant Snapshot() == g
        invariant FirstSafe(g, player, centerCoords[k..]) == SafeCentre(g, player)
      {
        var q := centerCoords[k];
        assert centerCoords[k..][0] == q && centerCoords[k..][1..] == centerCoords[k + 1..];
        if board[q.row, q.col] == Empty {
          var opponentWinsNext := OpponentWinsAfter(q.row, q.col, player);
          if !opponentWinsNext {
            return Some(q);
          }
        }
        k := k + 1;
      }
      return None;
    }

    /** findHeuristicMove's `safeMoves` filter over empty cells. */
    method SafeMovesAmong(emptyCells: seq<Pos>, player: Player) returns (safeMoves: seq<Pos>)
      requires Valid()
      requires forall i :: 0 <= i < |emptyCells| ==>
        InBounds(emptyCells[i].row, emptyCells[i].col) && board[emptyCells[i].row, emptyCells[i].col] == Empty
      modifies board
      ensures Snapshot() == old(Snapshot())
      ensures safeMoves == SafeMoves(old(Snapshot()), player, emptyCells)
    {
      ghost var g := Snapshot();
      safeMoves := [];
      var i := 0;
      while i < |emptyCells|
        invariant 0 <= i <= |emptyCells|
        invariant Snapshot() == g
        invariant safeMoves == SafeMoves(g, player, emptyCells[..i])
      {
        var q := emptyCells[i];
        assert emptyCells[..i + 1][..i] == emptyCells[..i];
        var opponentWinsNext := OpponentWinsAfter(q.row, q.col, player);
        if !opponentWinsNext {
          safeMoves := safeMoves + [q];
        }
        i := i + 1;
      }
      assert emptyCells[..|emptyCells|] == emptyCells;
    }

    /**
     * findHeuristicMove(player): the first empty centre cell that is safe; otherwise a
     * random safe empty cell; otherwise a random empty cell; nothing on a full board.
     */
    method FindHeuristicMove(player: Player) returns (move: Option<Pos>)
      requires Valid()
      modifies board
      ensures Snapshot() == old(Snapshot())
      ensures HeuristicChoice(old(Snapshot()), player, move)
    {
      var emptyCells := GetEmptyCells();
      if |emptyCells| == 0 {
        return None;
      }
      move := FirstSafeCentre(player);
      if move.Some? {
        return;
      }
      var safeMoves := SafeMovesAmong(emptyCells, player);
      if |safeMoves| > 0 {
        var j :| 0 <= j < |safeMoves|;
        move := Some(safeMoves[j]);
      } else {
        var j :| 0 <= j < |emptyCells|;
        move := Some(emptyCells[j]);
      }
    }

    /**
     * getAIMove: win with 5, win with 4, block X's 5, block X's 4, in that order; then the
     * heuristic move. A result is always an empty cell.
     */
    method GetAIMove() returns (move: Option<Pos>)
      requires Valid()
      modifies board
      ensures Snapshot() == old(Snapshot())
      ensures AIMoveChoice(old(Snapshot()), move)
      ensures move.Some? ==> InBounds(move.value.row, move.value.col) && board[move.value.row, move.value.col] == Empty
    {
      ghost var g := Snapshot();
      move := FindWinningMove(O, 5);
      if move.None? {
        move := FindWinningMove(O, 4);
      }
      if move.None? {
        move := FindWinningMove(X, 5);
      }
      if move.None? {
        move := FindWinningMove(X, 4);
      }
      if move.None? {
        move := FindHeuristicMove(O);
      }
      AIMoveChoiceSpec(g, move);
    }

    /**
     * getAIRemovalMove's loop over X's pieces: the running best piece and the longest line
     * through it, replaced only by a strictly longer line. The simulated removal is undone.
     */
    method LongestLinePiece(opponentCells: seq<Pos>) returns (bestCellToRemove: Option<Pos>, maxLineLengthBroken: nat)
      requires Valid()
      requires forall i :: 0 <= i < |opponentCells| ==>
        InBounds(opponentCells[i].row, opponentCells[i].col) && board[opponentCells[i].row, opponentCells[i].col] == X
      modifies board
      ensures Snapshot() == old(Snapshot())
      ensures (bestCellToRemove, maxLineLengthBroken) == BestRemoval(old(Snapshot()), opponentCells)
    {
      ghost var g := Snapshot();
      bestCellToRemove, maxLineLengthBroken := None, 0;
      var i := 0;
      while i < |opponentCells|
        invariant 0 <= i <= |opponentCells|
        invariant Snapshot() == g
        invariant (bestCellToRemove, maxLineLengthBroken) == BestRemoval(g, opponentCells[..i])
      {
        var q := opponentCells[i];
        BestRemovalStep(g, opponentCells, i);
        WriteCell(q.row, q.col, Empty);
        WriteCell(q.row, q.col, X);
        SetUndo(g, q, Empty);
        var currentLineLength := GetMaxLineLengthContaining(q.row, q.col, X);
        if currentLineLength > maxLineLengthBroken {
          maxLineLengthBroken := currentLineLength;
          bestCellToRemove := Some(q);
        }
        i := i + 1;
      }
      assert opponentCells[..|opponentCells|] == opponentCells;
    }

    /**
     * getAIRemovalMove: among X's pieces, the first (row-major) on the longest line of X's,
     * when that line is 2 or longer; otherwise a random X piece; nothing when X has none.
     */
    method GetAIRemovalMove() returns (target: Option<Pos>)
      requires Valid()
      modifies board
      ensures Snapshot() == old(Snapshot())
      ensures RemovalChoice(old(Snapshot()), target)
      ensures target.Some? ==> InBounds(target.value.row, target.value.col) && board[target.value.row, target.value.col] == X
    {
      ghost var g := Snapshot();
      var opponentCells := CellsHolding(X);
      if |opponentCells| == 0 {
        return None;
      }
      var bestCellToRemove, maxLineLengthBroken := LongestLinePiece(opponentCells);
      var best := BestRemovalSpec(g, opponentCells);
      if bestCellToRemove.Some? && maxLineLengthBroken >= 2 {
        return bestCellToRemove;
      }
      var j :| 0 <= j < |opponentCells|;
      return Some(opponentCells[j]);
    }

    /**
     * triggerAIMove: when it is O's turn in normal play, O plays getAIMove's cell, or passes
     * the turn when there is none; otherwise nothing happens.
     */
    method BotMove() returns (move: Option<Pos>)
      requires Valid()
      modifies this, board
      ensures move.Some? ==> InBounds(move.value.row, move.value.col)
      ensures old(BotMayMove(Abstract())) ==>
        AIMoveChoice(old(Snapshot()), move) && Abstract() == BotMoveStep(old(Abstract()), move)
      ensures !old(BotMayMove(Abstract())) ==> move == None && Abstract() == old(Abstract())
    {
      if gameOver || isRemovalPhase || currentPlayer != O {
        return None;
      }
      move := GetAIMove();
      if move.Some? {
        PlaceSymbol(move.value.row, move.value.col, O);
        ProcessMoveResult(move.value.row, move.value.col, O);
      } else {
        SwitchPlayer();
      }
    }

    /**
     * triggerAIRemoval: on O's removal turn, O removes getAIRemovalMove's piece and counts
     * the removal, or passes the turn when there is none; otherwise nothing happens.
     */
    method BotRemoval() returns (target: Option<Pos>)
      requires Valid()
      modifies this, board
      ensures target.Some? ==> InBounds(target.value.row, target.value.col)
      ensures old(BotMayRemove(Abstract())) ==>
        RemovalChoice(old(Snapshot()), target) && Abstract() == BotRemovalStep(old(Abstract()), target)
      ensures !old(BotMayRemove(Abstract())) ==> target == None && Abstract() == old(Abstract())
    {
      if gameOver || !isRemovalPhase || currentPlayer != O {
        return None;
      }
      target := GetAIRemovalMove();
      if target.Some? {
        RemoveSymbol(target.value.row, target.value.col);
        removalTurnsLeft := removalTurnsLeft - 1;
        if removalTurnsLeft == 0 {
          EndRemovalPhase();
        } else {
          SwitchPlayer();
        }
      } else {
        SwitchPlayer();
      }
    }
  }
}
