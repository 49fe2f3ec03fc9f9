/**
 * The match state machine of script.js as functions over a value: what
 * processMoveResult, startRemovalPhase, endRemovalPhase, handleNormalPlayClick,
 * handlePlayerRemovalClick and the bot's turns do to the game state, each taken as
 * one synchronous step. The class in engine.dfy is proved to perform these steps.
 */
module Rules {
  import opened Wrappers
  import opened Board

  /**
   * The module-level game state of script.js: board, currentPlayer, scores.X, scores.O,
   * gameOver, isRemovalPhase, removalTurnsLeft and playerBeforeBoardFull.
   */
  datatype Game = Game(grid: Grid, current: Player, scoreX: nat, scoreO: nat, gameOver: bool,
                       removal: bool, turnsLeft: int, before: Option<Player>)

  /** The state initGame sets up. */
  const Initial: Game := Game(EmptyGrid, X, 0, 0, false, false, 0, None)

  function Score(s: Game, p: Player): (n: nat) {
    if p == X then s.scoreX else s.scoreO
  }

  /** updateScore(p, points). */
  function AddScore(s: Game, p: Player, points: nat): (t: Game) {
    if p == X then s.(scoreX := s.scoreX + points) else s.(scoreO := s.scoreO + points)
  }

  /** switchPlayer. */
  function SwitchPlayer(s: Game): (t: Game) {
    s.(current := Opponent(s.current))
  }

  /** startRemovalPhase: X always opens a removal phase of REMOVAL_TURNS_EACH * 2 removals. */
  function StartRemoval(s: Game): (t: Game) {
    s.(removal := true, turnsLeft := RemovalTurnsEach * 2, before := Some(s.current), current := X)
  }

  /** The player who resumes after a removal phase: `playerBeforeBoardFull === 'X' ? 'O' : 'X'`. */
  function Resumer(before: Option<Player>): (q: Player) {
    if before.Some? && before.value == X then O else X
  }

  /** endRemovalPhase: play resumes with the player opposite to playerBeforeBoardFull. */
  function EndRemoval(s: Game): (t: Game) {
    s.(removal := false, current := Resumer(s.before), before := None)
  }

  /**
   * What processMoveResult does once a run of `cells` scored `points` for p: the game ends
   * when p reaches WINNING_SCORE; otherwise the run is cleared and p keeps the turn.
   */
  function Scored(s: Game, p: Player, points: nat, cells: seq<Pos>): (t: Game) {
    var t := AddScore(s, p, points);
    if Score(t, p) >= WinningScore then t.(gameOver := true)
    else t.(grid := ClearCells(t.grid, cells), current := p)
  }

  /** processMoveResult(row, col, p), after p's symbol was placed at (row, col). */
  function AfterMove(s: Game, row: int, col: int, p: Player): (t: Game)
    requires InBounds(row, col)
  {
    var win5 := WinningCells(s.grid, row, col, 5);
    if win5.Some? then Scored(s, p, Connect5Points, win5.value)
    else
      var win4 := WinningCells(s.grid, row, col, 4);
      if win4.Some? then Scored(s, p, Connect4Points, win4.value)
      else if Full(s.grid) then StartRemoval(s)
      else SwitchPlayer(s)
  }

  /** placeSymbol(row, col, p) followed by processMoveResult(row, col, p). */
  function Move(s: Game, row: int, col: int, p: Player): (t: Game)
    requires InBounds(row, col)
  {
    AfterMove(s.(grid := Set(s.grid, Pos(row, col), p)), row, col, p)
  }

  /** handleNormalPlayClick: an occupied cell changes nothing; otherwise X moves there. */
  function NormalPlayClick(s: Game, row: int, col: int): (t: Game)
    requires InBounds(row, col)
  {
    if s.grid[row][col] != Empty then s else Move(s, row, col, X)
  }

  /**
   * One removal, as handlePlayerRemovalClick and triggerAIRemoval both perform it: erase q,
   * count removalTurnsLeft down, then end the phase at 0 or pass the turn.
   */
  function RemovePiece(s: Game, q: Pos): (t: Game)
    requires InBounds(q.row, q.col)
  {
    var t := s.(grid := Set(s.grid, q, Empty), turnsLeft := s.turnsLeft - 1);
    if t.turnsLeft == 0 then EndRemoval(t) else SwitchPlayer(t)
  }

  /** handlePlayerRemovalClick: the human (X) may only remove an O piece. */
  function PlayerRemovalClick(s: Game, row: int, col: int): (t: Game)
    requires InBounds(row, col)
  {
    if s.grid[row][col] == O then RemovePiece(s, Pos(row, col)) else s
  }

  /** handleCellClick: the human plays X; clicks after game over or on O's turn are ignored. */
  function CellClick(s: Game, row: int, col: int): (t: Game)
    requires InBounds(row, col)
  {
    if s.gameOver || s.current != X then s
    else if s.removal then PlayerRemovalClick(s, row, col)
    else NormalPlayClick(s, row, col)
  }

  /** The guard of triggerAIMove. */
  predicate BotMayMove(s: Game) {
    !s.gameOver && !s.removal && s.current == O
  }

  /** The guard of triggerAIRemoval. */
  predicate BotMayRemove(s: Game) {
    !s.gameOver && s.removal && s.current == O
  }

  /** triggerAIMove once getAIMove chose `move`: O plays it, or the turn passes when there is none. */
  function BotMoveStep(s: Game, move: Option<Pos>): (t: Game)
    requires move.Some? ==> InBounds(move.value.row, move.value.col)
  {
    match move
    case Some(q) => Move(s, q.row, q.col, O)
    case None => SwitchPlayer(s)
  }

  /** triggerAIRemoval once getAIRemovalMove chose `target`: remove it, or pass the turn when there is none. */
  function BotRemovalStep(s: Game, target: Option<Pos>): (t: Game)
    requires target.Some? ==> InBounds(target.value.row, target.value.col)
  {
    match target
    case Some(q) => RemovePiece(s, q)
    case None => SwitchPlayer(s)
  }

  /** A sequence of removals applied one after the other. */
  function RemoveAll(s: Game, targets: seq<Pos>): (t: Game)
    requires AllInBounds(targets)
    decreases |targets|
  {
    if targets == [] then s else RemoveAll(RemovePiece(s, targets[0]), targets[1..])
  }

  /**
   * The invariant of every reachable state: a removal phase has 1..6 removals left and a
   * recorded playerBeforeBoardFull; gameOver holds exactly when someone reached the winning
   * score; no score exceeds 6; and while play is on, the board has an empty cell.
   */
  predicate Inv(s: Game) {
    && (s.removal ==> 1 <= s.turnsLeft <= RemovalTurnsEach * 2 && s.before.Some? && !s.gameOver)
    && (!s.removal ==> s.before.None?)
    && (s.gameOver <==> (s.scoreX >= WinningScore || s.scoreO >= WinningScore))
    && s.scoreX < WinningScore + Connect5Points
    && s.scoreO < WinningScore + Connect5Points
    && (!s.removal && !s.gameOver ==> !Full(s.grid))
  }

  // ---------------------------------------------------------------------------
  // Lemmas
  // ---------------------------------------------------------------------------

  lemma InitialInv()
    ensures Inv(Initial)
  {
    assert Initial.grid[0][0] == Empty;
  }

  /**
   * The consequence of a scoring run: the mover gains the points and nothing else changes
   * but the following. If the mover reaches WINNING_SCORE the game is over and the board is
   * kept as it is; otherwise exactly the run's cells are emptied and the mover keeps the turn.
   */
  lemma ScoredSpec(s: Game, p: Player, points: nat, cells: seq<Pos>)
    ensures var t := Scored(s, p, points, cells);
      && Score(t, p) == Score(s, p) + points
      && Score(t, Opponent(p)) == Score(s, Opponent(p))
      && t.removal == s.removal && t.turnsLeft == s.turnsLeft && t.before == s.before
      && (Score(t, p) >= WinningScore ==> t.gameOver && t.grid == s.grid && t.current == s.current)
      && (Score(t, p) < WinningScore ==>
            && t.gameOver == s.gameOver
            && t.current == p
            && forall r, c :: InBounds(r, c) ==>
                 t.grid[r][c] == if Pos(r, c) in cells then Empty else s.grid[r][c])
  {
    ClearCellsSpec(s.grid, cells);
  }

  /**
   * Scoring precedence: a 5-run through the placed cell is scored first, for 2 points; only
   * without one is a 4-run tried, for 1 point. The scored run is exactly 5 (or 4) distinct
   * cells of the mover's symbol through the placed cell.
   */
  lemma MoveScoring(s: Game, row: int, col: int, p: Player)
    requires InBounds(row, col) && s.grid[row][col] == p
    ensures var win5 := WinningCells(s.grid, row, col, 5);
      && (win5.Some? ==>
            && AfterMove(s, row, col, p) == Scored(s, p, Connect5Points, win5.value)
            && |win5.value| == 5 && Pos(row, col) in win5.value
            && exists a :: win5.value == Run(s.grid, p, row, col, a, Steps(5)) && IsLineThrough(win5.value, s.grid, p, row, col, a))
    ensures var win4 := WinningCells(s.grid, row, col, 4);
      && (WinningCells(s.grid, row, col, 5).None? && win4.Some? ==>
            && AfterMove(s, row, col, p) == Scored(s, p, Connect4Points, win4.value)
            && |win4.value| == 4 && Pos(row, col) in win4.value
            && exists a :: win4.value == Run(s.grid, p, row, col, a, Steps(4)) && IsLineThrough(win4.value, s.grid, p, row, col, a))
  {
    WinningCellsShape(s.grid, row, col, 5);
    WinningCellsShape(s.grid, row, col, 4);
    var win5 := WinningCells(s.grid, row, col, 5);
    var win4 := WinningCells(s.grid, row, col, 4);
    if win5.Some? {
      assert win5.value[0] in win5.value;
    } else if win4.Some? {
      assert win4.value[0] in win4.value;
    }
  }

  /**
   * Without a run: a full board starts the removal phase (6 removals, X first, the mover
   * recorded); otherwise the turn passes. Nothing else changes.
   */
  lemma MoveWithoutScore(s: Game, row: int, col: int, p: Player)
    requires InBounds(row, col)
    requires WinningCells(s.grid, row, col, 5).None? && WinningCells(s.grid, row, col, 4).None?
    ensures var t := AfterMove(s, row, col, p);
      if Full(s.grid) then
        t == s.(removal := true, turnsLeft := 6, before := Some(s.current), current := X)
      else
        t == s.(current := Opponent(s.current))
  {
  }

  /**
   * handlePlayerRemovalClick: a cell that does not hold O changes nothing; an O piece is erased
   * (and nothing else on the board), one removal is used, and play resumes with the player
   * opposite to playerBeforeBoardFull when none are left.
   */
  lemma RemovalClick(s: Game, row: int, col: int)
    requires InBounds(row, col)
    ensures var t := PlayerRemovalClick(s, row, col);
      if s.grid[row][col] != O then t == s
      else
        && (forall r, c :: InBounds(r, c) ==> t.grid[r][c] == if r == row && c == col then Empty else s.grid[r][c])
        && t.turnsLeft == s.turnsLeft - 1
        && t.scoreX == s.scoreX && t.scoreO == s.scoreO && t.gameOver == s.gameOver
        && (t.turnsLeft == 0 ==> !t.removal && t.before == None && t.current == Resumer(s.before))
        && (t.turnsLeft != 0 ==> t.removal == s.removal && t.before == s.before && t.current == Opponent(s.current))
  {
  }

  /**
   * A removal phase lasts exactly REMOVAL_TURNS_EACH * 2 removals, alternating from the player
   * to move; after the last one play resumes.
   */
  lemma {:induction false} RemovalRounds(s: Game, targets: seq<Pos>)
    requires AllInBounds(targets)
    requires s.removal && s.before.Some? && 1 <= s.turnsLeft && |targets| <= s.turnsLeft
    ensures var t := RemoveAll(s, targets);
      && t.scoreX == s.scoreX && t.scoreO == s.scoreO && t.gameOver == s.gameOver
      && (|targets| < s.turnsLeft ==>
            && t.removal && t.before == s.before
            && t.turnsLeft == s.turnsLeft - |targets|
            && t.current == if |targets| % 2 == 0 then s.current else Opponent(s.current))
      && (|targets| == s.turnsLeft ==>
            && !t.removal && t.before == None
            && t.current == Resumer(s.before))
    decreases |targets|
  {
    if targets != [] {
      var u := RemovePiece(s, targets[0]);
      if s.turnsLeft - 1 == 0 {
        assert targets[1..] == [];
        assert RemoveAll(u, targets[1..]) == u;
      } else {
        RemovalRounds(u, targets[1..]);
      }
    }
  }

  /** From a full board: six removals, X first and alternating, then the non-filling player resumes. */
  lemma RemovalSchedule(s: Game, targets: seq<Pos>)
    requires AllInBounds(targets) && |targets| <= RemovalTurnsEach * 2
    ensures var t := RemoveAll(StartRemoval(s), targets);
      && (|targets| < 6 ==> t.removal && t.turnsLeft == 6 - |targets|
                            && t.current == if |targets| % 2 == 0 then X else O)
      && (|targets| == 6 ==> !t.removal && t.before == None && t.current == Opponent(s.current))
  {
    RemovalRounds(StartRemoval(s), targets);
  }

  /** A run scored during play keeps the invariant: the placed cell is cleared unless the game ends. */
  lemma ScoredKeepsInv(s: Game, p: Player, points: nat, cells: seq<Pos>, row: int, col: int)
    requires !s.removal && s.before.None? && !s.gameOver
    requires s.scoreX < WinningScore && s.scoreO < WinningScore && points <= Connect5Points
    requires InBounds(row, col) && Pos(row, col) in cells
    ensures Inv(Scored(s, p, points, cells))
  {
    ClearCellsSpec(AddScore(s, p, points).grid, cells);
  }

  /** A move in play keeps the invariant. */
  lemma MovePreservesInv(s: Game, row: int, col: int, p: Player)
    requires Inv(s) && !s.gameOver && !s.removal && InBounds(row, col)
    ensures Inv(Move(s, row, col, p))
  {
    var s1 := s.(grid := Set(s.grid, Pos(row, col), p));
    MoveScoring(s1, row, col, p);
    var win5 := WinningCells(s1.grid, row, col, 5);
    var win4 := WinningCells(s1.grid, row, col, 4);
    if win5.Some? {
      ScoredKeepsInv(s1, p, Connect5Points, win5.value, row, col);
    } else if win4.Some? {
      ScoredKeepsInv(s1, p, Connect4Points, win4.value, row, col);
    }
  }

  /** A removal keeps the invariant: when the phase ends, the erased cell is empty. */
  lemma RemovePiecePreservesInv(s: Game, q: Pos)
    requires Inv(s) && s.removal && InBounds(q.row, q.col)
    ensures Inv(RemovePiece(s, q))
  {
  }

  /** Every click of the human keeps the invariant, and a finished game ignores it. */
  lemma CellClickPreservesInv(s: Game, row: int, col: int)
    requires Inv(s) && InBounds(row, col)
    ensures Inv(CellClick(s, row, col))
    ensures s.gameOver ==> CellClick(s, row, col) == s
  {
    if !s.gameOver && s.current == X {
      if s.removal {
        if s.grid[row][col] == O {
          RemovePiecePreservesInv(s, Pos(row, col));
        }
      } else if s.grid[row][col] == Empty {
        MovePreservesInv(s, row, col, X);
      }
    }
  }

  /** The bot's move keeps the invariant, whatever move it chose. */
  lemma BotMovePreservesInv(s: Game, move: Option<Pos>)
    requires Inv(s) && BotMayMove(s)
    requires move.Some? ==> InBounds(move.value.row, move.value.col)
    ensures Inv(BotMoveStep(s, move))
  {
    if move.Some? {
      MovePreservesInv(s, move.value.row, move.value.col, O);
    }
  }

  /** The bot's removal keeps the invariant, whatever target it chose. */
  lemma BotRemovalPreservesInv(s: Game, target: Option<Pos>)
    requires Inv(s) && BotMayRemove(s)
    requires target.Some? ==> InBounds(target.value.row, target.value.col)
    ensures Inv(BotRemovalStep(s, target))
  {
    if target.Some? {
      RemovePiecePreservesInv(s, target.value);
    }
  }
}
