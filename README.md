# Connect-4/5 match engine, modelled in Dafny

This project models the match engine of `script.js`. The game is played on a 5×5 board. The
human plays X and a rule-based bot plays O.

- **Scoring.** A move that completes a run of exactly five of the mover's symbols through the
  placed cell scores 2 points. Failing that, a run of exactly four scores 1 point. A player
  who reaches 5 points wins and the game ends with the board as it is. Otherwise the run's
  cells are erased and the mover gets a bonus turn.
- **Removal phase.** A move that fills the board without scoring starts a removal phase:
  six removals, alternating and starting with X, each erasing one of the opponent's pieces.
  Afterwards the player who did not fill the board resumes play.
- **The bot.** To place a piece, the bot tries four fixed tiers in order: its own 5-run, its
  own 4-run, blocking X's 5-run, blocking X's 4-run. Failing those it takes the first empty,
  safe cell of a centre-first list, then a random safe empty cell, then a random empty cell.
  A cell is safe when playing there leaves X no immediate 5-run or 4-run. In the removal
  phase the bot removes the X piece on the longest line, if that line is at least 2 long;
  otherwise it removes a random X piece.

The model has six modules:

- `Wrappers` (`wrappers.dfy`): the `Option` type used for results that may be absent (`null`
  in the source).
- `Board` (`board.dfy`): the board as a value (`Grid`). Defines the scans `checkWin`,
  `getMaxLineLengthContaining`, `getEmptyCells` and `isBoardFull` as functions, with lemmas on
  their shape.
- `Rules` (`rules.dfy`): the game state as a value (`Game`). Each handler is a transition
  function taken as one synchronous step. Includes the invariant `Inv` of reachable states and
  the lemmas that every step keeps it.
- `Strategy` (`strategy.dfy`): the bot's choices as functions and predicates. A `Math.random`
  pick becomes a predicate that admits every candidate the source could pick.
- `Engine` (`engine.dfy`): the class `Match`. Its fields are the module-level variables of
  `script.js` and its board is a 5×5 `array2`. Each method mirrors a source function, or one of
  its loops or branches. Each is proved to compute, or to make a choice allowed by, the corresponding
  `Board`/`Rules`/`Strategy` function or predicate.
  `Snapshot()` reads the array as a `Grid`; `Abstract()` reads the whole state as a `Game`.
  The bot's probes write a trial symbol into the array and then restore the cell; their
  contracts say that the board is unchanged afterwards.
- `Scenarios` (`scenarios.dfy`): worked examples on concrete boards.

Behaviour of the code worth noting, which the model keeps:

- Invalid clicks are ignored silently rather than reported as errors.
- A run scores only when one axis collects exactly `connectLength` cells. The scan reaches at
  most `connectLength - 1` cells each way from the placed cell. So a longer line scores only
  when it is cut to exactly that count.
- When the bot finds no X piece to remove, it passes the turn without using up a removal.
- The human is always X, and human clicks are accepted only while it is X's turn.

## Model

| member | source | states |
|---|---|---|
| Board.N | script.js:48 | GRID_SIZE = 5 |
| Board.WinningScore | script.js:49 | WINNING_SCORE = 5 |
| Board.Connect5Points | script.js:50 | CONNECT_5_POINTS = 2 |
| Board.Connect4Points | script.js:51 | CONNECT_4_POINTS = 1 |
| Board.RemovalTurnsEach | script.js:52 | REMOVAL_TURNS_EACH = 3 |
| Board.Axes | script.js:877 | the `directions` array of checkWin (and of getMaxLineLengthContaining, script.js:1299), in the source's order |
| Board.DRow | script.js:877 | the row step of a direction, negated for the backward scan |
| Board.DCol | script.js:877 | the column step of a direction, negated for the backward scan |
| Board.Steps | script.js:883-890 | the cap `i < connectLength` of checkWin's inner loops: at most connectLength - 1 steps each way |
| Board.Walk | script.js:883-894 | one inner scan loop: step from (r, c) by (dr, dc), at most `steps` times, stopping at the board's edge or the first cell not holding the player |
| Board.Ray | script.js:883-894 | the inner scan loop along one axis, forwards (the direction vector) or backwards (its negation) |
| Board.Run | script.js:880-895 | the cells one direction of checkWin collects: the placed cell, then the forward ray, then the backward ray |
| Board.RayShape | script.js:883-894 | one inner loop of checkWin collects at most `steps` cells, each on the board, holding the player, on the axis and i+1 steps from the start; when it collects fewer than `steps`, the next cell is off the board or does not hold the player |
| Board.RayStops | script.js:885-887 | a ray shorter than its cap ends exactly where the loop's `else break` fires: the next cell is off the board or does not hold the player |
| Board.RayMaximal | script.js:1304-1316 | with getMaxLineLengthContaining's cap of GRID_SIZE - 1 steps, a ray from a cell on the board always ends at the board's edge or before a cell not holding the player, never at the cap |
| Board.RunLength | script.js:1302-1316 | getMaxLineLengthContaining's count for one direction |
| Board.RunLengthIsMaximalLine | script.js:1302-1316 | the count for one direction is 1 plus two stretches of the player's cells on either side of (r, c), each followed by the board's edge or a cell not holding the player: the length of the line through (r, c) |
| Board.MaxLineLength | script.js:1297-1320 | getMaxLineLengthContaining as the running maximum over the four directions |
| Board.RunShape | script.js:880-897 | the cells listed along one axis start at the placed cell, hold its symbol, lie on that axis and are pairwise distinct; the forward cells sit at offsets 1, 2, … and the backward cells at -1, -2, …, so the cells are consecutive, without a gap |
| Board.RunOffsets | script.js:880-897 | each listed cell's offset from the placed cell along the axis: 0 for the placed cell, then 1, 2, … for the forward loop and -1, -2, … for the backward loop, with the cells in bounds, of the placed symbol and distinct |
| Board.WinFrom | script.js:879-900 | checkWin's loop over the four directions from a given index: the first direction whose count is exactly the length |
| Board.WinningCells | script.js:873-902 | checkWin: null on an empty start cell, otherwise the loop over the four directions |
| Board.WinningCellsShape | script.js:873-902 | checkWin returns null on an empty start cell; a result is exactly `connectLength` distinct in-bounds cells of the placed symbol, and it is the run of consecutive cells that the scan of one axis collects through the placed cell; null on an occupied start cell means no direction counts exactly `connectLength` |
| Board.WinFromShape | script.js:878-899 | the loop over the four directions returns only the consecutive run of one axis through the start, of exactly `connectLength` cells, and returns null only when no remaining direction counts exactly `connectLength` |
| Board.MaxLineLengthIsMax | script.js:1297-1320 | getMaxLineLengthContaining is at least 1, bounds every direction's count and equals one of them |
| Board.Set | script.js:684-711 | writing one cell (placeSymbol, removeSymbol, the bot's probes) changes that cell and no other |
| Board.Full | script.js:941-948 | isBoardFull: no cell is empty |
| Board.RowCells | script.js:1219-1223 | the inner loop of the row-major scan over one row |
| Board.CellsBefore | script.js:1218-1224 | the row-major scan over the first r rows |
| Board.CellsOf | script.js:1216-1226 | the row-major scan for the cells holding a value (getEmptyCells, and the X-cell scan of getAIRemovalMove) |
| Board.EmptyCells | script.js:1216-1226 | getEmptyCells: the empty cells in row-major order |
| Board.RowCellsSpec | script.js:1218-1224 | one row of the scan lists exactly that row's cells holding the value, left to right |
| Board.CellsBeforeSpec | script.js:1218-1224 | the scan of the first r rows lists exactly their cells holding the value, in row-major order |
| Board.CellsOfSpec | script.js:1216-1226 | getEmptyCells (and the X-cell scan of getAIRemovalMove) lists exactly the cells holding the value, each once, in row-major order |
| Board.FullIffNoEmptyCells | script.js:941-948 | isBoardFull holds exactly when getEmptyCells returns an empty list |
| Board.SetSame | script.js:701-711 | writing a cell with what it already holds leaves the board unchanged |
| Board.SetUndo | script.js:1145-1156 | a bot probe (place, then restore the old contents) leaves the board as it was |
| Board.ClearCells | script.js:919-925 | highlightAndClearCells: removeSymbol applied to each listed cell in turn |
| Board.ClearCellsSpec | script.js:908-934 | highlightAndClearCells empties exactly the listed cells and leaves every other cell as it was |
| Rules.Game | script.js:96-102 | the module-level game state: board, currentPlayer, scores, gameOver, isRemovalPhase, removalTurnsLeft, playerBeforeBoardFull |
| Rules.Initial | script.js:514-520 | the state initGame sets: empty board, X to move, 0:0, not over, no removal phase |
| Rules.AddScore | script.js:936-939 | updateScore: the player's score grows by the points |
| Rules.SwitchPlayer | script.js:1325-1328 | switchPlayer: the other symbol is to move |
| Rules.StartRemoval | script.js:950-960 | startRemovalPhase: removal phase on, REMOVAL_TURNS_EACH * 2 removals left, the mover recorded, X to move |
| Rules.Resumer | script.js:967 | the player who resumes after a removal phase: the one opposite to playerBeforeBoardFull |
| Rules.EndRemoval | script.js:962-982 | endRemovalPhase: removal phase off, the resumer to move, playerBeforeBoardFull cleared |
| Rules.Scored | script.js:720-794 | a scoring run: add the points; at WINNING_SCORE the game is over, otherwise clear the run and keep the mover |
| Rules.AfterMove | script.js:716-819 | processMoveResult: a 5-run, else a 4-run, else a full board starts the removal phase, else the turn passes |
| Rules.Move | script.js:637-638 | placeSymbol followed by processMoveResult |
| Rules.NormalPlayClick | script.js:630-646 | handleNormalPlayClick: an occupied cell is ignored, otherwise X moves there |
| Rules.RemovePiece | script.js:654-668 | one removal: erase the piece, count down, end the phase at 0 or pass the turn |
| Rules.PlayerRemovalClick | script.js:651-677 | handlePlayerRemovalClick: only a cell holding O is removed |
| Rules.CellClick | script.js:605-625 | handleCellClick: ignored after game over or on O's turn, otherwise dispatched by phase |
| Rules.BotMayMove | script.js:1027-1029 | the guard of triggerAIMove |
| Rules.BotMayRemove | script.js:1063 | the guard of triggerAIRemoval |
| Rules.BotMoveStep | script.js:1040-1051 | triggerAIMove after the choice: place O and process the result, or pass the turn when there is no move |
| Rules.BotRemovalStep | script.js:1070-1090 | triggerAIRemoval after the choice: remove the target, or pass the turn when there is none |
| Rules.RemoveAll | script.js:651-677 | a sequence of removals, one after the other |
| Rules.Inv | script.js:96-102 | the invariant of every reachable state of the module-level game variables |
| Rules.InitialInv | script.js:512-554 | the state initGame creates satisfies the reachable-state invariant |
| Rules.ScoredSpec | script.js:720-794 | a scoring run adds the points to the mover only; at WINNING_SCORE the game is over with the board kept, otherwise exactly the run is erased and the mover keeps the turn |
| Rules.MoveScoring | script.js:720-794 | a 5-run is scored first for 2 points, and a 4-run for 1 point only when there is no 5-run; the scored cells are the consecutive run of 5 (or 4) cells that one axis scan collects through the placed cell |
| Rules.MoveWithoutScore | script.js:796-818 | with no run, a full board starts a removal phase (6 removals, X first, the mover recorded); otherwise only the turn passes |
| Rules.RemovalClick | script.js:651-677 | a removal click on a cell not holding O changes nothing; otherwise exactly that cell is erased, one removal is used, and either the phase ends with the right player resuming or the turn passes |
| Rules.RemovalRounds | script.js:651-677 | a run of removals leaves the scores alone and alternates the players; after `removalTurnsLeft` removals play resumes with the player opposite to playerBeforeBoardFull; this holds when every removal turn removes a piece (the bot never passes) |
| Rules.RemovalSchedule | script.js:950-982 | from a full board there are exactly REMOVAL_TURNS_EACH*2 = 6 removals, X first and alternating, and then the player who did not fill the board resumes, when every removal turn removes a piece (the bot never passes) |
| Rules.ScoredKeepsInv | script.js:720-794 | a scoring run during play keeps the invariant, because the placed cell is cleared unless the game ends |
| Rules.MovePreservesInv | script.js:716-819 | placing a piece and processing its result keeps the invariant |
| Rules.RemovePiecePreservesInv | script.js:651-677 | one removal keeps the invariant |
| Rules.CellClickPreservesInv | script.js:605-625 | every human click keeps the invariant, and after game over a click changes nothing |
| Rules.BotMovePreservesInv | script.js:1022-1053 | the bot's move keeps the invariant, whatever cell it chose |
| Rules.BotRemovalPreservesInv | script.js:1058-1093 | the bot's removal keeps the invariant, whatever piece it chose |
| Strategy.Wins | script.js:1147-1149 | the probe of findWinningMove: placing the player at the cell makes checkWin succeed |
| Strategy.FirstWinning | script.js:1145-1157 | findWinningMove's loop over a candidate list |
| Strategy.WinningMove | script.js:1143-1158 | findWinningMove: the first empty cell, row-major, where the player would complete a run |
| Strategy.Safe | script.js:1179-1183 | the safety probe: after O plays the cell, X has no immediate 5-run nor 4-run |
| Strategy.Centre | script.js:1170-1174 | `centerCoords`, the nine centre cells in the source's order |
| Strategy.SafeEmpty | script.js:1177-1183 | the centre loop's test: the cell is empty and passes the safety probe |
| Strategy.FirstSafe | script.js:1176-1187 | the centre loop over a candidate list |
| Strategy.SafeCentre | script.js:1170-1187 | the centre loop over the centre-first list |
| Strategy.SafeMoves | script.js:1193-1198 | the safeMoves filter |
| Strategy.HeuristicChoice | script.js:1165-1209 | what findHeuristicMove may return, the random picks admitting every candidate |
| Strategy.PriorityMove | script.js:1104-1118 | getAIMove's four deterministic tiers |
| Strategy.AIMoveChoice | script.js:1100-1135 | what getAIMove may return |
| Strategy.BestRemoval | script.js:1256-1277 | getAIRemovalMove's loop: the running bestCellToRemove and maxLineLengthBroken |
| Strategy.RemovalChoice | script.js:1232-1286 | what getAIRemovalMove may return, the random fallback admitting every X piece |
| Strategy.FirstWinningIndex | script.js:1144-1157 | findWinningMove's loop returns the first candidate where the player would win, and nothing exactly when none would |
| Strategy.WinningMoveSpec | script.js:1143-1158 | findWinningMove returns an empty cell where the player completes a run, with no earlier empty cell doing so; it returns nothing only when no empty cell does |
| Strategy.WinningMoveIs | script.js:1143-1158 | conversely, the first empty winning cell in row-major order is what findWinningMove returns |
| Strategy.FirstSafeIndex | script.js:1176-1187 | the centre loop returns the first empty, safe candidate of the list, and nothing exactly when there is none |
| Strategy.SafeMovesSpec | script.js:1193-1198 | the safeMoves filter keeps exactly the safe candidates |
| Strategy.HeuristicChoiceSpec | script.js:1165-1209 | findHeuristicMove returns nothing exactly on a full board, otherwise an empty cell; that cell is safe whenever some empty cell is safe, and it is the first safe centre cell when one exists |
| Strategy.AIMoveChoiceSpec | script.js:1100-1135 | getAIMove returns nothing exactly on a full board, otherwise an empty cell; the bot's own 5-run comes first, and the heuristic decides only when all four tiers find nothing |
| Strategy.BotAlwaysFindsMove | script.js:1046-1050 | in every reachable state where the bot may move, getAIMove returns a cell, so the "could not find a valid move" branch is never taken |
| Strategy.BestRemovalSpec | script.js:1256-1277 | the removal scan keeps the first cell whose line is longest, together with that length |
| Strategy.RemovalChoiceSpec | script.js:1232-1286 | getAIRemovalMove returns nothing exactly when X has no piece, otherwise an X piece; when some X line is at least 2 long, it returns the first X piece in row-major order on a longest line |
| Engine.Match.constructor | script.js:512-554 | a new match has an empty board, X to move, scores 0:0, and is neither over nor in the removal phase |
| Engine.Match.ScanRay | script.js:883-894 | the stepping loop collects exactly `Board.Ray` |
| Engine.Match.AxisRun | script.js:880-896 | the cells listed along one direction are the start cell, the forward ray and the backward ray |
| Engine.Match.CheckWin | script.js:873-902 | checkWin returns the first direction whose count is exactly `connectLength`; a result is that many distinct in-bounds cells of the placed symbol, namely the consecutive run that one axis scan collects through the placed cell, and an empty start cell gives null |
| Engine.Match.IsBoardFull | script.js:941-948 | the result is true exactly when no cell is empty, that is, when getEmptyCells is empty |
| Engine.Match.CellsHolding | script.js:1234-1243 | the scan lists exactly the cells holding the value, in row-major order |
| Engine.Match.GetEmptyCells | script.js:1216-1226 | getEmptyCells lists exactly the empty cells in row-major order, and is empty exactly on a full board |
| Engine.Match.GetMaxLineLengthContaining | script.js:1297-1320 | the result is the largest of the four direction counts, at least 1 |
| Engine.Match.WriteCell | script.js:685 | the array write shared by placeSymbol, removeSymbol and the bot's probes changes exactly that cell |
| Engine.Match.PlaceSymbol | script.js:684-694 | exactly the clicked cell now holds the player's symbol |
| Engine.Match.RemoveSymbol | script.js:701-711 | exactly the given cell is now empty |
| Engine.Match.HighlightAndClearCells | script.js:908-934 | exactly the run's cells are emptied |
| Engine.Match.UpdateScore | script.js:936-939 | only the player's score changes, by the points |
| Engine.Match.SwitchPlayer | script.js:1325-1328 | only the player to move changes, to the other symbol |
| Engine.Match.StartRemovalPhase | script.js:950-960 | the removal phase starts with 6 removals, X to move and the previous mover recorded |
| Engine.Match.EndRemovalPhase | script.js:962-982 | the removal phase ends and the player opposite to playerBeforeBoardFull moves |
| Engine.Match.AwardRun | script.js:722-756 | the state after a scoring run is the one Rules.Scored describes |
| Engine.Match.ProcessMoveResult | script.js:716-819 | the state after processMoveResult is the one Rules.AfterMove describes |
| Engine.Match.HandleNormalPlayClick | script.js:630-646 | an occupied cell changes nothing; otherwise X is placed and the move's result processed |
| Engine.Match.HandlePlayerRemovalClick | script.js:651-677 | the state after the click is the one Rules.PlayerRemovalClick describes |
| Engine.Match.HandleCellClick | script.js:605-625 | the click is dispatched by phase, and ignored after game over or on O's turn |
| Engine.Match.WinsAt | script.js:1145-1156 | one probe of findWinningMove reports whether the player completes a run at the cell, and the board is restored |
| Engine.Match.FindWinningMove | script.js:1143-1158 | findWinningMove returns `Strategy.WinningMove`, the first winning empty cell, and the board is unchanged |
| Engine.Match.OpponentWinsAfter | script.js:1178-1185 | the safety probe reports exactly that the cell is unsafe, and the board is restored |
| Engine.Match.FirstSafeCentre | script.js:1170-1187 | the centre loop returns the first empty, safe centre cell, and the board is unchanged |
| Engine.Match.SafeMovesAmong | script.js:1193-1198 | the filter keeps exactly the safe empty cells in order, and the board is unchanged |
| Engine.Match.FindHeuristicMove | script.js:1165-1209 | the result is one findHeuristicMove may return, and the board is unchanged |
| Engine.Match.GetAIMove | script.js:1100-1135 | the result is one getAIMove may return, and is an empty cell; the board is unchanged |
| Engine.Match.LongestLinePiece | script.js:1256-1277 | the loop computes bestCellToRemove and maxLineLengthBroken as the fold `Strategy.BestRemoval` does, and the board is unchanged |
| Engine.Match.GetAIRemovalMove | script.js:1232-1286 | the result is one getAIRemovalMove may return, and is an X piece |
| Engine.Match.BotMove | script.js:1022-1053 | when the guard holds, the bot plays an admissible move, or passes when it has none; otherwise nothing changes |
| Engine.Match.BotRemoval | script.js:1058-1093 | when the guard holds, the bot removes an admissible X piece, or passes when there is none; otherwise nothing changes |
| Scenarios.OpeningMove | script.js:630-646 | the first click in the centre places X there and hands the turn to O, with scores 0:0 |
| Scenarios.XCompletesTopRow | script.js:873-902 | completing the top row at its right end makes checkWin return the five cells from that end leftwards |
| Scenarios.XTopRowAlsoConnect4 | script.js:720-759 | the completed top row also passes the 4-check from (0, 4) with the four cells (0, 4) to (0, 1), because the scan is capped at three steps; this is why the 5-check must come first |
| Scenarios.TopRowConnect5 | script.js:720-756 | completing a top row of X's scores 2 points, clears that row and keeps X to move, with the O's untouched |
| Scenarios.OWinsAtRowEnd | script.js:1143-1158 | on the same board, O completes its own row at (1, 4) |
| Scenarios.ONoWinAtCorner | script.js:1143-1158 | an O at (0, 4) completes no 5-run |
| Scenarios.OWinningMove | script.js:1143-1158 | findWinningMove(O, 5) returns (1, 4) |
| Scenarios.BotPrefersOwnWin | script.js:1100-1107 | when both sides can complete a 5-run, the bot takes its own win rather than blocking |

## Left out

- The DOM, popups, messages, the turn indicator and the highlight animation: presentation only. The cell updates they accompany are modelled.
- Timers (`setTimeout`, `AI_DELAY`) and the promise chains after popups: each handler is modelled as one synchronous step, and the bot's turns as separate steps (`BotMove`, `BotRemoval`) rather than as self-scheduling callbacks.
- `isPlayerTurn` and `processingMove`: the input locks are left out. A human click is accepted exactly when it is X's turn and the previous step has finished.
- Interleavings of the timers: because every handler is one synchronous step, the model cannot express two behaviours the timers allow.
  - X can click before a scored run is cleared. In the bonus branch the lock is re-opened (script.js:752, 790) right after highlightAndClearCells closes it (script.js:909), while the cells are only cleared 800 ms later (script.js:919-933).
  - The bot can move twice. An ordinary X move starts two bot turns: the direct call at script.js:643 and the timer at script.js:808-811. When the first reply scores, the second turn places another O (script.js:1034-1045) before the run is cleared.
- `gameMode`, the multiplayer mode and the socket handlers: the network relay is not part of this model. Only single-player play is modelled.
- `updateGameState`, `showInstructions` and the reset and start buttons: glue. A reset is modelled by constructing a new `Match`.
- `Math.random`: each random pick is an arbitrary choice. The predicates `HeuristicChoice`, `RemovalChoice` and `AIMoveChoice` admit every candidate that could be picked.
- Engine.Match.GetAIMove: omits the last fallback of getAIMove (script.js:1128-1134). It is unreachable because findHeuristicMove already returns an empty cell whenever one exists (`Strategy.HeuristicChoiceSpec`).
- Engine.Match.BotMove: does not re-check its guard after the timer fires. With the step taken synchronously, the second check cannot differ from the first.
