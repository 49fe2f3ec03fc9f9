/**
 * The rule-based bot of script.js as specification functions: findWinningMove,
 * findHeuristicMove, getAIMove and getAIRemovalMove. Where the source picks with
 * Math.random, the specification is a predicate admitting any candidate of the list
 * the source picks from.
 */
module Strategy {
  import opened Wrappers
  import opened Board
  import Rules

  /** Placing p at q makes checkWin(q, len) succeed: the test inside findWinningMove's loop. */
  predicate Wins(g: Grid, q: Pos, p: Player, len: nat) {
    InBounds(q.row, q.col) && WinningCells(Set(g, q, p), q.row, q.col, len).Some?
  }

  /** findWinningMove's loop over a candidate list: the first candidate where p would win. */
  function FirstWinning(g: Grid, p: Player, len: nat, cells: seq<Pos>): (m: Option<Pos>) {
    if cells == [] then None
    else if Wins(g, cells[0], p, len) then Some(cells[0])
    else FirstWinning(g, p, len, cells[1..])
  }

  /** findWinningMove(p, len): the first empty cell, row-major, where p would complete a len-run. */
  function WinningMove(g: Grid, p: Player, len: nat): (m: Option<Pos>) {
    FirstWinning(g, p, len, EmptyCells(g))
  }

  /** The centre-first list of findHeuristicMove. */
  const Centre: seq<Pos> :=
    [Pos(2, 2), Pos(1, 2), Pos(2, 1), Pos(2, 3), Pos(3, 2), Pos(1, 1), Pos(1, 3), Pos(3, 1), Pos(3, 3)]

  /** Placing p at q leaves X no immediate 5-run nor 4-run: the safety probe of findHeuristicMove. */
  predicate Safe(g: Grid, q: Pos, p: Player) {
    && InBounds(q.row, q.col)
    && var h := Set(g, q, p);
       WinningMove(h, X, 5).None? && WinningMove(h, X, 4).None?
  }

  /** q is empty and safe. */
  predicate SafeEmpty(g: Grid, q: Pos, p: Player) {
    InBounds(q.row, q.col) && g[q.row][q.col] == Empty && Safe(g, q, p)
  }

  /** findHeuristicMove's centre loop over a candidate list: the first empty, safe candidate. */
  function FirstSafe(g: Grid, p: Player, cells: seq<Pos>): (m: Option<Pos>) {
    if cells == [] then None
    else if SafeEmpty(g, cells[0], p) then Some(cells[0])
    else FirstSafe(g, p, cells[1..])
  }

  /** The first empty, safe cell of the centre list. */
  function SafeCentre(g: Grid, p: Player): (m: Option<Pos>) {
    FirstSafe(g, p, Centre)
  }

  /** The `safeMoves` filter of findHeuristicMove over a candidate list. */
  function SafeMoves(g: Grid, p: Player, cells: seq<Pos>): (safe: seq<Pos>) {
    if cells == [] then []
    else
      var last := cells[|cells| - 1];
      SafeMoves(g, p, cells[..|cells| - 1]) + (if Safe(g, last, p) then [last] else [])
  }

  /**
   * What findHeuristicMove(p) may return: nothing on a full board; else the first empty safe
   * centre cell; else any safe empty cell; else any empty cell.
   */
  predicate HeuristicChoice(g: Grid, p: Player, m: Option<Pos>) {
    var empties := EmptyCells(g);
    if empties == [] then m == None
    else if SafeCentre(g, p).Some? then m == SafeCentre(g, p)
    else
      var safe := SafeMoves(g, p, empties);
      m.Some? && (if safe != [] then m.value in safe else m.value in empties)
  }

  /** The four deterministic tiers of getAIMove: own 5, own 4, block 5, block 4. */
  function PriorityMove(g: Grid): (m: Option<Pos>) {
    var win5 := WinningMove(g, O, 5);
    if win5.Some? then win5
    else
      var win4 := WinningMove(g, O, 4);
      if win4.Some? then win4
      else
        var block5 := WinningMove(g, X, 5);
        if block5.Some? then block5 else WinningMove(g, X, 4)
  }

  /** What getAIMove may return: the first tier that finds a cell, else the heuristic's choice. */
  predicate AIMoveChoice(g: Grid, m: Option<Pos>) {
    var tier := PriorityMove(g);
    if tier.Some? then m == tier else HeuristicChoice(g, O, m)
  }

  /** getAIRemovalMove's running (bestCellToRemove, maxLineLengthBroken) over a list of X cells. */
  function BestRemoval(g: Grid, cells: seq<Pos>): (best: (Option<Pos>, nat)) {
    if cells == [] then (None, 0)
    else
      var (best, longest) := BestRemoval(g, cells[..|cells| - 1]);
      var q := cells[|cells| - 1];
      var len := MaxLineLength(g, X, q.row, q.col);
      if len > longest then (Some(q), len) else (best, longest)
  }

  /**
   * What getAIRemovalMove may return: nothing when X has no piece; otherwise an X cell, which is
   * the best one found when its line is at least 2 long.
   */
  predicate RemovalChoice(g: Grid, t: Option<Pos>) {
    var xs := CellsOf(g, X);
    if xs == [] then t == None
    else t.Some? && t.value in xs && (BestRemoval(g, xs).1 >= 2 ==> t == BestRemoval(g, xs).0)
  }

  // ---------------------------------------------------------------------------
  // Lemmas
  // ---------------------------------------------------------------------------

  /** FirstWinning finds the first winning candidate, and None only when no candidate wins. */
  lemma {:induction false} FirstWinningIndex(g: Grid, p: Player, len: nat, cells: seq<Pos>) returns (i: nat)
    ensures FirstWinning(g, p, len, cells).None? <==> forall j :: 0 <= j < |cells| ==> !Wins(g, cells[j], p, len)
    ensures FirstWinning(g, p, len, cells).Some? ==>
      && i < |cells| && FirstWinning(g, p, len, cells) == Some(cells[i])
      && Wins(g, cells[i], p, len)
      && forall j :: 0 <= j < i ==> !Wins(g, cells[j], p, len)
    decreases |cells|
  {
    if cells == [] {
      i := 0;
    } else if Wins(g, cells[0], p, len) {
      i := 0;
    } else {
      var k := FirstWinningIndex(g, p, len, cells[1..]);
      i := k + 1;
      forall j | 0 <= j < |cells| && j != 0 ensures cells[j] == cells[1..][j - 1] {}
    }
  }

  /** One iteration of findWinningMove's loop over cells[i..]. */
  lemma FirstWinningStep(g: Grid, p: Player, len: nat, cells: seq<Pos>, i: nat)
    requires i < |cells|
    ensures FirstWinning(g, p, len, cells[i..]) ==
      if Wins(g, cells[i], p, len) then Some(cells[i]) else FirstWinning(g, p, len, cells[i + 1..])
  {
    assert cells[i..][0] == cells[i] && cells[i..][1..] == cells[i + 1..];
  }

  /**
   * findWinningMove: a result is an empty cell where p would complete a len-run, and no empty
   * cell before it in row-major order would; no result means no empty cell would.
   */
  lemma WinningMoveSpec(g: Grid, p: Player, len: nat)
    ensures match WinningMove(g, p, len)
      case None =>
        forall q: Pos :: InBounds(q.row, q.col) && g[q.row][q.col] == Empty ==> !Wins(g, q, p, len)
      case Some(q) =>
        && InBounds(q.row, q.col) && g[q.row][q.col] == Empty && Wins(g, q, p, len)
        && forall q': Pos :: InBounds(q'.row, q'.col) && g[q'.row][q'.col] == Empty && Before(q', q) ==> !Wins(g, q', p, len)
  {
    var cells := EmptyCells(g);
    CellsOfSpec(g, Empty);
    var i := FirstWinningIndex(g, p, len, cells);
    match WinningMove(g, p, len)
    case None =>
      forall q: Pos | InBounds(q.row, q.col) && g[q.row][q.col] == Empty ensures !Wins(g, q, p, len) {
        assert q in cells;
        var j :| 0 <= j < |cells| && cells[j] == q;
      }
    case Some(q) =>
      assert q == cells[i] && q in cells;
      forall q': Pos | InBounds(q'.row, q'.col) && g[q'.row][q'.col] == Empty && Before(q', q)
        ensures !Wins(g, q', p, len)
      {
        assert q' in cells;
        var j :| 0 <= j < |cells| && cells[j] == q';
        assert i < j ==> Before(q, q');
        assert j < i;
      }
  }

  /**
   * The converse of WinningMoveSpec: an empty cell where p wins, with no winning empty cell
   * before it, is exactly what findWinningMove returns.
   */
  lemma WinningMoveIs(g: Grid, p: Player, len: nat, q: Pos)
    requires InBounds(q.row, q.col) && g[q.row][q.col] == Empty && Wins(g, q, p, len)
    requires forall q': Pos :: InBounds(q'.row, q'.col) && g[q'.row][q'.col] == Empty && Before(q', q) ==> !Wins(g, q', p, len)
    ensures WinningMove(g, p, len) == Some(q)
  {
    WinningMoveSpec(g, p, len);
    var w := WinningMove(g, p, len);
    assert w.Some?;
    assert !Before(w.value, q) && !Before(q, w.value);
  }

  /** The centre loop returns the first candidate that is empty and safe, or nothing if none is. */
  lemma {:induction false} FirstSafeIndex(g: Grid, p: Player, cells: seq<Pos>) returns (i: nat)
    ensures FirstSafe(g, p, cells).None? <==> forall j :: 0 <= j < |cells| ==> !SafeEmpty(g, cells[j], p)
    ensures FirstSafe(g, p, cells).Some? ==>
      && i < |cells| && FirstSafe(g, p, cells) == Some(cells[i])
      && SafeEmpty(g, cells[i], p)
      && forall j :: 0 <= j < i ==> !SafeEmpty(g, cells[j], p)
    decreases |cells|
  {
    if cells == [] || SafeEmpty(g, cells[0], p) {
      i := 0;
    } else {
      var k := FirstSafeIndex(g, p, cells[1..]);
      i := k + 1;
      forall j | 0 < j < |cells| ensures cells[j] == cells[1..][j - 1] {}
    }
  }

  /** The safeMoves filter keeps exactly the safe candidates. */
  lemma {:induction false} SafeMovesSpec(g: Grid, p: Player, cells: seq<Pos>)
    ensures forall q: Pos :: q in SafeMoves(g, p, cells) <==> q in cells && Safe(g, q, p)
    decreases |cells|
  {
    if cells != [] {
      var front := cells[..|cells| - 1];
      SafeMovesSpec(g, p, front);
      assert cells == front + [cells[|cells| - 1]];
    }
  }

  /**
   * findHeuristicMove returns nothing exactly on a full board; otherwise an empty cell, which is
   * safe whenever any empty cell is safe, and is the first safe centre cell when there is one.
   */
  lemma HeuristicChoiceSpec(g: Grid, p: Player, m: Option<Pos>)
    requires HeuristicChoice(g, p, m)
    ensures m.None? <==> Full(g)
    ensures m.Some? ==> InBounds(m.value.row, m.value.col) && g[m.value.row][m.value.col] == Empty
    ensures m.Some? && (exists q: Pos :: SafeEmpty(g, q, p)) ==> Safe(g, m.value, p)
    ensures SafeCentre(g, p).Some? ==> m == SafeCentre(g, p) && SafeEmpty(g, m.value, p)
  {
    var empties := EmptyCells(g);
    CellsOfSpec(g, Empty);
    FullIffNoEmptyCells(g);
    var i := FirstSafeIndex(g, p, Centre);
    SafeMovesSpec(g, p, empties);
    if m.Some? && (exists q: Pos :: SafeEmpty(g, q, p)) && SafeCentre(g, p).None? {
      var q :| SafeEmpty(g, q, p);
      assert q in empties;
      assert q in SafeMoves(g, p, empties);
    }
  }

  /**
   * getAIMove returns nothing exactly on a full board, and otherwise an empty cell; the four
   * tiers are deterministic, the first one that finds a cell deciding the move.
   */
  lemma AIMoveChoiceSpec(g: Grid, m: Option<Pos>)
    requires AIMoveChoice(g, m)
    ensures m.None? <==> Full(g)
    ensures m.Some? ==> InBounds(m.value.row, m.value.col) && g[m.value.row][m.value.col] == Empty
    ensures WinningMove(g, O, 5).Some? ==> m == WinningMove(g, O, 5) && Wins(g, m.value, O, 5)
    ensures PriorityMove(g).None? ==> HeuristicChoice(g, O, m)
  {
    WinningMoveSpec(g, O, 5);
    WinningMoveSpec(g, O, 4);
    WinningMoveSpec(g, X, 5);
    WinningMoveSpec(g, X, 4);
    FullIffNoEmptyCells(g);
    CellsOfSpec(g, Empty);
    if PriorityMove(g).None? {
      HeuristicChoiceSpec(g, O, m);
    } else {
      var q := m.value;
      assert InBounds(q.row, q.col) && g[q.row][q.col] == Empty;
      assert q in EmptyCells(g);
    }
  }

  /**
   * In every reachable state where the bot may move, getAIMove finds a cell: the
   * "AI could not find a valid move" branch of triggerAIMove is never taken.
   */
  lemma BotAlwaysFindsMove(s: Rules.Game, m: Option<Pos>)
    requires Rules.Inv(s) && Rules.BotMayMove(s) && AIMoveChoice(s.grid, m)
    ensures m.Some?
  {
    AIMoveChoiceSpec(s.grid, m);
  }

  /** One iteration of getAIRemovalMove's loop over cells[..i + 1]. */
  lemma BestRemovalStep(g: Grid, cells: seq<Pos>, i: nat)
    requires i < |cells|
    ensures BestRemoval(g, cells[..i + 1]) ==
      var len := MaxLineLength(g, X, cells[i].row, cells[i].col);
      if len > BestRemoval(g, cells[..i]).1 then (Some(cells[i]), len) else BestRemoval(g, cells[..i])
  {
    assert cells[..i + 1][..i] == cells[..i];
  }

  /**
   * getAIRemovalMove's scan keeps the first cell (in list order) whose line is longest, and that
   * longest length.
   */
  lemma {:induction false} BestRemovalSpec(g: Grid, cells: seq<Pos>) returns (i: nat)
    requires cells != []
    ensures i < |cells|
    ensures BestRemoval(g, cells) == (Some(cells[i]), MaxLineLength(g, X, cells[i].row, cells[i].col))
    ensures forall j :: 0 <= j < |cells| ==>
      MaxLineLength(g, X, cells[j].row, cells[j].col) <= MaxLineLength(g, X, cells[i].row, cells[i].col)
    ensures forall j :: 0 <= j < i ==>
      MaxLineLength(g, X, cells[j].row, cells[j].col) < MaxLineLength(g, X, cells[i].row, cells[i].col)
    decreases |cells|
  {
    var n := |cells|;
    var front := cells[..n - 1];
    var q := cells[n - 1];
    MaxLineLengthIsMax(g, X, q.row, q.col);
    if n == 1 {
      i := 0;
    } else {
      var k := BestRemovalSpec(g, front);
      if MaxLineLength(g, X, q.row, q.col) > MaxLineLength(g, X, front[k].row, front[k].col) {
        i := n - 1;
      } else {
        i := k;
      }
      forall j | 0 <= j < n - 1 ensures cells[j] == front[j] {}
    }
  }

  /**
   * getAIRemovalMove returns nothing exactly when X has no piece, and otherwise an X cell. When
   * some X piece lies on a line of 2 or more, it is the first X cell in row-major order whose
   * line is longest.
   */
  lemma RemovalChoiceSpec(g: Grid, t: Option<Pos>)
    requires RemovalChoice(g, t)
    ensures t.None? <==> forall r, c :: InBounds(r, c) ==> g[r][c] != X
    ensures t.Some? ==> InBounds(t.value.row, t.value.col) && g[t.value.row][t.value.col] == X
    ensures t.Some? && (exists q: Pos :: InBounds(q.row, q.col) && g[q.row][q.col] == X && MaxLineLength(g, X, q.row, q.col) >= 2) ==>
      var best := MaxLineLength(g, X, t.value.row, t.value.col);
      && (forall q: Pos :: InBounds(q.row, q.col) && g[q.row][q.col] == X ==> MaxLineLength(g, X, q.row, q.col) <= best)
      && (forall q: Pos :: InBounds(q.row, q.col) && g[q.row][q.col] == X && Before(q, t.value) ==> MaxLineLength(g, X, q.row, q.col) < best)
  {
    var xs := CellsOf(g, X);
    CellsOfSpec(g, X);
    if xs != [] {
      assert xs[0] in xs;
      var i := BestRemovalSpec(g, xs);
      var best := MaxLineLength(g, X, xs[i].row, xs[i].col);
      forall q: Pos | InBounds(q.row, q.col) && g[q.row][q.col] == X
        ensures q in xs && MaxLineLength(g, X, q.row, q.col) <= best
      {
        var j :| 0 <= j < |xs| && xs[j] == q;
      }
      if exists q: Pos :: InBounds(q.row, q.col) && g[q.row][q.col] == X && MaxLineLength(g, X, q.row, q.col) >= 2 {
        assert best >= 2;
        assert t.value == xs[i];
        forall q: Pos | InBounds(q.row, q.col) && g[q.row][q.col] == X && Before(q, t.value)
          ensures MaxLineLength(g, X, q.row, q.col) < best
        {
          var j :| 0 <= j < |xs| && xs[j] == q;
          var chosen := xs[i];
          assert i < j ==> Before(chosen, q);
          assert j < i;
        }
      }
    } else {
      forall r, c | InBounds(r, c) ensures g[r][c] != X {
        assert Pos(r, c) !in xs;
      }
    }
  }
}
