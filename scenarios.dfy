/** Worked examples of the rules on concrete boards. */
module Scenarios {
  import opened Wrappers
  import opened Board
  import opened Rules
  import opened Strategy

  /** The opening click of a fresh game puts X in the centre and hands the turn to the bot. */
  lemma OpeningMove()
    ensures var t := CellClick(Initial, 2, 2);
      && t.grid == Set(EmptyGrid, Pos(2, 2), X)
      && t.current == O && t.scoreX == 0 && t.scoreO == 0 && !t.gameOver && !t.removal
  {
    var g := Set(EmptyGrid, Pos(2, 2), X);
    assert g[2][2] == X && g[2][3] == Empty && g[2][1] == Empty && g[3][2] == Empty && g[1][2] == Empty;
    assert g[3][3] == Empty && g[1][1] == Empty && g[3][1] == Empty && g[1][3] == Empty;
    assert !Full(g) by { assert g[0][0] == Empty; }
  }

  /** Four X's along the top row and four O's below them; X to move. */
  function TopRowGame(): (s: Game) {
    Game([[X, X, X, X, Empty],
          [O, O, O, O, Empty],
          [Empty, Empty, Empty, Empty, Empty],
          [Empty, Empty, Empty, Empty, Empty],
          [Empty, Empty, Empty, Empty, Empty]],
         X, 0, 0, false, false, 0, None)
  }

  /** X completes the top row at (0, 4): checkWin reports the five cells from (0, 4) leftwards. */
  lemma XCompletesTopRow()
    ensures WinningCells(Set(TopRowGame().grid, Pos(0, 4), X), 0, 4, 5)
         == Some([Pos(0, 4), Pos(0, 3), Pos(0, 2), Pos(0, 1), Pos(0, 0)])
  {
    var g := Set(TopRowGame().grid, Pos(0, 4), X);
    var run := [Pos(0, 4), Pos(0, 3), Pos(0, 2), Pos(0, 1), Pos(0, 0)];
    assert g[0][0] == X && g[0][1] == X && g[0][2] == X && g[0][3] == X && g[0][4] == X;
    assert Ray(g, X, 0, 4, Horizontal, true, 4) == [];
    assert Ray(g, X, 0, 4, Horizontal, false, 4) == run[1..];
    assert Run(g, X, 0, 4, Horizontal, 4) == run;
    assert Axes[0] == Horizontal && Steps(5) == 4;
    assert WinFrom(g, 0, 4, 5, 0) == Some(run);
  }

  /**
   * The same completed row also passes the 4-check from (0, 4): the backward scan stops at its
   * cap of three cells, so the count is exactly 4. This is why processMoveResult must try the
   * 5-check first.
   */
  lemma XTopRowAlsoConnect4()
    ensures WinningCells(Set(TopRowGame().grid, Pos(0, 4), X), 0, 4, 4)
         == Some([Pos(0, 4), Pos(0, 3), Pos(0, 2), Pos(0, 1)])
  {
    var g := Set(TopRowGame().grid, Pos(0, 4), X);
    var run := [Pos(0, 4), Pos(0, 3), Pos(0, 2), Pos(0, 1)];
    assert g[0][1] == X && g[0][2] == X && g[0][3] == X && g[0][4] == X;
    assert Ray(g, X, 0, 4, Horizontal, true, 3) == [];
    assert Ray(g, X, 0, 4, Horizontal, false, 3) == run[1..];
    assert Run(g, X, 0, 4, Horizontal, 3) == run;
    assert Axes[0] == Horizontal && Steps(4) == 3;
    assert WinFrom(g, 0, 4, 4, 0) == Some(run);
  }

  /**
   * Completing the top row is a connect-5: X gains 2 points, the five cells are cleared and X
   * keeps the turn; the O's are untouched.
   */
  lemma TopRowConnect5(t: Game)
    requires t == CellClick(TopRowGame(), 0, 4)
    ensures && t.scoreX == 2 && t.scoreO == 0 && t.current == X && !t.gameOver && !t.removal
      && (forall c :: 0 <= c < N ==> t.grid[0][c] == Empty)
      && (forall c :: 0 <= c < 4 ==> t.grid[1][c] == O)
  {
    var g := Set(TopRowGame().grid, Pos(0, 4), X);
    var run := [Pos(0, 4), Pos(0, 3), Pos(0, 2), Pos(0, 1), Pos(0, 0)];
    XCompletesTopRow();
    assert t == Scored(TopRowGame().(grid := g), X, Connect5Points, run);
    ClearCellsSpec(g, run);
  }

  /** O completes row 1 at (1, 4). */
  lemma OWinsAtRowEnd()
    ensures Wins(TopRowGame().grid, Pos(1, 4), O, 5)
  {
  }

  /** An O at (0, 4) makes no line of five: its longest line is two long. */
  lemma ONoWinAtCorner()
    ensures !Wins(TopRowGame().grid, Pos(0, 4), O, 5)
  {
  }

  /** The only empty cell before (1, 4) is (0, 4), so findWinningMove(O, 5) stops at (1, 4). */
  lemma OWinningMove()
    ensures WinningMove(TopRowGame().grid, O, 5) == Some(Pos(1, 4))
  {
    var g := TopRowGame().grid;
    OWinsAtRowEnd();
    ONoWinAtCorner();
    forall q': Pos | InBounds(q'.row, q'.col) && g[q'.row][q'.col] == Empty && Before(q', Pos(1, 4))
      ensures !Wins(g, q', O, 5)
    {
      assert q' == Pos(0, 4);
    }
    WinningMoveIs(g, O, 5, Pos(1, 4));
  }

  /**
   * On the same board with O to move, both rows can be completed at column 4: the bot takes
   * its own connect-5 at (1, 4) rather than blocking X at (0, 4).
   */
  lemma BotPrefersOwnWin()
    ensures PriorityMove(TopRowGame().grid) == Some(Pos(1, 4))
    ensures forall m :: AIMoveChoice(TopRowGame().grid, m) <==> m == Some(Pos(1, 4))
  {
    OWinningMove();
  }
}
