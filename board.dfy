/**
 * The 5×5 board of the game engine in script.js as a value, and the line scans the
 * engine runs over it: checkWin, getMaxLineLengthContaining, getEmptyCells and
 * isBoardFull are specified here by functions; the class in engine.dfy runs them as
 * loops over its array and is proved to compute these functions.
 */
module Board {
  import opened Wrappers

  const N: nat := 5                  // GRID_SIZE
  const WinningScore: nat := 5       // WINNING_SCORE
  const Connect5Points: nat := 2     // CONNECT_5_POINTS
  const Connect4Points: nat := 1     // CONNECT_4_POINTS
  const RemovalTurnsEach: nat := 3   // REMOVAL_TURNS_EACH

  /** A cell of the board: `null`, 'X' or 'O' in the source. */
  datatype Cell = Empty | X | O

  /** The symbol of a player. */
  type Player = c: Cell | c != Empty witness X

  function Opponent(p: Player): (q: Player)
    ensures q != p
  {
    if p == X then O else X
  }

  datatype Pos = Pos(row: int, col: int)

  predicate InBounds(r: int, c: int) {
    0 <= r < N && 0 <= c < N
  }

  predicate AllInBounds(cells: seq<Pos>) {
    forall i :: 0 <= i < |cells| ==> InBounds(cells[i].row, cells[i].col)
  }

  /** A board: N rows of N cells, indexed [row][col]. */
  type Grid = g: seq<seq<Cell>> | |g| == N && forall r :: 0 <= r < N ==> |g[r]| == N
    witness seq(5, r => seq(5, c => Empty))

  const EmptyGrid: Grid := seq(N, r => seq(N, c => Empty))

  /** The board with cell q set to v (placeSymbol, removeSymbol and the bot's probes). */
  function Set(g: Grid, q: Pos, v: Cell): (h: Grid)
    requires InBounds(q.row, q.col)
    ensures forall r, c :: InBounds(r, c) ==> h[r][c] == if r == q.row && c == q.col then v else g[r][c]
  {
    g[q.row := g[q.row][q.col := v]]
  }

  /** No cell is empty. */
  predicate Full(g: Grid) {
    forall r, c :: 0 <= r < N && 0 <= c < N ==> g[r][c] != Empty
  }

  // ---------------------------------------------------------------------------
  // Line scans
  // ---------------------------------------------------------------------------

  /** The four scan directions, in the source's order: (0,1), (1,0), (1,1), (1,-1). */
  datatype Axis = Horizontal | Vertical | Diagonal | AntiDiagonal

  const Axes: seq<Axis> := [Horizontal, Vertical, Diagonal, AntiDiagonal]

  /** Row step along an axis, forwards (the direction vector) or backwards (its negation). */
  function DRow(a: Axis, forward: bool): (dr: int) {
    match a
    case Horizontal => 0
    case _ => if forward then 1 else -1
  }

  /** Column step along an axis, forwards or backwards. */
  function DCol(a: Axis, forward: bool): (dc: int) {
    match a
    case Horizontal => if forward then 1 else -1
    case Vertical => 0
    case Diagonal => if forward then 1 else -1
    case AntiDiagonal => if forward then -1 else 1
  }

  /** q lies on the line through (r, c) along axis a. */
  predicate OnAxis(a: Axis, r: int, c: int, q: Pos) {
    match a
    case Horizontal => q.row == r
    case Vertical => q.col == c
    case Diagonal => q.row - r == q.col - c
    case AntiDiagonal => q.row - r == c - q.col
  }

  /** Signed number of forward steps from (r, c) to q along axis a. */
  function Offset(a: Axis, r: int, c: int, q: Pos): (o: int) {
    match a
    case Horizontal => q.col - c
    case _ => q.row - r
  }

  /**
   * The cells collected by one inner loop of checkWin or getMaxLineLengthContaining:
   * stepping from (r, c) by (dr, dc), at most `steps` cells, stopping before the first
   * cell that is off the board or does not hold p.
   */
  function Walk(g: Grid, p: Cell, r: int, c: int, dr: int, dc: int, steps: nat): (cells: seq<Pos>)
    decreases steps
  {
    var nr, nc := r + dr, c + dc;
    if steps == 0 || !InBounds(nr, nc) || g[nr][nc] != p then []
    else [Pos(nr, nc)] + Walk(g, p, nr, nc, dr, dc, steps - 1)
  }

  /** The next cell of a walk joins the collected prefix when it is on the board and holds p. */
  lemma WalkAdvance(g: Grid, p: Cell, r: int, c: int, dr: int, dc: int, steps: nat,
                    cells: seq<Pos>, nr: int, nc: int, left: nat)
    requires 0 < left && InBounds(nr + dr, nc + dc) && g[nr + dr][nc + dc] == p
    requires cells + Walk(g, p, nr, nc, dr, dc, left) == Walk(g, p, r, c, dr, dc, steps)
    ensures (cells + [Pos(nr + dr, nc + dc)]) + Walk(g, p, nr + dr, nc + dc, dr, dc, left - 1)
            == Walk(g, p, r, c, dr, dc, steps)
  {
    var rest := Walk(g, p, nr + dr, nc + dc, dr, dc, left - 1);
    assert Walk(g, p, nr, nc, dr, dc, left) == [Pos(nr + dr, nc + dc)] + rest;
    assert (cells + [Pos(nr + dr, nc + dc)]) + rest == cells + ([Pos(nr + dr, nc + dc)] + rest);
  }

  /** A walk ends when its steps run out or the next cell is off the board or does not hold p. */
  lemma WalkStop(g: Grid, p: Cell, r: int, c: int, dr: int, dc: int, steps: nat,
                 cells: seq<Pos>, nr: int, nc: int, left: nat)
    requires left == 0 || !InBounds(nr + dr, nc + dc) || g[nr + dr][nc + dc] != p
    requires cells + Walk(g, p, nr, nc, dr, dc, left) == Walk(g, p, r, c, dr, dc, steps)
    ensures cells == Walk(g, p, r, c, dr, dc, steps)
  {
    assert Walk(g, p, nr, nc, dr, dc, left) == [];
    assert cells + [] == cells;
  }

  /** The walk along an axis, forwards or backwards. */
  function Ray(g: Grid, p: Cell, r: int, c: int, a: Axis, forward: bool, steps: nat): (ray: seq<Pos>) {
    Walk(g, p, r, c, DRow(a, forward), DCol(a, forward), steps)
  }

  /** The cells checkWin collects along one axis: the start, the forward ray, the backward ray. */
  function Run(g: Grid, p: Cell, r: int, c: int, a: Axis, steps: nat): (cells: seq<Pos>) {
    [Pos(r, c)] + Ray(g, p, r, c, a, true, steps) + Ray(g, p, r, c, a, false, steps)
  }

  /** The cap of checkWin's inner loops: `for (i = 1; i < connectLength; i++)`. */
  function Steps(len: nat): (n: nat) {
    if len == 0 then 0 else len - 1
  }

  /** checkWin's loop over the axes from index k on: the first axis whose count is exactly len. */
  function WinFrom(g: Grid, r: int, c: int, len: nat, k: nat): (win: Option<seq<Pos>>)
    requires InBounds(r, c) && k <= |Axes|
    decreases |Axes| - k
  {
    if k == |Axes| then None
    else
      var cells := Run(g, g[r][c], r, c, Axes[k], Steps(len));
      if |cells| == len then Some(cells) else WinFrom(g, r, c, len, k + 1)
  }

  /** One iteration of checkWin's loop over the axes. */
  lemma WinFromStep(g: Grid, r: int, c: int, len: nat, k: nat)
    requires InBounds(r, c) && k < |Axes|
    ensures WinFrom(g, r, c, len, k) ==
      var cells := Run(g, g[r][c], r, c, Axes[k], Steps(len));
      if |cells| == len then Some(cells) else WinFrom(g, r, c, len, k + 1)
  {
  }

  /** checkWin(r, c, len): the winning cells through the last-placed cell (r, c), if any. */
  function WinningCells(g: Grid, r: int, c: int, len: nat): (win: Option<seq<Pos>>)
    requires InBounds(r, c)
  {
    if g[r][c] == Empty then None else WinFrom(g, r, c, len, 0)
  }

  /** The count getMaxLineLengthContaining computes for one axis (its loops run GRID_SIZE - 1 steps). */
  function RunLength(g: Grid, p: Cell, r: int, c: int, a: Axis): (n: nat) {
    |Run(g, p, r, c, a, N - 1)|
  }

  function Max(x: int, y: int): (m: int) {
    if x < y then y else x
  }

  /** The running maximum of getMaxLineLengthContaining after the first k axes. */
  function MaxUpTo(g: Grid, p: Cell, r: int, c: int, k: nat): (n: nat)
    requires k <= |Axes|
  {
    if k == 0 then 0 else Max(MaxUpTo(g, p, r, c, k - 1), RunLength(g, p, r, c, Axes[k - 1]))
  }

  /** getMaxLineLengthContaining(r, c, p). */
  function MaxLineLength(g: Grid, p: Cell, r: int, c: int): (n: nat) {
    MaxUpTo(g, p, r, c, |Axes|)
  }

  // ---------------------------------------------------------------------------
  // Row-major cell lists
  // ---------------------------------------------------------------------------

  /** The cells of row r left of column c that hold v, left to right. */
  function RowCells(g: Grid, v: Cell, r: nat, c: nat): (cells: seq<Pos>)
    requires r < N && c <= N
  {
    if c == 0 then []
    else RowCells(g, v, r, c - 1) + (if g[r][c - 1] == v then [Pos(r, c - 1)] else [])
  }

  /** The cells of the first r rows that hold v, in row-major order. */
  function CellsBefore(g: Grid, v: Cell, r: nat): (cells: seq<Pos>)
    requires r <= N
  {
    if r == 0 then [] else CellsBefore(g, v, r - 1) + RowCells(g, v, r - 1, N)
  }

  /** All cells holding v in row-major order (getEmptyCells for v = Empty). */
  function CellsOf(g: Grid, v: Cell): (cells: seq<Pos>) {
    CellsBefore(g, v, N)
  }

  function EmptyCells(g: Grid): (cells: seq<Pos>) {
    CellsOf(g, Empty)
  }

  /** p comes before q in row-major order. */
  predicate Before(p: Pos, q: Pos) {
    p.row < q.row || (p.row == q.row && p.col < q.col)
  }

  predicate RowMajor(cells: seq<Pos>) {
    forall i, j :: 0 <= i < j < |cells| ==> Before(cells[i], cells[j])
  }

  /** The board with every listed cell emptied, one after the other (highlightAndClearCells). */
  function ClearCells(g: Grid, cells: seq<Pos>): (h: Grid) {
    if cells == [] then g
    else
      var h := ClearCells(g, cells[..|cells| - 1]);
      var q := cells[|cells| - 1];
      if InBounds(q.row, q.col) then Set(h, q, Empty) else h
  }

  // ---------------------------------------------------------------------------
  // Lemmas
  // ---------------------------------------------------------------------------

  /**
   * Every cell of a ray holds p, is on the board, lies on the axis and is i + 1 steps out; a ray
   * shorter than its cap ends at the board's edge or before a cell not holding p.
   */
  lemma {:induction false} RayShape(g: Grid, p: Cell, r: int, c: int, a: Axis, forward: bool, steps: nat)
    ensures var ray := Ray(g, p, r, c, a, forward, steps);
      && |ray| <= steps
      && forall i :: 0 <= i < |ray| ==>
           && InBounds(ray[i].row, ray[i].col)
           && g[ray[i].row][ray[i].col] == p
           && OnAxis(a, r, c, ray[i])
           && Offset(a, r, c, ray[i]) == if forward then i + 1 else -(i + 1)
    ensures var ray := Ray(g, p, r, c, a, forward, steps);
      |ray| < steps ==> Blocked(g, p, RayEnd(r, c, ray), a, forward)
    decreases steps
  {
    RayStops(g, p, r, c, a, forward, steps);
    var nr, nc := r + DRow(a, forward), c + DCol(a, forward);
    if steps == 0 || !InBounds(nr, nc) || g[nr][nc] != p {
    } else {
      var ray := Ray(g, p, r, c, a, forward, steps);
      var rest := Ray(g, p, nr, nc, a, forward, steps - 1);
      RayShape(g, p, nr, nc, a, forward, steps - 1);
      assert ray == [Pos(nr, nc)] + rest;
      forall i | 0 <= i < |ray|
        ensures OnAxis(a, r, c, ray[i]) && Offset(a, r, c, ray[i]) == if forward then i + 1 else -(i + 1)
      {
        if i > 0 {
          assert ray[i] == rest[i - 1];
          assert OnAxis(a, nr, nc, rest[i - 1]);
        }
      }
    }
  }

  /** The cell after q along an axis is off the board or does not hold p: a scan loop's `else break`. */
  predicate Blocked(g: Grid, p: Cell, q: Pos, a: Axis, forward: bool) {
    var nr, nc := q.row + DRow(a, forward), q.col + DCol(a, forward);
    !InBounds(nr, nc) || g[nr][nc] != p
  }

  /** Where a ray ends: its last cell, or the start when it is empty. */
  function RayEnd(r: int, c: int, ray: seq<Pos>): (q: Pos) {
    if ray == [] then Pos(r, c) else ray[|ray| - 1]
  }

  /** A ray shorter than its cap stops only at the board's edge or at the first cell not holding p. */
  lemma {:induction false} RayStops(g: Grid, p: Cell, r: int, c: int, a: Axis, forward: bool, steps: nat)
    ensures var ray := Ray(g, p, r, c, a, forward, steps);
      |ray| < steps ==> Blocked(g, p, RayEnd(r, c, ray), a, forward)
    decreases steps
  {
    var nr, nc := r + DRow(a, forward), c + DCol(a, forward);
    if steps > 0 && InBounds(nr, nc) && g[nr][nc] == p {
      var ray := Ray(g, p, r, c, a, forward, steps);
      var rest := Ray(g, p, nr, nc, a, forward, steps - 1);
      RayStops(g, p, nr, nc, a, forward, steps - 1);
      assert ray == [Pos(nr, nc)] + rest;
      assert RayEnd(r, c, ray) == RayEnd(nr, nc, rest);
    }
  }

  /**
   * With the cap GRID_SIZE - 1 of getMaxLineLengthContaining, a ray from a cell on the board never
   * stops at the cap: it runs to the board's edge or to the first cell not holding p.
   */
  lemma RayMaximal(g: Grid, p: Cell, r: int, c: int, a: Axis, forward: bool)
    requires InBounds(r, c)
    ensures Blocked(g, p, RayEnd(r, c, Ray(g, p, r, c, a, forward, N - 1)), a, forward)
  {
    var ray := Ray(g, p, r, c, a, forward, N - 1);
    RayShape(g, p, r, c, a, forward, N - 1);
    RayStops(g, p, r, c, a, forward, N - 1);
    if |ray| == N - 1 {
      var q := ray[N - 2];
      assert OnAxis(a, r, c, q) && Offset(a, r, c, q) == if forward then N - 1 else -(N - 1);
    }
  }

  /**
   * getMaxLineLengthContaining's count along one axis is the placed cell plus the two maximal
   * stretches of p beside it: both stretches hold p, and each is followed by the board's edge or
   * a cell not holding p.
   */
  lemma RunLengthIsMaximalLine(g: Grid, p: Cell, r: int, c: int, a: Axis)
    requires InBounds(r, c)
    ensures var fwd, bwd := Ray(g, p, r, c, a, true, N - 1), Ray(g, p, r, c, a, false, N - 1);
      && RunLength(g, p, r, c, a) == 1 + |fwd| + |bwd|
      && (forall i :: 0 <= i < |fwd| ==> InBounds(fwd[i].row, fwd[i].col) && g[fwd[i].row][fwd[i].col] == p)
      && (forall i :: 0 <= i < |bwd| ==> InBounds(bwd[i].row, bwd[i].col) && g[bwd[i].row][bwd[i].col] == p)
      && Blocked(g, p, RayEnd(r, c, fwd), a, true)
      && Blocked(g, p, RayEnd(r, c, bwd), a, false)
  {
    RayShape(g, p, r, c, a, true, N - 1);
    RayShape(g, p, r, c, a, false, N - 1);
    RayMaximal(g, p, r, c, a, true);
    RayMaximal(g, p, r, c, a, false);
  }

  /**
   * The cells of one axis, as checkWin lists them, hold the start cell first, lie on the axis
   * and are distinct, and each is one step further out than the one before: first forward
   * from the start, then, once, back to the cell just behind the start and on backward. So
   * they are consecutive, without a gap.
   */
  predicate IsLineThrough(cells: seq<Pos>, g: Grid, p: Cell, r: int, c: int, a: Axis) {
    && |cells| >= 1
    && cells[0] == Pos(r, c)
    && (forall i :: 1 <= i < |cells| ==> InBounds(cells[i].row, cells[i].col) && g[cells[i].row][cells[i].col] == p)
    && (forall i :: 0 <= i < |cells| ==> OnAxis(a, r, c, cells[i]))
    && (forall i, j :: 0 <= i < j < |cells| ==> cells[i] != cells[j])
    && (forall i :: 1 <= i < |cells| ==> NextOutward(Offset(a, r, c, cells[i - 1]), Offset(a, r, c, cells[i])))
  }

  /** Offset o' follows offset o in a run: one further forward, the turn to -1, or one further backward. */
  predicate NextOutward(o: int, o': int) {
    if o >= 0 then o' == o + 1 || o' == -1 else o' == o - 1
  }

  lemma RunShape(g: Grid, p: Cell, r: int, c: int, a: Axis, steps: nat)
    ensures IsLineThrough(Run(g, p, r, c, a, steps), g, p, r, c, a)
    ensures var fwd := Ray(g, p, r, c, a, true, steps); var cells := Run(g, p, r, c, a, steps);
      forall i :: 0 <= i < |cells| ==> Offset(a, r, c, cells[i]) == if i <= |fwd| then i else |fwd| - i
    ensures |Run(g, p, r, c, a, steps)| <= 2 * steps + 1
  {
    var fwd := Ray(g, p, r, c, a, true, steps);
    var cells := Run(g, p, r, c, a, steps);
    RunOffsets(g, p, r, c, a, steps);
    forall i | 1 <= i < |cells|
      ensures NextOutward(Offset(a, r, c, cells[i - 1]), Offset(a, r, c, cells[i]))
    {
      assert Offset(a, r, c, cells[i - 1]) == if i - 1 <= |fwd| then i - 1 else |fwd| - (i - 1);
    }
  }

  /** Where each cell of a run lies: the start at offset 0, the forward ray at 1, 2, ..., the backward ray at -1, -2, .... */
  lemma RunOffsets(g: Grid, p: Cell, r: int, c: int, a: Axis, steps: nat)
    ensures var fwd := Ray(g, p, r, c, a, true, steps); var cells := Run(g, p, r, c, a, steps);
      && |cells| >= 1 && cells[0] == Pos(r, c)
      && (forall i :: 1 <= i < |cells| ==> InBounds(cells[i].row, cells[i].col) && g[cells[i].row][cells[i].col] == p)
      && (forall i :: 0 <= i < |cells| ==> OnAxis(a, r, c, cells[i]))
      && (forall i, j :: 0 <= i < j < |cells| ==> cells[i] != cells[j])
      && (forall i :: 0 <= i < |cells| ==> Offset(a, r, c, cells[i]) == if i <= |fwd| then i else |fwd| - i)
    ensures |Run(g, p, r, c, a, steps)| <= 2 * steps + 1
  {
    var fwd := Ray(g, p, r, c, a, true, steps);
    var bwd := Ray(g, p, r, c, a, false, steps);
    RayShape(g, p, r, c, a, true, steps);
    RayShape(g, p, r, c, a, false, steps);
    var cells := Run(g, p, r, c, a, steps);
    assert cells == [Pos(r, c)] + fwd + bwd;
    forall i | 0 <= i < |cells|
      ensures OnAxis(a, r, c, cells[i])
      ensures Offset(a, r, c, cells[i]) == if i == 0 then 0 else if i <= |fwd| then i else |fwd| - i
      ensures i >= 1 ==> InBounds(cells[i].row, cells[i].col) && g[cells[i].row][cells[i].col] == p
    {
      if i == 0 {
      } else if i <= |fwd| {
        assert cells[i] == fwd[i - 1];
      } else {
        assert cells[i] == bwd[i - 1 - |fwd|];
      }
    }
  }

  /**
   * checkWin returns null when the last cell is empty; otherwise a result is exactly len
   * distinct cells, the first being (r, c), all holding its symbol, all on one axis through it.
   */
  lemma WinningCellsShape(g: Grid, r: int, c: int, len: nat)
    requires InBounds(r, c)
    ensures g[r][c] == Empty ==> WinningCells(g, r, c, len) == None
    ensures WinningCells(g, r, c, len).Some? ==>
      var cells := WinningCells(g, r, c, len).value;
      && g[r][c] != Empty
      && |cells| == len
      && AllInBounds(cells)
      && exists a :: cells == Run(g, g[r][c], r, c, a, Steps(len)) && IsLineThrough(cells, g, g[r][c], r, c, a)
    ensures g[r][c] != Empty && WinningCells(g, r, c, len).None? ==>
      forall a: Axis :: |Run(g, g[r][c], r, c, a, Steps(len))| != len
  {
    if g[r][c] != Empty {
      WinFromShape(g, r, c, len, 0);
      if WinningCells(g, r, c, len).None? {
        assert Axes[0] == Horizontal && Axes[1] == Vertical && Axes[2] == Diagonal && Axes[3] == AntiDiagonal;
        forall a: Axis ensures |Run(g, g[r][c], r, c, a, Steps(len))| != len {
          match a
          case Horizontal =>
          case Vertical =>
          case Diagonal =>
          case AntiDiagonal =>
        }
      }
    }
  }

  lemma {:induction false} WinFromShape(g: Grid, r: int, c: int, len: nat, k: nat)
    requires InBounds(r, c) && k <= |Axes|
    ensures WinFrom(g, r, c, len, k).Some? ==>
      var cells := WinFrom(g, r, c, len, k).value;
      && |cells| == len
      && AllInBounds(cells)
      && exists a :: cells == Run(g, g[r][c], r, c, a, Steps(len)) && IsLineThrough(cells, g, g[r][c], r, c, a)
    ensures WinFrom(g, r, c, len, k).None? ==>
      forall j :: k <= j < |Axes| ==> |Run(g, g[r][c], r, c, Axes[j], Steps(len))| != len
    decreases |Axes| - k
  {
    if k < |Axes| {
      var cells := Run(g, g[r][c], r, c, Axes[k], Steps(len));
      if |cells| == len {
        RunShape(g, g[r][c], r, c, Axes[k], Steps(len));
        assert IsLineThrough(cells, g, g[r][c], r, c, Axes[k]);
      } else {
        WinFromShape(g, r, c, len, k + 1);
      }
    }
  }

  /** getMaxLineLengthContaining is the largest of the four axis counts, and at least 1. */
  lemma MaxLineLengthIsMax(g: Grid, p: Cell, r: int, c: int)
    ensures var m := MaxLineLength(g, p, r, c);
      && 1 <= m
      && (forall a: Axis :: RunLength(g, p, r, c, a) <= m)
      && (exists a: Axis :: RunLength(g, p, r, c, a) == m)
  {
    var m := MaxLineLength(g, p, r, c);
    assert Axes[0] == Horizontal && Axes[1] == Vertical && Axes[2] == Diagonal && Axes[3] == AntiDiagonal;
    assert MaxUpTo(g, p, r, c, 0) == 0;
    var m1 := MaxUpTo(g, p, r, c, 1);
    var m2 := MaxUpTo(g, p, r, c, 2);
    var m3 := MaxUpTo(g, p, r, c, 3);
    assert m1 == Max(0, RunLength(g, p, r, c, Horizontal));
    assert m2 == Max(m1, RunLength(g, p, r, c, Vertical));
    assert m3 == Max(m2, RunLength(g, p, r, c, Diagonal));
    assert m == Max(m3, RunLength(g, p, r, c, AntiDiagonal));
    forall a: Axis ensures RunLength(g, p, r, c, a) <= m {
      match a
      case Horizontal =>
      case Vertical =>
      case Diagonal =>
      case AntiDiagonal =>
    }
  }

  lemma {:induction false} RowCellsSpec(g: Grid, v: Cell, r: nat, c: nat)
    requires r < N && c <= N
    ensures forall q :: q in RowCells(g, v, r, c) <==> q.row == r && 0 <= q.col < c && g[r][q.col] == v
    ensures RowMajor(RowCells(g, v, r, c))
    ensures forall i :: 0 <= i < |RowCells(g, v, r, c)| ==> RowCells(g, v, r, c)[i].row == r
  {
    if c > 0 {
      RowCellsSpec(g, v, r, c - 1);
    }
  }

  lemma {:induction false} CellsBeforeSpec(g: Grid, v: Cell, r: nat)
    requires r <= N
    ensures forall q :: q in CellsBefore(g, v, r) <==> 0 <= q.row < r && 0 <= q.col < N && g[q.row][q.col] == v
    ensures RowMajor(CellsBefore(g, v, r))
  {
    if r > 0 {
      CellsBeforeSpec(g, v, r - 1);
      RowCellsSpec(g, v, r - 1, N);
      var a, b := CellsBefore(g, v, r - 1), RowCells(g, v, r - 1, N);
      var s := a + b;
      forall i, j | 0 <= i < j < |s| ensures Before(s[i], s[j]) {
        if j < |a| {
        } else if i >= |a| {
          assert s[i] == b[i - |a|] && s[j] == b[j - |a|];
        } else {
          assert s[i] in a && s[j] == b[j - |a|];
        }
      }
    }
  }

  /** getEmptyCells (and the X-cell scan of getAIRemovalMove): exactly the cells holding v, in row-major order. */
  lemma CellsOfSpec(g: Grid, v: Cell)
    ensures forall q :: q in CellsOf(g, v) <==> InBounds(q.row, q.col) && g[q.row][q.col] == v
    ensures RowMajor(CellsOf(g, v))
    ensures AllInBounds(CellsOf(g, v))
  {
    CellsBeforeSpec(g, v, N);
    var s := CellsOf(g, v);
    forall i | 0 <= i < |s| ensures InBounds(s[i].row, s[i].col) {
      assert s[i] in s;
    }
  }

  /** isBoardFull is true exactly when getEmptyCells is empty. */
  lemma FullIffNoEmptyCells(g: Grid)
    ensures Full(g) <==> EmptyCells(g) == []
  {
    CellsOfSpec(g, Empty);
    if EmptyCells(g) != [] {
      assert EmptyCells(g)[0] in EmptyCells(g);
    }
    if !Full(g) {
      var r, c :| InBounds(r, c) && g[r][c] == Empty;
      assert Pos(r, c) in EmptyCells(g);
    }
  }

  /** Writing a cell with what it already holds changes nothing. */
  lemma SetSame(g: Grid, q: Pos)
    requires InBounds(q.row, q.col)
    ensures Set(g, q, g[q.row][q.col]) == g
  {
    var h := Set(g, q, g[q.row][q.col]);
    forall r | 0 <= r < N ensures h[r] == g[r] {
      assert forall c :: 0 <= c < N ==> h[r][c] == g[r][c];
    }
  }

  /** Writing a cell and then writing back what it held restores the board (the bot's probes). */
  lemma SetUndo(g: Grid, q: Pos, v: Cell)
    requires InBounds(q.row, q.col)
    ensures Set(Set(g, q, v), q, g[q.row][q.col]) == g
  {
    var h := Set(Set(g, q, v), q, g[q.row][q.col]);
    forall r | 0 <= r < N ensures h[r] == g[r] {
      assert forall c :: 0 <= c < N ==> h[r][c] == g[r][c];
    }
  }

  /** Clearing a list of cells empties exactly the listed cells and leaves every other one as it was. */
  lemma {:induction false} ClearCellsSpec(g: Grid, cells: seq<Pos>)
    ensures forall r, c :: InBounds(r, c) ==>
      ClearCells(g, cells)[r][c] == if Pos(r, c) in cells then Empty else g[r][c]
    decreases |cells|
  {
    if cells != [] {
      var front := cells[..|cells| - 1];
      ClearCellsSpec(g, front);
      assert cells == front + [cells[|cells| - 1]];
    }
  }
}
