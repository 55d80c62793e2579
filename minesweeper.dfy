/**
 * The Minesweeper board engine (Games/minesweeper.py): the difficulty table,
 * the board reset, mine placement around a 3x3 safe zone, 8-neighbour mine
 * counting, reveal with a stack-driven flood fill, flag toggling with the
 * mines-left counter, win detection and the score of a won game.
 */
module Minesweeper {
  import opened Wrappers
  import Leaderboard

  /** One cell's record: `is_mine`, `is_revealed`, `is_flagged`, `neighbor_mines`. */
  datatype Cell = Cell(isMine: bool, isRevealed: bool, isFlagged: bool, neighborMines: nat)

  /** The record `create_board` puts in every cell. */
  const Fresh: Cell := Cell(false, false, false, 0)

  type Grid = seq<seq<Cell>>
  type Pos = (int, int)

  datatype Difficulty = Easy | Medium | Hard

  /** `set_difficulty`'s table: rows, columns and mines. */
  function Dimensions(d: Difficulty): (int, int, int)
  {
    match d
    case Easy => (8, 7, 10)
    case Medium => (15, 15, 40)
    case Hard => (20, 20, 80)
  }

  function DifficultyName(d: Difficulty): string
  {
    match d
    case Easy => "easy"
    case Medium => "medium"
    case Hard => "hard"
  }

  /** Every difficulty leaves at least nine cells more than mines, so a safe zone always fits. */
  lemma DimensionsRoom(d: Difficulty)
    ensures var (rows, cols, mines) := Dimensions(d);
      0 < mines && mines + 9 <= rows * cols
  {
  }

  // ---------------------------------------------------------------------
  // Grids

  ghost predicate Shaped(g: Grid, rows: int, cols: int)
  {
    |g| == rows && forall r :: 0 <= r < rows ==> |g[r]| == cols
  }

  predicate InGrid(g: Grid, r: int, c: int)
  {
    0 <= r < |g| && 0 <= c < |g[r]|
  }

  /** `cells[r][c] = x`, on a copy. */
  function Set(g: Grid, r: int, c: int, x: Cell): (h: Grid)
    requires InGrid(g, r, c)
    ensures |h| == |g| && forall i :: 0 <= i < |g| ==> |h[i]| == |g[i]|
    ensures h[r][c] == x
    ensures forall i, j :: InGrid(g, i, j) && (i != r || j != c) ==> h[i][j] == g[i][j]
  {
    g[r := g[r][c := x]]
  }

  /** The grid `create_board` builds: rows x cols fresh cells. */
  function FreshGrid(rows: nat, cols: nat): (g: Grid)
    ensures Shaped(g, rows, cols)
    ensures forall r, c :: InGrid(g, r, c) ==> g[r][c] == Fresh
  {
    seq(rows, _ => seq(cols, _ => Fresh))
  }

  ghost predicate AllFresh(g: Grid)
  {
    forall r, c :: InGrid(g, r, c) ==> g[r][c] == Fresh
  }

  // ---------------------------------------------------------------------
  // Counting cells

  function Mined(x: Cell): bool { x.isMine }
  function Flagged(x: Cell): bool { x.isFlagged }
  function Hidden(x: Cell): bool { !x.isRevealed }

  function RowCount(row: seq<Cell>, f: Cell -> bool): nat
  {
    if row == [] then 0
    else RowCount(row[..|row| - 1], f) + (if f(row[|row| - 1]) then 1 else 0)
  }

  /** How many cells of the grid satisfy f. */
  function GridCount(g: Grid, f: Cell -> bool): nat
  {
    if g == [] then 0
    else GridCount(g[..|g| - 1], f) + RowCount(g[|g| - 1], f)
  }

  lemma {:induction false} RowCountUpdate(row: seq<Cell>, c: int, x: Cell, f: Cell -> bool)
    requires 0 <= c < |row|
    ensures RowCount(row[c := x], f)
      == RowCount(row, f) - (if f(row[c]) then 1 else 0) + (if f(x) then 1 else 0)
  {
    var row' := row[c := x];
    if c < |row| - 1 {
      assert row'[..|row'| - 1] == row[..|row| - 1][c := x];
      RowCountUpdate(row[..|row| - 1], c, x, f);
    } else {
      assert row'[..|row'| - 1] == row[..|row| - 1];
    }
  }

  /** Changing one cell moves a count by at most one, in the direction the cell's change says. */
  lemma {:induction false} GridCountUpdate(g: Grid, r: int, c: int, x: Cell, f: Cell -> bool)
    requires InGrid(g, r, c)
    ensures GridCount(Set(g, r, c, x), f)
      == GridCount(g, f) - (if f(g[r][c]) then 1 else 0) + (if f(x) then 1 else 0)
  {
    var h := Set(g, r, c, x);
    if r < |g| - 1 {
      assert h[..|h| - 1] == Set(g[..|g| - 1], r, c, x);
      GridCountUpdate(g[..|g| - 1], r, c, x, f);
    } else {
      assert h[..|h| - 1] == g[..|g| - 1];
      RowCountUpdate(g[r], c, x, f);
    }
  }

  lemma {:induction false} RowCountNone(row: seq<Cell>, f: Cell -> bool)
    requires forall c :: 0 <= c < |row| ==> !f(row[c])
    ensures RowCount(row, f) == 0
  {
    if row != [] {
      RowCountNone(row[..|row| - 1], f);
    }
  }

  /** A grid with no cell satisfying f counts zero. */
  lemma {:induction false} GridCountNone(g: Grid, f: Cell -> bool)
    requires forall r, c :: InGrid(g, r, c) ==> !f(g[r][c])
    ensures GridCount(g, f) == 0
  {
    if g != [] {
      GridCountNone(g[..|g| - 1], f);
      var last := |g| - 1;
      forall c | 0 <= c < |g[last]| ensures !f(g[last][c]) {
        assert InGrid(g, last, c);
      }
      RowCountNone(g[last], f);
    }
  }

  lemma {:induction false} RowCountSame(row: seq<Cell>, row': seq<Cell>, f: Cell -> bool)
    requires |row| == |row'| && forall c :: 0 <= c < |row| ==> f(row[c]) == f(row'[c])
    ensures RowCount(row, f) == RowCount(row', f)
  {
    if row != [] {
      RowCountSame(row[..|row| - 1], row'[..|row'| - 1], f);
    }
  }

  /** Two grids of one shape that agree on f count alike. */
  lemma {:induction false} GridCountSame(g: Grid, h: Grid, f: Cell -> bool)
    requires |g| == |h| && forall r :: 0 <= r < |g| ==> |g[r]| == |h[r]|
    requires forall r, c :: InGrid(g, r, c) ==> f(g[r][c]) == f(h[r][c])
    ensures GridCount(g, f) == GridCount(h, f)
  {
    if g != [] {
      GridCountSame(g[..|g| - 1], h[..|h| - 1], f);
      var last := |g| - 1;
      forall c | 0 <= c < |g[last]| ensures f(g[last][c]) == f(h[last][c]) {
        assert InGrid(g, last, c);
      }
      RowCountSame(g[last], h[last], f);
    }
  }

  // ---------------------------------------------------------------------
  // Neighbours

  /** (nr, nc) is one of the eight cells around (r, c). */
  predicate IsNeighbour(r: int, c: int, nr: int, nc: int)
  {
    -1 <= nr - r <= 1 && -1 <= nc - c <= 1 && (nr != r || nc != c)
  }

  /** The position of (nr, nc) in the `for dr ... for dc` scan around (r, c): 0..8, the centre is 4. */
  function Offset(r: int, c: int, nr: int, nc: int): int
  {
    (nr - r + 1) * 3 + (nc - c + 1)
  }

  /** Whether the cell at offset (dr, dc) from (r, c) is an in-bounds mine (the centre never counts). */
  function Hit(g: Grid, r: int, c: int, dr: int, dc: int): nat
  {
    if (dr != 0 || dc != 0) && InGrid(g, r + dr, c + dc) && g[r + dr][c + dc].isMine then 1 else 0
  }

  /** Mines among the first j offsets (dc = -1, 0, 1) of row dr of the scan around (r, c). */
  function MinesInRow(g: Grid, r: int, c: int, dr: int, j: nat): nat
    requires j <= 3
  {
    if j == 0 then 0 else MinesInRow(g, r, c, dr, j - 1) + Hit(g, r, c, dr, j - 2)
  }

  /** Mines in the first i rows (dr = -1, 0, 1) of the scan around (r, c). */
  function MinesAbove(g: Grid, r: int, c: int, i: nat): nat
    requires i <= 3
  {
    if i == 0 then 0 else MinesAbove(g, r, c, i - 1) + MinesInRow(g, r, c, i - 2, ScanWidth)
  }

  /** The width of the scan: offsets -1, 0 and 1. */
  const ScanWidth: nat := 3

  /** The number `place_mines` stores: mines among the in-bounds neighbours. */
  function MinesAround(g: Grid, r: int, c: int): nat
  {
    MinesAbove(g, r, c, ScanWidth)
  }

  ghost predicate NoMineInRow(g: Grid, r: int, c: int, nr: int, j: int)
  {
    forall nc :: InGrid(g, nr, nc) && IsNeighbour(r, c, nr, nc) && nc - c + 1 < j ==> !g[nr][nc].isMine
  }

  ghost predicate NoMineAbove(g: Grid, r: int, c: int, i: int)
  {
    forall nr, nc :: InGrid(g, nr, nc) && IsNeighbour(r, c, nr, nc) && nr - r + 1 < i
      ==> !g[nr][nc].isMine
  }

  lemma {:induction false} MinesInRowZero(g: Grid, r: int, c: int, dr: int, j: nat)
    requires -1 <= dr <= 1 && j <= 3
    ensures MinesInRow(g, r, c, dr, j) == 0 <==> NoMineInRow(g, r, c, r + dr, j)
    ensures MinesInRow(g, r, c, dr, j) <= (if dr == 0 && j > 1 then j - 1 else j)
  {
    if j > 0 {
      MinesInRowZero(g, r, c, dr, j - 1);
      var nc := c + (j - 2);
      assert Hit(g, r, c, dr, j - 2) == 1 <==> InGrid(g, r + dr, nc) && IsNeighbour(r, c, r + dr, nc) && g[r + dr][nc].isMine;
    }
  }

  lemma {:induction false} MinesAboveZero(g: Grid, r: int, c: int, i: nat)
    requires i <= 3
    ensures MinesAbove(g, r, c, i) == 0 <==> NoMineAbove(g, r, c, i)
    ensures MinesAbove(g, r, c, i) <= (if i > 1 then 3 * i - 1 else 3 * i)
  {
    if i > 0 {
      MinesAboveZero(g, r, c, i - 1);
      MinesInRowZero(g, r, c, i - 2, ScanWidth);
      forall nr, nc | InGrid(g, nr, nc) && IsNeighbour(r, c, nr, nc) && nr - r + 1 == i - 1
        ensures NoMineInRow(g, r, c, r + (i - 2), ScanWidth) ==> !g[nr][nc].isMine
      {
        assert nr == r + (i - 2);
      }
    }
  }

  /**
   * The stored count is zero exactly when no in-bounds neighbour is a mine,
   * the fact flood fill relies on; and it is at most 8.
   */
  lemma MinesAroundZero(g: Grid, r: int, c: int)
    ensures MinesAround(g, r, c) == 0 <==>
      forall nr, nc :: InGrid(g, nr, nc) && IsNeighbour(r, c, nr, nc) ==> !g[nr][nc].isMine
    ensures MinesAround(g, r, c) <= 8
  {
    MinesAboveZero(g, r, c, ScanWidth);
  }

  /** Grids of one shape with the same mines. */
  ghost predicate SameMines(g: Grid, h: Grid)
  {
    |g| == |h| && (forall r :: 0 <= r < |g| ==> |g[r]| == |h[r]|)
    && forall r, c :: InGrid(g, r, c) ==> g[r][c].isMine == h[r][c].isMine
  }

  lemma {:induction false} MinesInRowSame(g: Grid, h: Grid, r: int, c: int, dr: int, j: nat)
    requires SameMines(g, h) && j <= 3
    ensures MinesInRow(g, r, c, dr, j) == MinesInRow(h, r, c, dr, j)
  {
    if j > 0 {
      MinesInRowSame(g, h, r, c, dr, j - 1);
    }
  }

  lemma {:induction false} MinesAboveSame(g: Grid, h: Grid, r: int, c: int, i: nat)
    requires SameMines(g, h) && i <= 3
    ensures MinesAbove(g, r, c, i) == MinesAbove(h, r, c, i)
  {
    if i > 0 {
      MinesAboveSame(g, h, r, c, i - 1);
      MinesInRowSame(g, h, r, c, i - 2, ScanWidth);
    }
  }

  /** Counts depend on the mines alone. */
  lemma MinesAroundSame(g: Grid, h: Grid)
    requires SameMines(g, h)
    ensures forall r, c :: MinesAround(g, r, c) == MinesAround(h, r, c)
  {
    forall r, c ensures MinesAround(g, r, c) == MinesAround(h, r, c) {
      MinesAboveSame(g, h, r, c, ScanWidth);
    }
  }

  /** Every non-mine cell stores its neighbour count; mines keep the initial 0. */
  ghost predicate Consistent(g: Grid)
  {
    forall r, c :: InGrid(g, r, c) ==>
      g[r][c].neighborMines == (if g[r][c].isMine then 0 else MinesAround(g, r, c))
  }

  /** The board keeps its shape, mines and counts; only revealed and flagged bits may differ. */
  ghost predicate SameLayout(g: Grid, h: Grid)
  {
    SameMines(g, h)
    && forall r, c :: InGrid(g, r, c) ==> g[r][c].neighborMines == h[r][c].neighborMines
  }

  lemma SameLayoutConsistent(g: Grid, h: Grid)
    requires SameLayout(g, h) && Consistent(g)
    ensures Consistent(h)
  {
    MinesAroundSame(g, h);
  }

  /**
   * On a consistent board a revealed 0 has no mine around it, so every
   * neighbour flood fill opens is safe.
   */
  lemma ZeroMeansSafeNeighbours(g: Grid, r: int, c: int, nr: int, nc: int)
    requires Consistent(g) && InGrid(g, r, c) && !g[r][c].isMine && g[r][c].neighborMines == 0
    requires InGrid(g, nr, nc) && IsNeighbour(r, c, nr, nc)
    ensures !g[nr][nc].isMine
  {
    MinesAroundZero(g, r, c);
  }

  // ---------------------------------------------------------------------
  // Mine placement

  /** (r, c) lies in the 3x3 block centred on the first click. */
  predicate InSafeZone(row: int, col: int, p: Pos)
  {
    -1 <= p.0 - row <= 1 && -1 <= p.1 - col <= 1
  }

  /**
   * What `random.sample(available, MINES)` may return: MINES distinct
   * in-bounds cells outside the safe zone of the first click.
   */
  ghost predicate ValidSample(rows: int, cols: int, mines: int, row: int, col: int, sample: seq<Pos>)
  {
    |sample| == mines
    && (forall i, j :: 0 <= i < j < |sample| ==> sample[i] != sample[j])
    && forall i :: 0 <= i < |sample| ==>
      0 <= sample[i].0 < rows && 0 <= sample[i].1 < cols && !InSafeZone(row, col, sample[i])
  }

  /** The sampled cells marked as mines on a fresh rows x cols grid. */
  ghost function Marked(rows: nat, cols: nat, sample: seq<Pos>): (g: Grid)
    ensures Shaped(g, rows, cols)
  {
    seq(rows, r => seq(cols, c => Fresh.(isMine := (r, c) in sample)))
  }

  /** The board `place_mines` leaves: the sampled mines, and every other cell holding its count. */
  ghost function Planted(rows: nat, cols: nat, sample: seq<Pos>): (g: Grid)
    ensures Shaped(g, rows, cols)
  {
    var m := Marked(rows, cols, sample);
    seq(rows, r requires 0 <= r < rows => seq(cols, c requires 0 <= c < cols =>
      m[r][c].(neighborMines := if m[r][c].isMine then 0 else MinesAround(m, r, c))))
  }

  /** A hidden, unflagged, consistent board with exactly the sampled mines is `Planted`. */
  lemma PlantedUnique(g: Grid, rows: nat, cols: nat, sample: seq<Pos>)
    requires Shaped(g, rows, cols) && Consistent(g)
    requires forall r, c :: InGrid(g, r, c) ==>
      (g[r][c].isMine <==> (r, c) in sample) && !g[r][c].isRevealed && !g[r][c].isFlagged
    ensures g == Planted(rows, cols, sample)
  {
    var m := Marked(rows, cols, sample);
    var p := Planted(rows, cols, sample);
    MinesAroundSame(g, m);
    forall r | 0 <= r < rows ensures g[r] == p[r] {
      forall c | 0 <= c < cols ensures g[r][c] == p[r][c] {
        assert InGrid(g, r, c);
      }
    }
  }

  // ---------------------------------------------------------------------
  // Revealing

  /** A cell that flood fill does not (or need not) open. */
  predicate Covered(x: Cell) { x.isRevealed || x.isFlagged || x.isMine }

  /** Every in-bounds neighbour of (r, c) is revealed, flagged or a mine. */
  ghost predicate Settled(g: Grid, r: int, c: int)
  {
    forall nr, nc :: InGrid(g, nr, nc) && IsNeighbour(r, c, nr, nc) ==> Covered(g[nr][nc])
  }

  /** The neighbours among the first k of the scan around (r, c) are covered. */
  ghost predicate Done(g: Grid, r: int, c: int, k: int)
  {
    forall nr, nc :: InGrid(g, nr, nc) && IsNeighbour(r, c, nr, nc) && Offset(r, c, nr, nc) < k
      ==> Covered(g[nr][nc])
  }

  /** (r, c) is hidden in g and revealed in h. */
  ghost predicate Newly(g: Grid, h: Grid, r: int, c: int)
  {
    InGrid(g, r, c) && InGrid(h, r, c) && !g[r][c].isRevealed && h[r][c].isRevealed
  }

  /**
   * h is g with more cells revealed: same mines, counts and flags, nothing
   * hidden again, and no newly revealed cell is flagged or a mine.
   */
  ghost predicate Opened(g: Grid, h: Grid)
  {
    SameLayout(g, h)
    && forall r, c :: InGrid(g, r, c) ==>
      && h[r][c].isFlagged == g[r][c].isFlagged
      && (g[r][c].isRevealed ==> h[r][c].isRevealed)
      && (!g[r][c].isRevealed && h[r][c].isRevealed ==> !h[r][c].isFlagged && !h[r][c].isMine)
  }

  lemma OpenedTrans(g: Grid, h: Grid, k: Grid)
    requires Opened(g, h) && Opened(h, k)
    ensures Opened(g, k)
  {
  }

  lemma SettledGrows(g: Grid, h: Grid)
    requires Opened(g, h)
    ensures forall r, c :: Settled(g, r, c) ==> Settled(h, r, c)
  {
  }

  /** p is a newly revealed 0. */
  ghost predicate Source(g: Grid, h: Grid, p: Pos)
  {
    Newly(g, h, p.0, p.1) && h[p.0][p.1].neighborMines == 0
  }

  /**
   * `path` starts at (row, col) and steps from neighbour to neighbour,
   * every cell strictly between its ends being a newly revealed 0.
   */
  ghost predicate Walk(g: Grid, h: Grid, row: int, col: int, path: seq<Pos>)
  {
    && |path| > 0 && path[0] == (row, col)
    && (forall i :: 0 < i < |path| - 1 ==> Source(g, h, path[i]))
    && (forall i :: 0 <= i < |path| - 1 ==> IsNeighbour(path[i].0, path[i].1, path[i + 1].0, path[i + 1].1))
  }

  /** Some walk from (row, col) through newly revealed 0s ends at (r, c). */
  ghost predicate Reaches(g: Grid, h: Grid, row: int, col: int, r: int, c: int)
  {
    exists path :: Walk(g, h, row, col, path) && path[|path| - 1] == (r, c)
  }

  /** Every cell revealed between g and h is reached from (row, col). */
  ghost predicate Reached(g: Grid, h: Grid, row: int, col: int)
  {
    forall r, c {:trigger Reaches(g, h, row, col, r, c)} :: Newly(g, h, r, c) ==> Reaches(g, h, row, col, r, c)
  }

  /**
   * Flood fill has finished from (row, col): that cell and every newly
   * revealed 0 have all their neighbours revealed, flagged or mined, and
   * every revealed cell is reached from (row, col) through revealed 0s:
   * exactly the connected region.
   */
  ghost predicate Closed(g: Grid, h: Grid, row: int, col: int)
  {
    Settled(h, row, col)
    && (forall r, c :: Newly(g, h, r, c) && h[r][c].neighborMines == 0 ==> Settled(h, r, c))
    && Reached(g, h, row, col)
  }

  /** A walk stays one while more cells are opened. */
  lemma WalkGrows(g: Grid, h: Grid, k: Grid, row: int, col: int, path: seq<Pos>)
    requires Opened(h, k) && Walk(g, h, row, col, path)
    ensures Walk(g, k, row, col, path)
  {
    forall i | 0 < i < |path| - 1 ensures Source(g, k, path[i]) {
      assert Source(g, h, path[i]);
    }
  }

  /** A walk longer than two cells leaves the start through a newly revealed 0 next to it. */
  lemma WalkSecond(g: Grid, h: Grid, row: int, col: int, path: seq<Pos>)
    requires Walk(g, h, row, col, path)
    ensures |path| > 2 ==> Source(g, h, path[1]) && IsNeighbour(row, col, path[1].0, path[1].1)
  {
  }

  /**
   * When no neighbour of (row, col) is a newly revealed 0, only (row, col)
   * and its neighbours can be reached: a non-zero ring stops the fill.
   */
  lemma ReachedStopsAtNumbers(g: Grid, h: Grid, row: int, col: int)
    requires Reached(g, h, row, col)
    requires forall r, c :: IsNeighbour(row, col, r, c) ==> !Source(g, h, (r, c))
    ensures forall r, c :: Newly(g, h, r, c) ==> (r, c) == (row, col) || IsNeighbour(row, col, r, c)
  {
    forall r, c | Newly(g, h, r, c) ensures (r, c) == (row, col) || IsNeighbour(row, col, r, c) {
      assert Reaches(g, h, row, col, r, c);
      var path: seq<Pos> :| Walk(g, h, row, col, path) && path[|path| - 1] == (r, c);
      WalkSecond(g, h, row, col, path);
      assert |path| <= 2;
      if |path| == 2 {
        assert IsNeighbour(path[0].0, path[0].1, path[1].0, path[1].1);
      }
    }
  }

  /** Every safe cell is revealed: `check_win`'s condition. */
  ghost predicate Cleared(g: Grid)
  {
    forall r, c :: InGrid(g, r, c) ==> g[r][c].isMine || g[r][c].isRevealed
  }

  ghost predicate NoFlagShown(g: Grid)
  {
    forall r, c :: InGrid(g, r, c) ==> !(g[r][c].isRevealed && g[r][c].isFlagged)
  }

  ghost predicate NoMineShown(g: Grid)
  {
    forall r, c :: InGrid(g, r, c) ==> !(g[r][c].isRevealed && g[r][c].isMine)
  }

  lemma OpenedRefl(g: Grid)
    ensures Opened(g, g)
  {
  }

  /** Revealing one hidden, unflagged, safe cell. */
  lemma OpenedSet(g0: Grid, g: Grid, r: int, c: int)
    requires Opened(g0, g) && InGrid(g, r, c)
    requires !g[r][c].isRevealed && !g[r][c].isFlagged && !g[r][c].isMine
    ensures Opened(g0, Set(g, r, c, g[r][c].(isRevealed := true)))
    ensures Opened(g, Set(g, r, c, g[r][c].(isRevealed := true)))
  {
  }

  /**
   * What a pass around one cell leaves: g grew to h by reveals, `st` is
   * `base` plus exactly the newly revealed 0s, and revealing cost at least
   * one hidden cell per push.
   */
  ghost predicate Pushed(g: Grid, h: Grid, base: seq<Pos>, st: seq<Pos>)
  {
    Opened(g, h)
    && |st| >= |base| && st[..|base|] == base
    && (forall i :: |base| <= i < |st| ==> Newly(g, h, st[i].0, st[i].1) && h[st[i].0][st[i].1].neighborMines == 0)
    && (forall nr, nc :: Newly(g, h, nr, nc) && h[nr][nc].neighborMines == 0 ==> (nr, nc) in st)
    && GridCount(h, Hidden) + (|st| - |base|) <= GridCount(g, Hidden)
  }

  /** Every cell revealed between g and h is a neighbour of (r, c). */
  ghost predicate Near(g: Grid, h: Grid, r: int, c: int)
  {
    forall nr, nc :: Newly(g, h, nr, nc) ==> IsNeighbour(r, c, nr, nc)
  }

  /** The invariant of the scan around (r, c) after k offsets. */
  ghost predicate Spreading(g: Grid, h: Grid, base: seq<Pos>, st: seq<Pos>, r: int, c: int, k: int)
  {
    Pushed(g, h, base, st) && Done(h, r, c, k) && Near(g, h, r, c)
  }

  /** An offset that is the centre, off the board or already covered changes nothing. */
  lemma SpreadSkip(g: Grid, h: Grid, base: seq<Pos>, st: seq<Pos>, r: int, c: int, dr: int, dc: int)
    requires -1 <= dr <= 1 && -1 <= dc <= 1
    requires Spreading(g, h, base, st, r, c, (dr + 1) * 3 + (dc + 1))
    requires (dr == 0 && dc == 0) || !InGrid(h, r + dr, c + dc) || Covered(h[r + dr][c + dc])
    ensures Spreading(g, h, base, st, r, c, (dr + 1) * 3 + (dc + 1 + 1))
  {
    var k := (dr + 1) * 3 + (dc + 1);
    forall mr, mc | InGrid(h, mr, mc) && IsNeighbour(r, c, mr, mc) && Offset(r, c, mr, mc) < k + 1
      ensures Covered(h[mr][mc])
    {
      if Offset(r, c, mr, mc) == k {
        assert mr == r + dr && mc == c + dc;
      }
    }
  }

  lemma DoneGrows(g: Grid, h: Grid, r: int, c: int, k: int)
    requires Opened(g, h) && Done(g, r, c, k)
    ensures Done(h, r, c, k)
  {
  }

  /** Revealing a hidden, unflagged, safe cell whose count is not 0 keeps the stack as it is. */
  lemma PushNone(g: Grid, h: Grid, base: seq<Pos>, st: seq<Pos>, nr: int, nc: int)
    requires Pushed(g, h, base, st) && InGrid(h, nr, nc)
    requires !h[nr][nc].isRevealed && !h[nr][nc].isFlagged && !h[nr][nc].isMine
    requires h[nr][nc].neighborMines != 0
    ensures Pushed(g, Set(h, nr, nc, h[nr][nc].(isRevealed := true)), base, st)
  {
    var h' := Set(h, nr, nc, h[nr][nc].(isRevealed := true));
    OpenedSet(g, h, nr, nc);
    GridCountUpdate(h, nr, nc, h[nr][nc].(isRevealed := true), Hidden);
    forall mr, mc | Newly(g, h', mr, mc) && h'[mr][mc].neighborMines == 0
      ensures (mr, mc) in st
    {
      assert Newly(g, h, mr, mc);
    }
  }

  /** Revealing a hidden, unflagged, safe 0 and pushing it. */
  lemma PushZero(g: Grid, h: Grid, base: seq<Pos>, st: seq<Pos>, nr: int, nc: int)
    requires Pushed(g, h, base, st) && InGrid(h, nr, nc)
    requires !h[nr][nc].isRevealed && !h[nr][nc].isFlagged && !h[nr][nc].isMine
    requires h[nr][nc].neighborMines == 0
    ensures Pushed(g, Set(h, nr, nc, h[nr][nc].(isRevealed := true)), base, st + [(nr, nc)])
  {
    var h' := Set(h, nr, nc, h[nr][nc].(isRevealed := true));
    var st' := st + [(nr, nc)];
    OpenedSet(g, h, nr, nc);
    GridCountUpdate(h, nr, nc, h[nr][nc].(isRevealed := true), Hidden);
    assert st'[..|base|] == base by {
      assert st'[..|st|] == st;
    }
    forall i | |base| <= i < |st'|
      ensures Newly(g, h', st'[i].0, st'[i].1) && h'[st'[i].0][st'[i].1].neighborMines == 0
    {
      if i < |st| {
        assert st'[i] == st[i];
      }
    }
    forall mr, mc | Newly(g, h', mr, mc) && h'[mr][mc].neighborMines == 0
      ensures (mr, mc) in st'
    {
      if mr != nr || mc != nc {
        assert Newly(g, h, mr, mc);
      } else {
        assert st'[|st'| - 1] == (nr, nc);
      }
    }
  }

  /** Revealing the neighbour at offset (dr, dc) covers the first k + 1 offsets. */
  lemma DoneOpen(h: Grid, r: int, c: int, dr: int, dc: int)
    requires -1 <= dr <= 1 && -1 <= dc <= 1
    requires Done(h, r, c, (dr + 1) * 3 + (dc + 1)) && InGrid(h, r + dr, c + dc)
    ensures Done(Set(h, r + dr, c + dc, h[r + dr][c + dc].(isRevealed := true)), r, c, (dr + 1) * 3 + (dc + 1 + 1))
  {
    var h' := Set(h, r + dr, c + dc, h[r + dr][c + dc].(isRevealed := true));
    var k := (dr + 1) * 3 + (dc + 1);
    forall mr, mc | InGrid(h', mr, mc) && IsNeighbour(r, c, mr, mc) && Offset(r, c, mr, mc) < k + 1
      ensures Covered(h'[mr][mc])
    {
      if Offset(r, c, mr, mc) == k {
        assert mr == r + dr && mc == c + dc;
      } else {
        assert Covered(h[mr][mc]);
      }
    }
  }

  /** Revealing the neighbour at offset (dr, dc) (and pushing it when its count is 0) keeps the scan invariant. */
  lemma SpreadOpen(g: Grid, h: Grid, base: seq<Pos>, st: seq<Pos>, r: int, c: int, dr: int, dc: int)
    requires -1 <= dr <= 1 && -1 <= dc <= 1 && (dr != 0 || dc != 0)
    requires Spreading(g, h, base, st, r, c, (dr + 1) * 3 + (dc + 1)) && InGrid(h, r + dr, c + dc)
    requires !h[r + dr][c + dc].isRevealed && !h[r + dr][c + dc].isFlagged && !h[r + dr][c + dc].isMine
    ensures var h' := Set(h, r + dr, c + dc, h[r + dr][c + dc].(isRevealed := true));
      var st' := if h[r + dr][c + dc].neighborMines == 0 then st + [(r + dr, c + dc)] else st;
      Spreading(g, h', base, st', r, c, (dr + 1) * 3 + (dc + 1 + 1))
  {
    if h[r + dr][c + dc].neighborMines == 0 {
      PushZero(g, h, base, st, r + dr, c + dc);
    } else {
      PushNone(g, h, base, st, r + dr, c + dc);
    }
    DoneOpen(h, r, c, dr, dc);
    NearOpen(g, h, r, c, dr, dc);
  }

  /** Revealing the neighbour at offset (dr, dc) keeps every revealed cell next to (r, c). */
  lemma NearOpen(g: Grid, h: Grid, r: int, c: int, dr: int, dc: int)
    requires -1 <= dr <= 1 && -1 <= dc <= 1 && (dr != 0 || dc != 0)
    requires Near(g, h, r, c) && InGrid(h, r + dr, c + dc)
    ensures Near(g, Set(h, r + dr, c + dc, h[r + dr][c + dc].(isRevealed := true)), r, c)
  {
    var h' := Set(h, r + dr, c + dc, h[r + dr][c + dc].(isRevealed := true));
    forall nr, nc | Newly(g, h', nr, nc) ensures IsNeighbour(r, c, nr, nc) {
      if nr != r + dr || nc != c + dc {
        assert Newly(g, h, nr, nc);
      }
    }
  }

  lemma SpreadDone(g: Grid, h: Grid, base: seq<Pos>, st: seq<Pos>, r: int, c: int)
    requires Spreading(g, h, base, st, r, c, 9)
    ensures Pushed(g, h, base, st) && Settled(h, r, c) && Near(g, h, r, c)
  {
  }

  /**
   * The invariant of `flood_fill`'s loop: the start and every newly opened 0
   * are on the stack or settled; the stack holds only the start and newly
   * opened 0s; and every cell opened so far is reached from the start
   * through opened 0s.
   */
  ghost predicate Filling(g: Grid, h: Grid, stack: seq<Pos>, row: int, col: int)
  {
    Opened(g, h)
    && (forall i :: 0 <= i < |stack| ==> InGrid(h, stack[i].0, stack[i].1))
    && ((row, col) in stack || Settled(h, row, col))
    && (forall r, c :: Newly(g, h, r, c) && h[r][c].neighborMines == 0 ==> (r, c) in stack || Settled(h, r, c))
    && (forall i :: 0 <= i < |stack| ==> stack[i] == (row, col) || Source(g, h, stack[i]))
    && Reached(g, h, row, col)
  }

  /** The stack after a pass around a popped cell still holds only the start and newly opened 0s. */
  lemma FillSources(g: Grid, before: Grid, after: Grid, rest: seq<Pos>, stack: seq<Pos>, row: int, col: int)
    requires Opened(g, before) && Opened(before, after)
    requires forall i :: 0 <= i < |rest| ==> rest[i] == (row, col) || Source(g, before, rest[i])
    requires Pushed(before, after, rest, stack)
    ensures forall i :: 0 <= i < |stack| ==> stack[i] == (row, col) || Source(g, after, stack[i])
  {
    forall i | 0 <= i < |stack| ensures stack[i] == (row, col) || Source(g, after, stack[i]) {
      if i < |rest| {
        assert stack[..|rest|][i] == rest[i];
      } else {
        assert Newly(before, after, stack[i].0, stack[i].1);
      }
    }
  }

  /** A cell stays reached while more cells are opened. */
  lemma ReachesGrows(g: Grid, h: Grid, k: Grid, row: int, col: int, a: int, b: int)
    requires Opened(h, k) && Reaches(g, h, row, col, a, b)
    ensures Reaches(g, k, row, col, a, b)
  {
    var path: seq<Pos> :| Walk(g, h, row, col, path) && path[|path| - 1] == (a, b);
    WalkGrows(g, h, k, row, col, path);
  }

  /** A neighbour of the start or of a reached, newly revealed 0 is reached one step further. */
  lemma ReachesStep(g: Grid, h: Grid, r: int, c: int, row: int, col: int, a: int, b: int)
    requires (r, c) == (row, col) || (Source(g, h, (r, c)) && Reaches(g, h, row, col, r, c))
    requires IsNeighbour(r, c, a, b)
    ensures Reaches(g, h, row, col, a, b)
  {
    if (r, c) == (row, col) {
      assert Walk(g, h, row, col, [(row, col), (a, b)]);
    } else {
      var path: seq<Pos> :| Walk(g, h, row, col, path) && path[|path| - 1] == (r, c);
      var longer := path + [(a, b)];
      assert Walk(g, h, row, col, longer);
    }
  }

  /**
   * A pass around a popped start cell or newly opened 0 keeps every opened
   * cell reached: a cell it opens extends the walk to the popped cell by one step.
   */
  lemma FillReached(g: Grid, before: Grid, after: Grid, r: int, c: int, row: int, col: int)
    requires Opened(g, before) && Opened(before, after) && Reached(g, before, row, col)
    requires (r, c) == (row, col) || Source(g, before, (r, c))
    requires Near(before, after, r, c)
    ensures Reached(g, after, row, col)
  {
    if (r, c) != (row, col) {
      assert Newly(g, before, r, c) && Reaches(g, before, row, col, r, c);
      ReachesGrows(g, before, after, row, col, r, c);
      assert Source(g, after, (r, c));
    }
    forall a, b | Newly(g, after, a, b)
      ensures Reaches(g, after, row, col, a, b)
    {
      if before[a][b].isRevealed {
        assert Newly(g, before, a, b) && Reaches(g, before, row, col, a, b);
        ReachesGrows(g, before, after, row, col, a, b);
      } else {
        assert Newly(before, after, a, b);
        ReachesStep(g, after, r, c, row, col, a, b);
      }
    }
  }

  /** Popping (r, c) and opening around it keeps the fill invariant. */
  lemma FillStep(g: Grid, before: Grid, after: Grid, rest: seq<Pos>, r: int, c: int, stack: seq<Pos>,
                 row: int, col: int)
    requires Filling(g, before, rest + [(r, c)], row, col)
    requires Pushed(before, after, rest, stack) && Settled(after, r, c) && Near(before, after, r, c)
    ensures Filling(g, after, stack, row, col)
    ensures GridCount(after, Hidden) <= GridCount(before, Hidden)
    ensures GridCount(after, Hidden) == GridCount(before, Hidden) ==> |stack| < |rest| + 1
  {
    var old_stack := rest + [(r, c)];
    assert old_stack[|rest|] == (r, c);
    forall i | 0 <= i < |rest| ensures rest[i] == (row, col) || Source(g, before, rest[i]) {
      assert old_stack[i] == rest[i];
    }
    FillSources(g, before, after, rest, stack, row, col);
    FillReached(g, before, after, r, c, row, col);
    OpenedTrans(g, before, after);
    SettledGrows(before, after);
    forall p | p in rest ensures p in stack {
      var i :| 0 <= i < |rest| && rest[i] == p;
      assert stack[..|rest|][i] == p;
    }
    forall i | 0 <= i < |stack| ensures InGrid(after, stack[i].0, stack[i].1) {
      if i < |rest| {
        assert stack[..|rest|][i] == rest[i] == old_stack[i];
      }
    }
    forall a, b | Newly(g, after, a, b) && after[a][b].neighborMines == 0
      ensures (a, b) in stack || Settled(after, a, b)
    {
      if !Newly(before, after, a, b) {
        assert Newly(g, before, a, b);
      }
    }
  }

  /** The fill starts with only the start cell on the stack and nothing opened yet. */
  lemma FillStart(g: Grid, row: int, col: int)
    requires InGrid(g, row, col)
    ensures Filling(g, g, [(row, col)], row, col)
  {
    OpenedRefl(g);
  }

  /** Once the stack is empty, the fill is closed. */
  lemma FillDone(g: Grid, h: Grid, row: int, col: int)
    requires Filling(g, h, [], row, col)
    ensures Closed(g, h, row, col)
  {
  }

  /** What `reveal_cell` leaves after opening the hidden, unflagged, safe cell (row, col) of g. */
  ghost predicate RevealedFrom(g: Grid, h: Grid, row: int, col: int)
    requires InGrid(g, row, col)
  {
    Opened(g, h) && InGrid(h, row, col) && h[row][col].isRevealed
    && (g[row][col].neighborMines > 0 ==> h == Set(g, row, col, g[row][col].(isRevealed := true)))
    && (g[row][col].neighborMines == 0 ==> Closed(g, h, row, col))
  }

  /** Revealing a 0 and then filling from it closes the fill relative to the board before the reveal. */
  lemma RevealThenFill(g: Grid, g1: Grid, h: Grid, row: int, col: int)
    requires InGrid(g, row, col) && !g[row][col].isRevealed && !g[row][col].isFlagged && !g[row][col].isMine
    requires g1 == Set(g, row, col, g[row][col].(isRevealed := true))
    requires Opened(g1, h) && Closed(g1, h, row, col)
    ensures Opened(g, h) && Closed(g, h, row, col)
  {
    OpenedRefl(g);
    OpenedSet(g, g, row, col);
    OpenedTrans(g, g1, h);
    forall r, c | Newly(g, h, r, c) && h[r][c].neighborMines == 0 ensures Settled(h, r, c) {
      if r != row || c != col {
        assert Newly(g1, h, r, c);
      }
    }
    forall r, c | Newly(g, h, r, c)
      ensures Reaches(g, h, row, col, r, c)
    {
      if (r, c) == (row, col) {
        assert Walk(g, h, row, col, [(row, col)]);
      } else {
        assert Newly(g1, h, r, c) && Reaches(g1, h, row, col, r, c);
        var path: seq<Pos> :| Walk(g1, h, row, col, path) && path[|path| - 1] == (r, c);
        forall i | 0 < i < |path| - 1 ensures Source(g, h, path[i]) {
          assert Source(g1, h, path[i]);
        }
        assert Walk(g, h, row, col, path);
      }
    }
  }

  /** Revealing one unflagged cell, mine or not, keeps the counts, the layout and the flag invariant. */
  lemma RevealOneKeeps(g: Grid, row: int, col: int)
    requires InGrid(g, row, col) && !g[row][col].isFlagged
    ensures var h := Set(g, row, col, g[row][col].(isRevealed := true));
      && SameLayout(g, h)
      && GridCount(h, Flagged) == GridCount(g, Flagged) && GridCount(h, Mined) == GridCount(g, Mined)
      && (NoFlagShown(g) ==> NoFlagShown(h))
      && (Consistent(g) ==> Consistent(h))
      && (forall rows, cols :: Shaped(g, rows, cols) ==> Shaped(h, rows, cols))
  {
    var h := Set(g, row, col, g[row][col].(isRevealed := true));
    GridCountUpdate(g, row, col, g[row][col].(isRevealed := true), Flagged);
    GridCountUpdate(g, row, col, g[row][col].(isRevealed := true), Mined);
    if Consistent(g) {
      SameLayoutConsistent(g, h);
    }
  }

  /** Toggling the flag of a hidden cell moves the flag count by one and keeps the rest. */
  lemma ToggleKeeps(g: Grid, row: int, col: int)
    requires InGrid(g, row, col) && !g[row][col].isRevealed
    ensures var h := Set(g, row, col, g[row][col].(isFlagged := !g[row][col].isFlagged));
      && SameLayout(g, h)
      && GridCount(h, Flagged) == GridCount(g, Flagged) + (if g[row][col].isFlagged then -1 else 1)
      && GridCount(h, Mined) == GridCount(g, Mined)
      && (NoFlagShown(g) ==> NoFlagShown(h))
      && (NoMineShown(g) ==> NoMineShown(h))
      && (Consistent(g) ==> Consistent(h))
      && (forall rows, cols :: Shaped(g, rows, cols) ==> Shaped(h, rows, cols))
  {
    var x := g[row][col].(isFlagged := !g[row][col].isFlagged);
    var h := Set(g, row, col, x);
    GridCountUpdate(g, row, col, x, Flagged);
    GridCountUpdate(g, row, col, x, Mined);
    if Consistent(g) {
      SameLayoutConsistent(g, h);
    }
  }

  /** Opening cells keeps the flag and mine counts and the board's invariants. */
  lemma OpenedKeeps(g: Grid, h: Grid)
    requires Opened(g, h)
    ensures GridCount(h, Flagged) == GridCount(g, Flagged) && GridCount(h, Mined) == GridCount(g, Mined)
    ensures NoFlagShown(g) ==> NoFlagShown(h)
    ensures NoMineShown(g) ==> NoMineShown(h)
    ensures Consistent(g) ==> Consistent(h)
    ensures forall rows, cols :: Shaped(g, rows, cols) ==> Shaped(h, rows, cols)
  {
    GridCountSame(g, h, Flagged);
    GridCountSame(g, h, Mined);
    if Consistent(g) {
      SameLayoutConsistent(g, h);
    }
  }

  // ---------------------------------------------------------------------
  // Score

  /** The leaderboard score of a won game: fewer seconds score more, never below 1. */
  function WinScore(elapsed: int): (s: int)
    ensures s >= 1
  {
    Max(1, 10000 - elapsed * 50)
  }

  /** A faster win never scores less, and scores strictly more while above the floor. */
  lemma WinScoreMonotone(a: int, b: int)
    requires a <= b
    ensures WinScore(a) >= WinScore(b)
    ensures a < b && WinScore(b) > 1 ==> WinScore(a) > WinScore(b)
  {
  }

  /** The `extra` map stored with a win. */
  function WinExtra(d: Difficulty, elapsed: int, mines: int): map<string, Leaderboard.Value>
  {
    map["difficulty" := Leaderboard.Text(DifficultyName(d)), "time_s" := Leaderboard.Int(elapsed),
        "mines" := Leaderboard.Int(mines)]
  }

  /** The store after `add_score("minesweeper", ...)` for a win in `elapsed` seconds. */
  ghost function WinRecord(file: Leaderboard.FileState, name: string, d: Difficulty, elapsed: int, mines: int,
                           stamp: string): Leaderboard.FileState
  {
    Leaderboard.Stored(Leaderboard.Added(Leaderboard.Load(file), "minesweeper",
      Leaderboard.NewEntry(name, WinScore(elapsed), Some(WinExtra(d, elapsed, mines)), stamp)))
  }

  /** The best time after a win in `elapsed` seconds. */
  function BestAfter(best: Option<int>, elapsed: int): (b: Option<int>)
    ensures b.Some? && b.value <= elapsed
    ensures best.Some? ==> b.value <= best.value
    ensures b.value == elapsed || (best.Some? && b.value == best.value)
  {
    if best.None? || elapsed < best.value then Some(elapsed) else best
  }

  // ---------------------------------------------------------------------
  // The game

  class Game {
    var difficulty: Difficulty
    var rows: int
    var cols: int
    var mines: int
    var cells: Grid
    var gameOver: bool
    var firstClick: bool
    var minesLeft: int
    var startTime: Option<int>
    var timerRunning: bool
    var bestTime: Option<int>
    var playerName: string

    ghost predicate Valid()
      reads this`difficulty, this`rows, this`cols, this`mines, this`cells, this`gameOver, this`firstClick,
        this`minesLeft, this`startTime, this`playerName
    {
      (rows, cols, mines) == Dimensions(difficulty)
      && Shaped(cells, rows, cols)
      && minesLeft == mines - GridCount(cells, Flagged)
      && NoFlagShown(cells)
      && (!gameOver ==> NoMineShown(cells))
      && (firstClick <==> startTime.None?)
      && (firstClick ==> !gameOver && AllFresh(cells))
      && (!firstClick ==> Consistent(cells) && GridCount(cells, Mined) == mines)
      && playerName != ""
    }

    /** Seconds since the first click: `int(time.time() - start_time)`, or 0 before it. */
    function Elapsed(now: int): int
      reads this`startTime
    {
      if startTime.Some? then now - startTime.value else 0
    }

    /** `ask_player_name`, `set_difficulty` and `create_board` at start-up (an empty name becomes "Player"). */
    constructor (name: string, d: Difficulty)
      ensures Valid()
      ensures playerName == (if name == "" then "Player" else name) && difficulty == d && bestTime.None?
      ensures cells == FreshGrid(rows, cols) && firstClick && !gameOver && minesLeft == mines
    {
      playerName := if name == "" then "Player" else name;
      difficulty := d;
      rows, cols, mines := Dimensions(d).0, Dimensions(d).1, Dimensions(d).2;
      cells := [];
      gameOver, firstClick := false, true;
      minesLeft := 0;
      startTime, timerRunning, bestTime := None, false, None;
      new;
      CreateBoard();
    }

    /**
     * `create_board`: a rows x cols grid of fresh cells, the game running
     * again, waiting for its first click, with MINES mines left to flag.
     */
    method CreateBoard()
      requires (rows, cols, mines) == Dimensions(difficulty) && playerName != ""
      modifies this`cells, this`gameOver, this`firstClick, this`minesLeft, this`startTime, this`timerRunning
      ensures Valid()
      ensures cells == FreshGrid(rows, cols)
      ensures !gameOver && firstClick && minesLeft == mines && startTime.None? && !timerRunning
    {
      gameOver := false;
      firstClick := true;
      minesLeft := mines;
      startTime := None;
      timerRunning := false;
      var grid: Grid := [];
      for r := 0 to rows
        invariant |grid| == r && forall i :: 0 <= i < r ==> grid[i] == seq(cols, _ => Fresh)
      {
        var rowCells: seq<Cell> := [];
        for c := 0 to cols
          invariant rowCells == seq(c, _ => Fresh)
        {
          rowCells := rowCells + [Fresh];
        }
        grid := grid + [rowCells];
      }
      cells := grid;
      assert cells == FreshGrid(rows, cols);
      GridCountNone(cells, Flagged);
    }

    /** `reset_game`: choose the difficulty (a dialog in the source, a parameter here), then `create_board`. */
    method NewGame(d: Difficulty)
      requires Valid()
      modifies this
      ensures Valid()
      ensures difficulty == d && (rows, cols, mines) == Dimensions(d)
      ensures cells == FreshGrid(rows, cols) && !gameOver && firstClick && minesLeft == mines
      ensures bestTime == old(bestTime) && playerName == old(playerName)
    {
      difficulty := d;
      rows, cols, mines := Dimensions(d).0, Dimensions(d).1, Dimensions(d).2;
      CreateBoard();
    }

    /**
     * The inner loops of `place_mines`: mines among the in-bounds
     * neighbours of (r, c).
     */
    method NeighborCount(r: int, c: int) returns (count: nat)
      requires Shaped(cells, rows, cols)
      ensures count == MinesAround(cells, r, c)
    {
      count := 0;
      for dr := -1 to 2
        invariant count == MinesAbove(cells, r, c, dr + 1)
      {
        for dc := -1 to 2
          invariant count == MinesAbove(cells, r, c, dr + 1) + MinesInRow(cells, r, c, dr, dc + 1)
        {
          if dr == 0 && dc == 0 {
            continue;
          }
          var nr, nc := r + dr, c + dc;
          if 0 <= nr < rows && 0 <= nc < cols {
            if cells[nr][nc].isMine {
              count := count + 1;
            }
          }
        }
      }
    }

    /**
     * `place_mines`: exactly the sampled cells become mines (so MINES of
     * them, none in the safe zone), then every other cell stores its
     * neighbour count.
     */
    method PlaceMines(row: int, col: int, sample: seq<Pos>)
      requires Shaped(cells, rows, cols) && 0 <= cols && AllFresh(cells)
      requires ValidSample(rows, cols, mines, row, col, sample)
      modifies this`cells
      ensures Shaped(cells, rows, cols)
      ensures forall r, c :: InGrid(cells, r, c) ==>
        && (cells[r][c].isMine <==> (r, c) in sample)
        && !cells[r][c].isRevealed && !cells[r][c].isFlagged
      ensures forall r, c :: InGrid(cells, r, c) && InSafeZone(row, col, (r, c)) ==> !cells[r][c].isMine
      ensures Consistent(cells) && GridCount(cells, Mined) == mines
    {
      MarkMines(sample);
      ghost var marked := cells;
      StoreCounts();
      GridCountSame(marked, cells, Mined);
    }

    /** The first loop of `place_mines`: `cells[r][c]["is_mine"] = True` for each sampled cell. */
    method MarkMines(sample: seq<Pos>)
      requires Shaped(cells, rows, cols) && AllFresh(cells)
      requires forall i :: 0 <= i < |sample| ==> 0 <= sample[i].0 < rows && 0 <= sample[i].1 < cols
      requires forall i, j :: 0 <= i < j < |sample| ==> sample[i] != sample[j]
      modifies this`cells
      ensures Shaped(cells, rows, cols)
      ensures forall r, c :: InGrid(cells, r, c) ==> cells[r][c] == Fresh.(isMine := (r, c) in sample)
      ensures GridCount(cells, Mined) == |sample|
    {
      GridCountNone(cells, Mined);
      for i := 0 to |sample|
        invariant Shaped(cells, rows, cols)
        invariant forall r, c :: InGrid(cells, r, c) ==> cells[r][c] == Fresh.(isMine := (r, c) in sample[..i])
        invariant GridCount(cells, Mined) == i
      {
        var (r, c) := sample[i];
        assert (r, c) !in sample[..i];
        assert sample[..i + 1] == sample[..i] + [(r, c)];
        GridCountUpdate(cells, r, c, cells[r][c].(isMine := true), Mined);
        cells := Set(cells, r, c, cells[r][c].(isMine := true));
      }
      assert sample[..|sample|] == sample;
    }

    /** The second loop of `place_mines`: each non-mine cell stores the mines around it. */
    method StoreCounts()
      requires Shaped(cells, rows, cols) && 0 <= cols
      requires forall r, c :: InGrid(cells, r, c) ==> cells[r][c].neighborMines == 0
      modifies this`cells
      ensures Shaped(cells, rows, cols) && Consistent(cells)
      ensures forall r, c :: InGrid(cells, r, c) ==> cells[r][c] == old(cells)[r][c].(neighborMines := cells[r][c].neighborMines)
    {
      ghost var placed := cells;
      for r := 0 to rows
        invariant Shaped(cells, rows, cols) && SameMines(placed, cells)
        invariant forall i, j :: InGrid(cells, i, j) ==>
          cells[i][j] == placed[i][j].(neighborMines := if i < r && !placed[i][j].isMine then MinesAround(placed, i, j) else 0)
      {
        for c := 0 to cols
          invariant Shaped(cells, rows, cols) && SameMines(placed, cells)
          invariant forall i, j :: InGrid(cells, i, j) ==>
            cells[i][j] == placed[i][j].(neighborMines :=
              if (i < r || (i == r && j < c)) && !placed[i][j].isMine then MinesAround(placed, i, j) else 0)
        {
          if cells[r][c].isMine {
            continue;
          }
          var count := NeighborCount(r, c);
          MinesAboveSame(cells, placed, r, c, ScanWidth);
          cells := Set(cells, r, c, cells[r][c].(neighborMines := count));
        }
      }
      MinesAroundSame(placed, cells);
    }
 
    /**
     * The body of `flood_fill`'s inner `for` loops for the offset (dr, dc)
     * around (r, c): a neighbour that is in bounds, hidden, unflagged and
     * safe is revealed, and pushed when its count is 0.
     */
    method Visit(r: int, c: int, dr: int, dc: int, ghost g: Grid, ghost base: seq<Pos>, stack: seq<Pos>)
      returns (stack': seq<Pos>)
      requires -1 <= dr <= 1 && -1 <= dc <= 1
      requires Shaped(cells, rows, cols) && Spreading(g, cells, base, stack, r, c, (dr + 1) * 3 + (dc + 1))
      modifies this`cells
      ensures Shaped(cells, rows, cols) && Spreading(g, cells, base, stack', r, c, (dr + 1) * 3 + (dc + 1 + 1))
    {
      stack' := stack;
      var nr, nc := r + dr, c + dc;
      if (dr != 0 || dc != 0) && 0 <= nr < rows && 0 <= nc < cols {
        var cell := cells[nr][nc];
        if !cell.isRevealed && !cell.isFlagged && !cell.isMine {
          SpreadOpen(g, cells, base, stack, r, c, dr, dc);
          cells := Set(cells, nr, nc, cell.(isRevealed := true));
          if cell.neighborMines == 0 {
            stack' := stack' + [(nr, nc)];
          }
          return;
        }
      }
      SpreadSkip(g, cells, base, stack, r, c, dr, dc);
    }

    /**
     * One pass of `flood_fill`'s loop body around (r, c): each in-bounds
     * neighbour that is hidden, unflagged and safe is revealed, and pushed
     * when its count is 0. Afterwards every neighbour is covered.
     */
    method OpenAround(r: int, c: int, stack: seq<Pos>) returns (stack': seq<Pos>)
      requires Shaped(cells, rows, cols) && InGrid(cells, r, c)
      modifies this`cells
      ensures Shaped(cells, rows, cols)
      ensures Pushed(old(cells), cells, stack, stack') && Settled(cells, r, c) && Near(old(cells), cells, r, c)
    {
      stack' := stack;
      OpenedRefl(cells);
      for dr := -1 to 2
        invariant Shaped(cells, rows, cols)
        invariant Spreading(old(cells), cells, stack, stack', r, c, (dr + 1) * 3)
      {
        for dc := -1 to 2
          invariant Shaped(cells, rows, cols)
          invariant Spreading(old(cells), cells, stack, stack', r, c, (dr + 1) * 3 + (dc + 1))
        {
          stack' := Visit(r, c, dr, dc, old(cells), stack, stack');
        }
      }
      SpreadDone(old(cells), cells, stack, stack', r, c);
    }

    /**
     * `flood_fill(row, col)`: from a revealed 0, open cells with an explicit
     * stack. Only hidden, unflagged, safe cells are opened, nothing is hidden
     * again, and when the stack runs dry the start cell and every newly
     * opened 0 have all their neighbours covered, while every opened cell
     * is joined to the start through opened 0s.
     */
    method FloodFill(row: int, col: int)
      requires Shaped(cells, rows, cols) && InGrid(cells, row, col)
      modifies this`cells
      ensures Shaped(cells, rows, cols) && Opened(old(cells), cells)
      ensures Closed(old(cells), cells, row, col)
    {
      var stack := [(row, col)];
      FillStart(cells, row, col);
      while stack != []
        invariant Shaped(cells, rows, cols)
        invariant Filling(old(cells), cells, stack, row, col)
        decreases GridCount(cells, Hidden), |stack|
      {
        var (r, c) := stack[|stack| - 1];
        var rest := stack[..|stack| - 1];
        assert stack == rest + [(r, c)];
        ghost var before := cells;
        stack := OpenAround(r, c, rest);
        FillStep(old(cells), before, cells, rest, r, c, stack, row, col);
      }
      FillDone(old(cells), cells, row, col);
    }
 
    /**
     * `end_game(won)`: the timer stops; a win updates the best time and,
     * for a named player and a positive time, records the score under
     * "minesweeper".
     */
    method EndGame(won: bool, now: int, stamp: string, store: Leaderboard.ScoreFile)
      modifies this`timerRunning, this`bestTime, store
      ensures !timerRunning
      ensures !won ==> bestTime == old(bestTime)
      ensures won ==> bestTime == BestAfter(old(bestTime), Elapsed(now))
      ensures won && playerName != "" && Elapsed(now) > 0 ==>
        store.file == WinRecord(old(store.file), playerName, difficulty, Elapsed(now), mines, stamp)
      ensures !(won && playerName != "" && Elapsed(now) > 0) ==> unchanged(store)
    {
      timerRunning := false;
      var elapsed := if startTime.Some? then now - startTime.value else 0;
      assert elapsed == Elapsed(now);
      if won {
        if bestTime.None? || elapsed < bestTime.value {
          bestTime := Some(elapsed);
        }
        if playerName != "" && elapsed > 0 {
          var score := WinScore(elapsed);
          store.AddScore("minesweeper", playerName, score, Some(WinExtra(difficulty, elapsed, mines)), stamp);
        }
      }
    }

    /**
     * `reveal_cell(row, col)`: nothing on a revealed or flagged cell;
     * otherwise the cell opens, a mine ends the game as a loss, and a 0
     * starts a flood fill.
     */
    method RevealCell(row: int, col: int, now: int, stamp: string, store: Leaderboard.ScoreFile)
      requires Valid() && !gameOver && !firstClick && InGrid(cells, row, col)
      modifies this`cells, this`gameOver, this`timerRunning, this`bestTime, store
      ensures Valid() && bestTime == old(bestTime) && unchanged(store)
      ensures SameLayout(old(cells), cells) && (old(cells)[row][col].isFlagged || cells[row][col].isRevealed)
      ensures old(cells)[row][col].isRevealed || old(cells)[row][col].isFlagged ==>
        cells == old(cells) && !gameOver && timerRunning == old(timerRunning)
      ensures !old(cells)[row][col].isRevealed && !old(cells)[row][col].isFlagged && old(cells)[row][col].isMine ==>
        cells == Set(old(cells), row, col, old(cells)[row][col].(isRevealed := true)) && gameOver && !timerRunning
      ensures !old(cells)[row][col].isRevealed && !old(cells)[row][col].isFlagged && !old(cells)[row][col].isMine ==>
        RevealedFrom(old(cells), cells, row, col) && !gameOver && timerRunning == old(timerRunning)
    {
      var cell := cells[row][col];
      if cell.isRevealed || cell.isFlagged {
        return;
      }
      if cell.isMine {
        RevealOneKeeps(cells, row, col);
        cells := Set(cells, row, col, cell.(isRevealed := true));
        gameOver := true;
        EndGame(false, now, stamp, store);
        return;
      }
      OpenSafe(row, col);
    }

    /** The safe branch of `reveal_cell`: open the cell, and flood fill from it when its count is 0. */
    method OpenSafe(row: int, col: int)
      requires Valid() && !gameOver && !firstClick && InGrid(cells, row, col)
      requires !cells[row][col].isRevealed && !cells[row][col].isFlagged && !cells[row][col].isMine
      modifies this`cells
      ensures Valid() && RevealedFrom(old(cells), cells, row, col)
    {
      ghost var g := cells;
      var cell := cells[row][col];
      RevealOneKeeps(g, row, col);
      cells := Set(cells, row, col, cell.(isRevealed := true));
      OpenedRefl(g);
      OpenedSet(g, g, row, col);
      if cell.neighborMines == 0 {
        ghost var g1 := cells;
        FloodFill(row, col);
        RevealThenFill(g, g1, cells, row, col);
      }
      OpenedKeeps(g, cells);
    }

    /**
     * `check_win`: nothing once the game is over; otherwise, when every
     * safe cell is revealed, the game ends as a win.
     */
    method CheckWin(now: int, stamp: string, store: Leaderboard.ScoreFile)
      requires Valid() && !firstClick
      modifies this`gameOver, this`timerRunning, this`bestTime, store
      ensures Valid()
      ensures old(gameOver) || !Cleared(cells) ==>
        gameOver == old(gameOver) && timerRunning == old(timerRunning) && bestTime == old(bestTime) && unchanged(store)
      ensures !old(gameOver) && Cleared(cells) ==>
        && gameOver && !timerRunning && bestTime == BestAfter(old(bestTime), Elapsed(now))
        && (Elapsed(now) > 0 ==> store.file == WinRecord(old(store.file), playerName, difficulty, Elapsed(now), mines, stamp))
        && (Elapsed(now) <= 0 ==> unchanged(store))
    {
      if gameOver {
        return;
      }
      var cleared := AllSafeRevealed();
      if cleared {
        gameOver := true;
        EndGame(true, now, stamp, store);
      }
    }

    /** `check_win`'s scan: true exactly when every cell is a mine or revealed. */
    method AllSafeRevealed() returns (cleared: bool)
      requires Valid()
      ensures cleared <==> Cleared(cells)
    {
      for r := 0 to rows
        invariant forall i, j :: 0 <= i < r && 0 <= j < cols ==> cells[i][j].isMine || cells[i][j].isRevealed
      {
        for c := 0 to cols
          invariant forall i, j :: (0 <= i < r && 0 <= j < cols) || (i == r && 0 <= j < c) ==>
            cells[i][j].isMine || cells[i][j].isRevealed
        {
          var cell := cells[r][c];
          if !cell.isMine && !cell.isRevealed {
            return false;
          }
        }
      }
      return true;
    }

    /** The first-click part of `on_left_click`: place the mines, then start the clock. */
    method StartGame(row: int, col: int, sample: seq<Pos>, now: int)
      requires Valid() && firstClick && InGrid(cells, row, col)
      requires ValidSample(rows, cols, mines, row, col, sample)
      modifies this`cells, this`firstClick, this`startTime, this`timerRunning
      ensures Valid() && !firstClick && startTime == Some(now) && timerRunning
      ensures forall r, c :: InGrid(cells, r, c) ==>
        && (cells[r][c].isMine <==> (r, c) in sample)
        && !cells[r][c].isRevealed && !cells[r][c].isFlagged
      ensures cells == Planted(rows, cols, sample)
    {
      GridCountNone(cells, Flagged);
      PlaceMines(row, col, sample);
      GridCountNone(cells, Flagged);
      PlantedUnique(cells, rows, cols, sample);
      firstClick := false;
      startTime := Some(now);
      timerRunning := true;
    }

    /**
     * `on_left_click(row, col)`: ignored when the game is over or the cell
     * is flagged. The first accepted click places the mines (the sampled
     * cells, none next to the click) and starts the clock; then the cell is
     * revealed and the win test runs.
     */
    method OnLeftClick(row: int, col: int, sample: seq<Pos>, now: int, stamp: string, store: Leaderboard.ScoreFile)
      requires Valid() && InGrid(cells, row, col)
      requires firstClick ==> ValidSample(rows, cols, mines, row, col, sample)
      modifies this`cells, this`firstClick, this`startTime, this`timerRunning, this`gameOver, this`bestTime, store
      ensures Valid()
      ensures old(gameOver) || old(cells)[row][col].isFlagged ==> unchanged(this) && unchanged(store)
      ensures !old(gameOver) && !old(cells)[row][col].isFlagged ==>
        && !firstClick && cells[row][col].isRevealed
        && (old(firstClick) ==>
              startTime == Some(now) && forall r, c :: InGrid(cells, r, c) ==> (cells[r][c].isMine <==> (r, c) in sample))
        && (!old(firstClick) ==> startTime == old(startTime) && SameLayout(old(cells), cells))
        && (gameOver <==> cells[row][col].isMine || Cleared(cells))
      ensures !old(gameOver) && !old(cells)[row][col].isFlagged ==>
        var g := if old(firstClick) then Planted(rows, cols, sample) else old(cells);
        && InGrid(g, row, col)
        && (g[row][col].isRevealed ==> cells == g)
        && (!g[row][col].isRevealed && g[row][col].isMine ==> cells == Set(g, row, col, g[row][col].(isRevealed := true)))
        && (!g[row][col].isRevealed && !g[row][col].isMine ==> RevealedFrom(g, cells, row, col))
      ensures !old(gameOver) && !old(cells)[row][col].isFlagged && gameOver && !cells[row][col].isMine ==>
        && bestTime == BestAfter(old(bestTime), Elapsed(now))
        && (Elapsed(now) > 0 ==> store.file == WinRecord(old(store.file), playerName, difficulty, Elapsed(now), mines, stamp))
      ensures (old(gameOver) || old(cells)[row][col].isFlagged || !gameOver || cells[row][col].isMine
               || Elapsed(now) <= 0) ==> unchanged(store)
    {
      if gameOver {
        return;
      }
      if cells[row][col].isFlagged {
        return;
      }
      if firstClick {
        StartAndReveal(row, col, sample, now, stamp, store);
      } else {
        RevealAndCheck(row, col, now, stamp, store);
      }
    }

    /** The first accepted click: place the mines and start the clock, then reveal the cell and test for a win. */
    method StartAndReveal(row: int, col: int, sample: seq<Pos>, now: int, stamp: string, store: Leaderboard.ScoreFile)
      requires Valid() && !gameOver && firstClick && InGrid(cells, row, col) && !cells[row][col].isFlagged
      requires ValidSample(rows, cols, mines, row, col, sample)
      modifies this`cells, this`firstClick, this`startTime, this`timerRunning, this`gameOver, this`bestTime, store
      ensures Valid() && !firstClick && startTime == Some(now) && cells[row][col].isRevealed
      ensures forall r, c :: InGrid(cells, r, c) ==> (cells[r][c].isMine <==> (r, c) in sample)
      ensures gameOver <==> cells[row][col].isMine || Cleared(cells)
      ensures var g := Planted(rows, cols, sample);
        && InGrid(g, row, col)
        && (g[row][col].isRevealed ==> cells == g)
        && (!g[row][col].isRevealed && g[row][col].isMine ==> cells == Set(g, row, col, g[row][col].(isRevealed := true)))
        && (!g[row][col].isRevealed && !g[row][col].isMine ==> RevealedFrom(g, cells, row, col))
      ensures gameOver && !cells[row][col].isMine ==>
        && bestTime == BestAfter(old(bestTime), Elapsed(now))
        && (Elapsed(now) > 0 ==> store.file == WinRecord(old(store.file), playerName, difficulty, Elapsed(now), mines, stamp))
      ensures !gameOver || cells[row][col].isMine || Elapsed(now) <= 0 ==> unchanged(store)
    {
      StartGame(row, col, sample, now);
      ghost var planted := cells;
      RevealAndCheck(row, col, now, stamp, store);
      assert SameLayout(planted, cells);
    }

    /** The part of `on_left_click` after the mines are placed: reveal the cell, then test for a win. */
    method RevealAndCheck(row: int, col: int, now: int, stamp: string, store: Leaderboard.ScoreFile)
      requires Valid() && !gameOver && !firstClick && InGrid(cells, row, col) && !cells[row][col].isFlagged
      modifies this`cells, this`gameOver, this`timerRunning, this`bestTime, store
      ensures Valid() && SameLayout(old(cells), cells) && cells[row][col].isRevealed
      ensures gameOver <==> cells[row][col].isMine || Cleared(cells)
      ensures old(cells)[row][col].isRevealed ==> cells == old(cells)
      ensures !old(cells)[row][col].isRevealed && old(cells)[row][col].isMine ==>
        cells == Set(old(cells), row, col, old(cells)[row][col].(isRevealed := true))
      ensures !old(cells)[row][col].isRevealed && !old(cells)[row][col].isMine ==>
        RevealedFrom(old(cells), cells, row, col)
      ensures gameOver && !cells[row][col].isMine ==>
        && bestTime == BestAfter(old(bestTime), Elapsed(now))
        && (Elapsed(now) > 0 ==> store.file == WinRecord(old(store.file), playerName, difficulty, Elapsed(now), mines, stamp))
      ensures !gameOver || cells[row][col].isMine || Elapsed(now) <= 0 ==> unchanged(store)
    {
      RevealCell(row, col, now, stamp, store);
      CheckWin(now, stamp, store);
    }

    /**
     * `on_right_click(row, col)`: ignored when the game is over, before the
     * first click, or on a revealed cell; otherwise the flag toggles and the
     * mines-left counter moves the other way, so it always equals MINES
     * minus the number of flags.
     */
    method OnRightClick(row: int, col: int)
      requires Valid() && InGrid(cells, row, col)
      modifies this`cells, this`minesLeft
      ensures Valid()
      ensures old(gameOver) || old(firstClick) || old(cells)[row][col].isRevealed ==>
        cells == old(cells) && minesLeft == old(minesLeft)
      ensures !(old(gameOver) || old(firstClick) || old(cells)[row][col].isRevealed) ==>
        && cells == Set(old(cells), row, col, old(cells)[row][col].(isFlagged := !old(cells)[row][col].isFlagged))
        && minesLeft == old(minesLeft) + (if old(cells)[row][col].isFlagged then 1 else -1)
    {
      if gameOver || firstClick {
        return;
      }
      var cell := cells[row][col];
      if cell.isRevealed {
        return;
      }
      ToggleKeeps(cells, row, col);
      cells := Set(cells, row, col, cell.(isFlagged := !cell.isFlagged));
      if cell.isFlagged {
        minesLeft := minesLeft + 1;
      } else {
        minesLeft := minesLeft - 1;
      }
    }
  }
}
