/**
 * The Memory Match pairing game (Games/memory_match.py): the difficulty
 * table, dealing every symbol twice onto the grid, the two-pick attempt
 * with its input lock and the delayed `hide` callback, the pair counter
 * and the end of the game, and the one-shot score saving.
 *
 * A card's symbol is its index in the 18-symbol table.  A button showing
 * its symbol is "face up"; a disabled button is "matched" (Tk does not run
 * the click handler of a disabled button).  The `hide` callbacks scheduled
 * with `root.after(700, hide)` are the queue `pending`, fired by the event
 * method `Hide`, oldest first.  The clock is a parameter (`now`, whole
 * seconds) and the shuffled deal is a parameter too.
 */
module MemoryMatch {
  import opened Wrappers
  import Leaderboard

  /** How many symbols the table holds. */
  const SymbolCount: nat := 18

  datatype Level = Easy | Medium | Hard

  /** `DIFFICULTIES`: rows and columns. */
  function Dimensions(level: Level): (d: (int, int))
    ensures 0 < d.0 && 0 < d.1
  {
    match level
    case Easy => (4, 4)
    case Medium => (4, 6)
    case Hard => (6, 6)
  }

  function LevelName(level: Level): string
  {
    match level
    case Easy => "Easy"
    case Medium => "Medium"
    case Hard => "Hard"
  }

  /** `(ROWS * COLS) // 2` for each level. */
  function Pairs(level: Level): nat
  {
    match level
    case Easy => 8
    case Medium => 12
    case Hard => 18
  }

  /**
   * Every level has an even number of cells, half of them is its pair
   * count, and it needs at most the 18 symbols, so the `ValueError` of
   * `reset_game` is never raised.
   */
  lemma PairsFit(level: Level)
    ensures var (rows, cols) := Dimensions(level);
      rows * cols == 2 * Pairs(level) && Pairs(level) == (rows * cols) / 2 && Pairs(level) <= SymbolCount
  {
  }

  /** A shuffle of the level's items covers the grid exactly. */
  lemma DealSize(level: Level, rows: int, cols: int, deal: seq<int>)
    requires (rows, cols) == Dimensions(level) && multiset(deal) == multiset(Items(Pairs(level)))
    ensures |deal| == rows * cols
  {
    assert |deal| == |multiset(deal)|;
    PairsFit(level);
  }

  type Pos = (int, int)

  // ---------------------------------------------------------------------
  // The deal

  /** The first n symbols, by their index in the table. */
  function Symbols(n: nat): (s: seq<int>)
    ensures |s| == n
  {
    seq(n, i => i)
  }

  /** `SYMBOLS[:n] * 2`: every one of the first n symbols twice. */
  function Items(n: nat): (s: seq<int>)
    ensures |s| == 2 * n
  {
    Symbols(n) + Symbols(n)
  }

  lemma {:induction false} SymbolsOnce(n: nat, s: int)
    ensures multiset(Symbols(n))[s] == if 0 <= s < n then 1 else 0
  {
    if n > 0 {
      assert Symbols(n) == Symbols(n - 1) + [n - 1];
      SymbolsOnce(n - 1, s);
    }
  }

  /** A shuffle of the items holds each of the first n symbols exactly twice and nothing else. */
  lemma ItemsTwice(n: nat, deal: seq<int>, s: int)
    requires multiset(deal) == multiset(Items(n))
    ensures multiset(deal)[s] == if 0 <= s < n then 2 else 0
  {
    SymbolsOnce(n, s);
  }

  /** The rows read in order: `[values[r][c] for r ... for c ...]`. */
  function Flatten(g: seq<seq<int>>): seq<int>
  {
    if g == [] then [] else Flatten(g[..|g| - 1]) + g[|g| - 1]
  }

  /** The first row read comes first. */
  lemma {:induction false} FlattenFront(g: seq<seq<int>>)
    requires g != []
    ensures Flatten(g) == g[0] + Flatten(g[1..])
  {
    if |g| > 1 {
      var n := |g| - 1;
      assert g[..n][1..] == g[1..][..n - 1];
      FlattenFront(g[..n]);
    }
  }

  lemma RowFits(r: nat, rows: nat, cols: nat)
    requires r < rows
    ensures r * cols + cols <= rows * cols && (r + 1) * cols == r * cols + cols
  {
    assert rows * cols == (r + 1) * cols + (rows - r - 1) * cols;
  }

  /**
   * The nested loops of `reset_game`: `values[r][c] = items[idx]` with idx
   * running over the deal, row by row.
   */
  method FillGrid(values: seq<seq<int>>, deal: seq<int>, rows: nat, cols: nat) returns (filled: seq<seq<int>>)
    requires |values| == rows && (forall i :: 0 <= i < rows ==> |values[i]| == cols) && |deal| == rows * cols
    ensures IsGrid(filled, rows, cols) && Flatten(filled) == deal
  {
    filled := values;
    var idx := 0;
    for r := 0 to rows
      invariant |filled| == rows && forall i :: 0 <= i < rows ==> |filled[i]| == cols
      invariant idx == r * cols && idx <= |deal|
      invariant Flatten(filled[..r]) == deal[..idx]
    {
      RowFits(r, rows, cols);
      var row := FillRow(filled[r], deal, idx);
      filled := filled[r := row];
      assert filled[..r + 1][..r] == filled[..r];
      assert deal[..idx + cols] == deal[..idx] + row;
      idx := idx + cols;
    }
    assert filled == filled[..rows];
  }

  /** The inner loop: one row of cards taken from the deal, starting at `start`. */
  method FillRow(row: seq<int>, deal: seq<int>, start: nat) returns (filled: seq<int>)
    requires start + |row| <= |deal|
    ensures filled == deal[start..start + |row|]
  {
    filled := row;
    var idx := start;
    for c := 0 to |row|
      invariant |filled| == |row| && idx == start + c
      invariant filled[..c] == deal[start..idx]
    {
      filled := filled[c := deal[idx]];
      idx := idx + 1;
      assert filled[..c + 1] == filled[..c] + [deal[idx - 1]];
    }
    assert filled == filled[..|row|];
  }

  // ---------------------------------------------------------------------
  // Grids of flags

  /** A rows x cols grid. */
  predicate IsGrid<T>(g: seq<seq<T>>, rows: int, cols: int)
  {
    |g| == rows && forall i :: 0 <= i < |g| ==> |g[i]| == cols
  }

  predicate OnBoard(p: Pos, rows: int, cols: int)
  {
    0 <= p.0 < rows && 0 <= p.1 < cols
  }

  /** `g[r][c] = x`, on a copy. */
  function Set(g: seq<seq<bool>>, p: Pos, x: bool): (h: seq<seq<bool>>)
    requires 0 <= p.0 < |g| && 0 <= p.1 < |g[p.0]|
    ensures IsGrid(g, |g|, |g[p.0]|) ==> IsGrid(h, |g|, |g[p.0]|)
  {
    g[p.0 := g[p.0][p.1 := x]]
  }

  lemma SetTwice(g: seq<seq<bool>>, p: Pos, x: bool)
    requires 0 <= p.0 < |g| && 0 <= p.1 < |g[p.0]|
    ensures Set(Set(g, p, x), p, x) == Set(g, p, x)
  {
    assert Set(g, p, x)[p.0][p.1 := x] == Set(g, p, x)[p.0];
  }

  function Blank(rows: nat, cols: nat): (g: seq<seq<bool>>)
    ensures IsGrid(g, rows, cols) && forall i, j :: 0 <= i < rows && 0 <= j < cols ==> !g[i][j]
  {
    seq(rows, _ => seq(cols, _ => false))
  }

  /** A grid of values before the deal. */
  function Zeros(rows: nat, cols: nat): (g: seq<seq<int>>)
    ensures IsGrid(g, rows, cols)
  {
    seq(rows, _ => seq(cols, _ => 0))
  }

  function At(g: seq<seq<bool>>, p: Pos): bool
    requires 0 <= p.0 < |g| && 0 <= p.1 < |g[p.0]|
  {
    g[p.0][p.1]
  }

  /** A card is face up exactly when it is matched, is the first pick, or waits for the next `hide`. */
  ghost predicate ShownExactly(faceUp: seq<seq<bool>>, matched: seq<seq<bool>>, firstPick: Option<Pos>,
                               pending: seq<(Pos, Pos)>, rows: int, cols: int)
    requires IsGrid(faceUp, rows, cols) && IsGrid(matched, rows, cols)
  {
    forall i, j :: 0 <= i < rows && 0 <= j < cols ==>
      (faceUp[i][j] <==> matched[i][j] || firstPick == Some((i, j)) || (pending != [] && (i, j) in {pending[0].0, pending[0].1}))
  }

  /** Turning up a first pick, with nothing waiting to be hidden. */
  lemma ShownFirst(faceUp: seq<seq<bool>>, matched: seq<seq<bool>>, p: Pos, rows: int, cols: int)
    requires IsGrid(faceUp, rows, cols) && IsGrid(matched, rows, cols) && OnBoard(p, rows, cols)
    requires ShownExactly(faceUp, matched, None, [], rows, cols)
    ensures ShownExactly(Set(faceUp, p, true), matched, Some(p), [], rows, cols)
  {
  }

  /** Turning up the partner of the first pick and disabling both. */
  lemma ShownPair(faceUp: seq<seq<bool>>, matched: seq<seq<bool>>, first: Pos, p: Pos, rows: int, cols: int)
    requires IsGrid(faceUp, rows, cols) && IsGrid(matched, rows, cols) && OnBoard(first, rows, cols) && OnBoard(p, rows, cols)
    requires ShownExactly(faceUp, matched, Some(first), [], rows, cols)
    ensures ShownExactly(Set(faceUp, p, true), Set(Set(matched, first, true), p, true), None, [], rows, cols)
  {
  }

  /** Turning up a second card that does not match: both wait for `hide`. */
  lemma ShownMismatch(faceUp: seq<seq<bool>>, matched: seq<seq<bool>>, first: Pos, p: Pos, rows: int, cols: int)
    requires IsGrid(faceUp, rows, cols) && IsGrid(matched, rows, cols) && OnBoard(p, rows, cols)
    requires ShownExactly(faceUp, matched, Some(first), [], rows, cols)
    ensures ShownExactly(Set(faceUp, p, true), matched, None, [(first, p)], rows, cols)
  {
  }

  /** `hide` turns the two waiting cards face down. */
  lemma ShownHidden(faceUp: seq<seq<bool>>, matched: seq<seq<bool>>, a: Pos, b: Pos, rows: int, cols: int)
    requires IsGrid(faceUp, rows, cols) && IsGrid(matched, rows, cols) && OnBoard(a, rows, cols) && OnBoard(b, rows, cols)
    requires !At(matched, a) && !At(matched, b)
    requires ShownExactly(faceUp, matched, None, [(a, b)], rows, cols)
    ensures ShownExactly(Set(Set(faceUp, a, false), b, false), matched, None, [], rows, cols)
  {
  }

  function CountRow(row: seq<bool>): nat
  {
    if row == [] then 0 else CountRow(row[..|row| - 1]) + (if row[|row| - 1] then 1 else 0)
  }

  /** How many cells are set. */
  function Count(g: seq<seq<bool>>): nat
  {
    if g == [] then 0 else Count(g[..|g| - 1]) + CountRow(g[|g| - 1])
  }

  lemma {:induction false} CountRowSet(row: seq<bool>, c: nat)
    requires c < |row| && !row[c]
    ensures CountRow(row[c := true]) == CountRow(row) + 1
  {
    var n := |row| - 1;
    if c < n {
      assert row[c := true][..n] == row[..n][c := true];
      CountRowSet(row[..n], c);
    } else {
      assert row[c := true][..n] == row[..n];
    }
  }

  /** Setting one clear cell adds one to the count. */
  lemma {:induction false} CountSet(g: seq<seq<bool>>, p: Pos)
    requires 0 <= p.0 < |g| && 0 <= p.1 < |g[p.0]| && !g[p.0][p.1]
    ensures Count(Set(g, p, true)) == Count(g) + 1
  {
    var n := |g| - 1;
    if p.0 < n {
      assert Set(g, p, true)[..n] == Set(g[..n], p, true);
      CountSet(g[..n], p);
    } else {
      assert Set(g, p, true)[..n] == g[..n];
      CountRowSet(g[n], p.1);
    }
  }

  lemma {:induction false} CountRowBound(row: seq<bool>)
    ensures CountRow(row) <= |row|
    ensures CountRow(row) == |row| ==> forall j :: 0 <= j < |row| ==> row[j]
  {
    if row != [] {
      var n := |row| - 1;
      CountRowBound(row[..n]);
      if CountRow(row) == |row| {
        forall j | 0 <= j < |row|
          ensures row[j]
        {
          if j < n { assert row[..n][j] == row[j]; }
        }
      }
    }
  }

  /** A rows x cols grid counts at most rows * cols, and exactly that only when every cell is set. */
  lemma {:induction false} CountBound(g: seq<seq<bool>>, cols: nat)
    requires forall i :: 0 <= i < |g| ==> |g[i]| == cols
    ensures Count(g) <= |g| * cols
    ensures Count(g) == |g| * cols ==> forall i, j :: 0 <= i < |g| && 0 <= j < cols ==> g[i][j]
  {
    if g != [] {
      var n := |g| - 1;
      CountBound(g[..n], cols);
      CountRowBound(g[n]);
      assert |g| * cols == n * cols + cols;
      if Count(g) == |g| * cols {
        forall i, j | 0 <= i < |g| && 0 <= j < cols
          ensures g[i][j]
        {
          if i < n { assert g[..n][i] == g[i]; }
        }
      }
    }
  }

  /** While some card of a level's grid is still clear, fewer than all of its cards are set. */
  lemma NotFull(g: seq<seq<bool>>, level: Level, p: Pos)
    requires IsGrid(g, Dimensions(level).0, Dimensions(level).1) && OnBoard(p, Dimensions(level).0, Dimensions(level).1)
    requires !At(g, p)
    ensures Count(g) < 2 * Pairs(level)
  {
    PairsFit(level);
    CountBound(g, Dimensions(level).1);
  }

  lemma {:induction false} CountBlank(rows: nat, cols: nat)
    ensures Count(Blank(rows, cols)) == 0
  {
    if rows > 0 {
      var g := Blank(rows, cols);
      assert g[..rows - 1] == Blank(rows - 1, cols);
      CountBlank(rows - 1, cols);
      CountRowBlank(cols);
    }
  }

  lemma {:induction false} CountRowBlank(cols: nat)
    ensures CountRow(seq(cols, _ => false)) == 0
  {
    if cols > 0 {
      assert seq(cols, _ => false)[..cols - 1] == seq(cols - 1, _ => false);
      CountRowBlank(cols - 1);
    }
  }

  // ---------------------------------------------------------------------
  // Score

  /** `max(1, 10000 - (elapsed * 50 + moves * 20))`: at least 1, lower for more time or more attempts. */
  function MatchScore(elapsed: int, moves: int): (s: int)
    ensures s >= 1
  {
    var raw := 10000 - (elapsed * 50 + moves * 20);
    if raw >= 1 then raw else 1
  }

  /** A slower or longer game never scores more. */
  lemma MatchScoreMonotone(e1: int, m1: int, e2: int, m2: int)
    requires e1 <= e2 && m1 <= m2
    ensures MatchScore(e2, m2) <= MatchScore(e1, m1)
  {
  }

  /** The store after a saved game. */
  ghost function MatchRecord(file: Leaderboard.FileState, name: string, level: Level, elapsed: int, moves: int,
                             stamp: string): Leaderboard.FileState
  {
    Leaderboard.Stored(Leaderboard.Added(Leaderboard.Load(file), "memory_match",
      Leaderboard.NewEntry(name, MatchScore(elapsed, moves),
        Some(map["difficulty" := Leaderboard.Text(LevelName(level)), "time_s" := Leaderboard.Int(elapsed),
                 "attempts" := Leaderboard.Int(moves)]), stamp)))
  }

  // ---------------------------------------------------------------------
  // The table of cards

  /**
   * What the clicks and `hide` change: which cards are face up (showing
   * their symbol) and which are matched (disabled), the first pick of the
   * attempt under way, the input lock, the two counters and the `hide`
   * callbacks waiting to fire, oldest first.
   */
  datatype Table = Table(faceUp: seq<seq<bool>>, matched: seq<seq<bool>>, firstPick: Option<Pos>,
                         lockInput: bool, pairsFound: nat, moves: nat, pending: seq<(Pos, Pos)>)

  /** Both grids are rows x cols and every remembered card is on them. */
  ghost predicate TableShaped(t: Table, rows: int, cols: int)
  {
    && IsGrid(t.faceUp, rows, cols) && IsGrid(t.matched, rows, cols)
    && (t.firstPick.Some? ==> OnBoard(t.firstPick.value, rows, cols))
    && (forall k :: 0 <= k < |t.pending| ==> OnBoard(t.pending[k].0, rows, cols) && OnBoard(t.pending[k].1, rows, cols))
  }

  /**
   * The pairing invariant: the matched cards are twice the pairs found,
   * the input is locked exactly while one `hide` is pending (for two
   * different unmatched cards, with no first pick), the first pick is
   * unmatched, and the face-up cards are exactly the matched ones, the
   * first pick and the two cards waiting to be hidden.
   */
  ghost predicate Inv(t: Table, rows: int, cols: int)
  {
    && TableShaped(t, rows, cols)
    && Count(t.matched) == 2 * t.pairsFound
    && |t.pending| <= 1 && (t.lockInput <==> t.pending != [])
    && (t.pending != [] ==> t.firstPick.None? && t.pending[0].0 != t.pending[0].1)
    && (t.pending != [] ==> !At(t.matched, t.pending[0].0) && !At(t.matched, t.pending[0].1))
    && (t.firstPick.Some? ==> !At(t.matched, t.firstPick.value))
    && ShownExactly(t.faceUp, t.matched, t.firstPick, t.pending, rows, cols)
  }

  /** The grids of values and flags have the level's size, and every remembered card is on them. */
  ghost predicate Laid(level: Level, rows: int, cols: int, values: seq<seq<int>>, t: Table)
  {
    (rows, cols) == Dimensions(level) && IsGrid(values, rows, cols) && TableShaped(t, rows, cols)
  }

  /** `on_click` returns at once: the input is locked, or the card is disabled or already face up. */
  ghost predicate Ignored(t: Table, rows: int, cols: int, p: Pos)
    requires TableShaped(t, rows, cols) && OnBoard(p, rows, cols)
  {
    t.lockInput || At(t.matched, p) || At(t.faceUp, p)
  }

  /**
   * The effect of `on_click` on the table: the card turns face up; a first
   * pick is remembered; a second pick counts an attempt, clears the first
   * pick, and either disables both cards and counts a pair, or locks the
   * input and schedules `hide` for both.
   */
  ghost function Click(t: Table, values: seq<seq<int>>, rows: int, cols: int, p: Pos): (u: Table)
    requires TableShaped(t, rows, cols) && IsGrid(values, rows, cols) && OnBoard(p, rows, cols)
    ensures TableShaped(u, rows, cols)
    ensures Ignored(t, rows, cols, p) ==> u == t
    ensures !Ignored(t, rows, cols, p) ==> At(u.faceUp, p) && !t.lockInput
    ensures !Ignored(t, rows, cols, p) && t.firstPick.None? ==>
      u.firstPick == Some(p) && u.moves == t.moves && u.pairsFound == t.pairsFound && !u.lockInput
    ensures !Ignored(t, rows, cols, p) && t.firstPick.Some? ==>
      var f := t.firstPick.value;
      && u.firstPick.None? && u.moves == t.moves + 1
      && (values[f.0][f.1] == values[p.0][p.1] ==> u.pairsFound == t.pairsFound + 1 && At(u.matched, f) && At(u.matched, p))
      && (values[f.0][f.1] != values[p.0][p.1] ==> u.pairsFound == t.pairsFound && u.lockInput && u.pending == t.pending + [(f, p)])
  {
    if Ignored(t, rows, cols, p) then t
    else
      var up := Set(t.faceUp, p, true);
      match t.firstPick
      case None => t.(faceUp := up, firstPick := Some(p))
      case Some(f) =>
        if values[f.0][f.1] == values[p.0][p.1] then
          t.(faceUp := up, matched := Set(Set(t.matched, f, true), p, true), pairsFound := t.pairsFound + 1,
             moves := t.moves + 1, firstPick := None)
        else
          t.(faceUp := up, moves := t.moves + 1, lockInput := true, pending := t.pending + [(f, p)], firstPick := None)
  }

  /** The oldest `hide` fires: its two cards turn face down and the input unlocks. */
  ghost function Hidden(t: Table, rows: int, cols: int): (u: Table)
    requires TableShaped(t, rows, cols) && t.pending != []
    ensures TableShaped(u, rows, cols)
    ensures !At(u.faceUp, t.pending[0].0) && !At(u.faceUp, t.pending[0].1) && !u.lockInput
    ensures u.matched == t.matched && u.firstPick == t.firstPick && u.pending == t.pending[1..]
  {
    var (a, b) := t.pending[0];
    t.(faceUp := Set(Set(t.faceUp, a, false), b, false), lockInput := false, pending := t.pending[1..])
  }

  /** `reset_game` as written: every card face down and enabled, pick, lock and counters cleared, `hide` callbacks kept. */
  ghost function ResetTableAsWritten(t: Table, rows: nat, cols: nat): (u: Table)
    ensures TableShaped(t, rows, cols) ==> TableShaped(u, rows, cols)
  {
    Table(Blank(rows, cols), Blank(rows, cols), None, false, 0, 0, t.pending)
  }

  /** `reset_game` with the pending `hide` callbacks cancelled. */
  ghost function ResetTable(rows: nat, cols: nat): (u: Table)
    ensures Inv(u, rows, cols) && u.pairsFound == 0 && u.moves == 0
  {
    CountBlank(rows, cols);
    Table(Blank(rows, cols), Blank(rows, cols), None, false, 0, 0, [])
  }

  /** A click keeps the pairing invariant, and a second pick is never the first pick again. */
  lemma ClickKeepsInv(t: Table, values: seq<seq<int>>, level: Level, p: Pos)
    requires var (rows, cols) := Dimensions(level);
      Inv(t, rows, cols) && IsGrid(values, rows, cols) && OnBoard(p, rows, cols)
    ensures var (rows, cols) := Dimensions(level);
      Inv(Click(t, values, rows, cols, p), rows, cols)
    ensures var (rows, cols) := Dimensions(level);
      !Ignored(t, rows, cols, p) && t.firstPick.Some? ==> t.firstPick.value != p && t.pairsFound < Pairs(level)
  {
    var (rows, cols) := Dimensions(level);
    if !Ignored(t, rows, cols, p) {
      match t.firstPick
      case None =>
        ShownFirst(t.faceUp, t.matched, p, rows, cols);
      case Some(f) =>
        NotFull(t.matched, level, p);
        if values[f.0][f.1] == values[p.0][p.1] {
          CountSet(t.matched, f);
          CountSet(Set(t.matched, f, true), p);
          ShownPair(t.faceUp, t.matched, f, p, rows, cols);
        } else {
          ShownMismatch(t.faceUp, t.matched, f, p, rows, cols);
        }
    }
  }

  /** `hide` keeps the pairing invariant and leaves nothing scheduled. */
  lemma HiddenKeepsInv(t: Table, rows: int, cols: int)
    requires Inv(t, rows, cols) && t.pending != []
    ensures Inv(Hidden(t, rows, cols), rows, cols) && Hidden(t, rows, cols).pending == []
  {
    ShownHidden(t.faceUp, t.matched, t.pending[0].0, t.pending[0].1, rows, cols);
  }

  /** All pairs found under the invariant means every card is matched: the game ends exactly when the board is cleared. */
  lemma EndMeansCleared(t: Table, level: Level)
    requires Inv(t, Dimensions(level).0, Dimensions(level).1)
    ensures t.pairsFound == Pairs(level) <==>
      forall i, j :: 0 <= i < Dimensions(level).0 && 0 <= j < Dimensions(level).1 ==> t.matched[i][j]
  {
    var (rows, cols) := Dimensions(level);
    PairsFit(level);
    CountBound(t.matched, cols);
    if forall i, j :: 0 <= i < rows && 0 <= j < cols ==> t.matched[i][j] {
      AllSetCount(t.matched, cols);
    }
  }

  lemma {:induction false} AllSetCount(g: seq<seq<bool>>, cols: nat)
    requires forall i :: 0 <= i < |g| ==> |g[i]| == cols
    requires forall i, j :: 0 <= i < |g| && 0 <= j < cols ==> g[i][j]
    ensures Count(g) == |g| * cols
  {
    if g != [] {
      var n := |g| - 1;
      AllSetCount(g[..n], cols);
      AllSetRow(g[n]);
      assert |g| * cols == n * cols + cols;
    }
  }

  lemma {:induction false} AllSetRow(row: seq<bool>)
    requires forall j :: 0 <= j < |row| ==> row[j]
    ensures CountRow(row) == |row|
  {
    if row != [] {
      AllSetRow(row[..|row| - 1]);
    }
  }

  /**
   * The stale `hide` of `reset_game` as written.  Pick two different
   * cards, start a new game before `hide` fires, pick a card of the old
   * attempt, let the old `hide` turn it face down and pick it again: it is
   * paired with itself, one pair is counted for a single disabled card and
   * the pairing invariant is broken.
   */
  lemma StaleHidePairsCardWithItself(values: seq<seq<int>>, next: seq<seq<int>>)
    requires IsGrid(values, 4, 4) && IsGrid(next, 4, 4) && values[0][0] != values[0][1]
    ensures var t1 := Click(Click(ResetTable(4, 4), values, 4, 4, (0, 0)), values, 4, 4, (0, 1));
      var t2 := ResetTableAsWritten(t1, 4, 4);
      var t3 := Click(Hidden(Click(t2, next, 4, 4, (0, 0)), 4, 4), next, 4, 4, (0, 0));
      t3.pairsFound == 1 && Count(t3.matched) == 1 && !Inv(t3, 4, 4)
  {
    var t0 := ResetTable(4, 4);
    var t1 := Click(Click(t0, values, 4, 4, (0, 0)), values, 4, 4, (0, 1));
    assert t1.pending == [((0, 0), (0, 1))];
    var t2 := ResetTableAsWritten(t1, 4, 4);
    var t3 := Click(t2, next, 4, 4, (0, 0));
    assert t3.firstPick == Some((0, 0)) && t3.pending == t1.pending;
    var t4 := Hidden(t3, 4, 4);
    assert !At(t4.faceUp, (0, 0)) && !At(t4.matched, (0, 0)) && !t4.lockInput;
    var t5 := Click(t4, next, 4, 4, (0, 0));
    assert t5.matched == Set(Set(Blank(4, 4), (0, 0), true), (0, 0), true);
    SetTwice(Blank(4, 4), (0, 0), true);
    CountBlank(4, 4);
    CountSet(Blank(4, 4), (0, 0));
  }

  /** With the pending `hide` cancelled by the reset, the same clicks keep the invariant. */
  lemma ResetCancelsStaleHide(t: Table, next: seq<seq<int>>, level: Level, p: Pos)
    requires var (rows, cols) := Dimensions(level); IsGrid(next, rows, cols) && OnBoard(p, rows, cols)
    ensures var (rows, cols) := Dimensions(level);
      var u := Click(ResetTable(rows, cols), next, rows, cols, p);
      u.pending == [] && Inv(u, rows, cols)
  {
    var (rows, cols) := Dimensions(level);
    ClickKeepsInv(ResetTable(rows, cols), next, level, p);
  }

  // ---------------------------------------------------------------------
  // The game

  class Game {
    var level: Level
    var rows: int
    var cols: int
    var values: seq<seq<int>>
    var faceUp: seq<seq<bool>>
    var matched: seq<seq<bool>>
    var firstPick: Option<Pos>
    var lockInput: bool
    var pairsFound: nat
    var moves: nat
    var startTime: Option<int>
    var timerRunning: bool
    var scoreSaved: bool
    var playerName: string
    /** The `hide` callbacks waiting to fire, oldest first: the two cards each turns face down. */
    var pending: seq<(Pos, Pos)>

    /** `(ROWS * COLS) // 2`, the level's pair count. */
    function PairsNeeded(): nat
      reads this
    {
      Pairs(level)
    }

    /** The fields that clicks and `hide` change, as one value. */
    ghost function Snapshot(): Table
      reads this`faceUp, this`matched, this`firstPick, this`lockInput, this`pairsFound, this`moves, this`pending
    {
      Table(faceUp, matched, firstPick, lockInput, pairsFound, moves, pending)
    }

    /** The grids have the level's size and every remembered cell is on them. */
    ghost predicate Shaped()
      reads this`level, this`rows, this`cols, this`values, this`playerName,
        this`faceUp, this`matched, this`firstPick, this`lockInput, this`pairsFound, this`moves, this`pending
    {
      Laid(level, rows, cols, values, Snapshot()) && playerName != ""
    }

    /** The pairing invariant holds, a saved score means all pairs were found, and the clock has started. */
    ghost predicate Valid()
      reads this
    {
      && Shaped()
      && Inv(Snapshot(), rows, cols)
      && (scoreSaved ==> pairsFound == PairsNeeded())
      && startTime.Some?
    }

    /** `ask_player_name`, then `create_board` and `reset_game` at the Easy level. */
    constructor (name: string, deal: seq<int>, now: int)
      requires multiset(deal) == multiset(Items(8))
      ensures Valid() && level == Easy && Flatten(values) == deal
      ensures playerName == (if name == "" then "Player" else name)
      ensures Snapshot() == ResetTable(4, 4) && !scoreSaved && startTime == Some(now) && timerRunning
    {
      playerName := if name == "" then "Player" else name;
      level := Easy;
      rows, cols := 4, 4;
      values := seq(4, _ => seq(4, _ => 0));
      faceUp, matched := Blank(4, 4), Blank(4, 4);
      firstPick, lockInput, pairsFound, moves := None, false, 0, 0;
      startTime, timerRunning, scoreSaved := None, false, false;
      pending := [];
      new;
      ResetGame(deal, now);
    }

    /**
     * `reset_game` as written: deal the shuffled items row by row, clear
     * the pick, the lock and the counters, restart the clock and turn every
     * card face down and enabled.  Any `hide` still scheduled stays
     * scheduled.
     */
    method ResetGameAsWritten(deal: seq<int>, now: int)
      requires Shaped() && multiset(deal) == multiset(Items(PairsNeeded()))
      modifies this`values, this`faceUp, this`matched, this`firstPick, this`lockInput, this`pairsFound,
        this`moves, this`scoreSaved, this`timerRunning, this`startTime
      ensures Shaped() && Flatten(values) == deal
      ensures Snapshot() == ResetTableAsWritten(old(Snapshot()), rows, cols)
      ensures !scoreSaved && timerRunning && startTime == Some(now)
    {
      DealCards(deal);
      ClearTable();
      StartTimer(now);
    }

    /** The nested loops of `reset_game` over the shuffled items. */
    method DealCards(deal: seq<int>)
      requires Shaped() && multiset(deal) == multiset(Items(PairsNeeded()))
      modifies this`values
      ensures Shaped() && Flatten(values) == deal
    {
      var h, w := rows, cols;
      assert |deal| == h * w by {
        DealSize(level, h, w, deal);
      }
      values := FillGrid(values, deal, h, w);
    }

    /** The flags `reset_game` clears and the buttons it turns face down and enables. */
    method ClearTable()
      requires Shaped()
      modifies this`faceUp, this`matched, this`firstPick, this`lockInput, this`pairsFound, this`moves, this`scoreSaved
      ensures Shaped() && Snapshot() == ResetTableAsWritten(old(Snapshot()), rows, cols) && !scoreSaved
    {
      var blank := Blank(rows, cols);
      ghost var t := ResetTableAsWritten(Snapshot(), rows, cols);
      assert Laid(level, rows, cols, values, t) && t == Table(blank, blank, None, false, 0, 0, pending);
      faceUp, matched, firstPick, lockInput, pairsFound, moves, scoreSaved := blank, blank, None, false, 0, 0, false;
      assert Snapshot() == t;
    }

    /** `start_timer`. */
    method StartTimer(now: int)
      modifies this`startTime, this`timerRunning
      ensures startTime == Some(now) && timerRunning
    {
      startTime, timerRunning := Some(now), true;
    }

    /** `reset_game` with the pending `hide` callbacks cancelled, so that no stale one fires into the new game. */
    method ResetGame(deal: seq<int>, now: int)
      requires Shaped() && multiset(deal) == multiset(Items(PairsNeeded()))
      modifies this`values, this`faceUp, this`matched, this`firstPick, this`lockInput, this`pairsFound,
        this`moves, this`scoreSaved, this`timerRunning, this`startTime, this`pending
      ensures Snapshot() == ResetTable(rows, cols)
      ensures Valid() && Flatten(values) == deal
      ensures !scoreSaved && timerRunning && startTime == Some(now)
    {
      ResetGameAsWritten(deal, now);
      pending := [];
    }

    /** `set_difficulty(level)`: `create_board` at the level's size, then `reset_game`. */
    method SetDifficulty(newLevel: Level, deal: seq<int>, now: int)
      requires Shaped() && multiset(deal) == multiset(Items(Pairs(newLevel)))
      modifies this
      ensures Valid() && level == newLevel && Flatten(values) == deal && playerName == old(playerName)
      ensures Snapshot() == ResetTable(rows, cols) && !scoreSaved && timerRunning && startTime == Some(now)
    {
      CreateBoard(newLevel);
      ResetGame(deal, now);
    }

    /**
     * `create_board`: a fresh grid of face-down, enabled cards of the
     * level's size, values not yet dealt; callbacks bound to the old
     * buttons are gone, and so is a first pick on them.
     */
    method CreateBoard(newLevel: Level)
      requires Shaped()
      modifies this`level, this`rows, this`cols, this`values, this`faceUp, this`matched, this`firstPick, this`pending
      ensures Shaped() && level == newLevel && (rows, cols) == Dimensions(newLevel)
      ensures values == Zeros(rows, cols)
      ensures Snapshot() == Table(Blank(rows, cols), Blank(rows, cols), None, old(lockInput), old(pairsFound), old(moves), [])
    {
      var (h, w) := Dimensions(newLevel);
      var blank, zeros := Blank(h, w), Zeros(h, w);
      assert Laid(newLevel, h, w, zeros, Table(blank, blank, None, lockInput, pairsFound, moves, []));
      level, rows, cols, values, faceUp, matched, firstPick, pending := newLevel, h, w, zeros, blank, blank, None, [];
    }

    /**
     * `on_click(r, c)`: the table changes as `Click` says, and when that
     * click counts the last pair the game ends (the clock stops and the
     * score is saved); otherwise the clock and the leaderboard are left
     * alone.
     */
    method OnClick(r: int, c: int, now: int, stamp: string, store: Leaderboard.ScoreFile)
      requires Shaped() && OnBoard((r, c), rows, cols)
      modifies this`faceUp, this`matched, this`firstPick, this`lockInput, this`pairsFound, this`moves,
        this`pending, this`timerRunning, this`scoreSaved, store
      ensures Shaped() && Snapshot() == Click(old(Snapshot()), values, rows, cols, (r, c))
      ensures pairsFound > old(pairsFound) && pairsFound == PairsNeeded() ==> !timerRunning
      ensures !(pairsFound > old(pairsFound) && pairsFound == PairsNeeded()) ==>
        timerRunning == old(timerRunning) && scoreSaved == old(scoreSaved) && unchanged(store)
      ensures pairsFound > old(pairsFound) && pairsFound == PairsNeeded() && (old(scoreSaved) || startTime.None? || moves == 0) ==>
        scoreSaved == old(scoreSaved) && unchanged(store)
      ensures pairsFound > old(pairsFound) && pairsFound == PairsNeeded() && !old(scoreSaved) && startTime.Some? && moves > 0 ==>
        scoreSaved && store.file == MatchRecord(old(store.file), playerName, level, now - startTime.value, moves, stamp)
      ensures old(Valid()) ==> Valid()
    {
      if Valid() {
        ClickKeepsInv(Snapshot(), values, level, (r, c));
      }
      Pick(r, c, now, stamp, store);
    }

    /** A click that is not ignored is the first or the second card of an attempt. */
    method Pick(r: int, c: int, now: int, stamp: string, store: Leaderboard.ScoreFile)
      requires Shaped() && OnBoard((r, c), rows, cols)
      modifies this`faceUp, this`matched, this`firstPick, this`lockInput, this`pairsFound, this`moves,
        this`pending, this`timerRunning, this`scoreSaved, store
      ensures Shaped() && Snapshot() == Click(old(Snapshot()), values, rows, cols, (r, c))
      ensures pairsFound > old(pairsFound) && pairsFound == PairsNeeded() ==> !timerRunning
      ensures !(pairsFound > old(pairsFound) && pairsFound == PairsNeeded()) ==>
        timerRunning == old(timerRunning) && scoreSaved == old(scoreSaved) && unchanged(store)
      ensures pairsFound > old(pairsFound) && pairsFound == PairsNeeded() && (old(scoreSaved) || startTime.None? || moves == 0) ==>
        scoreSaved == old(scoreSaved) && unchanged(store)
      ensures pairsFound > old(pairsFound) && pairsFound == PairsNeeded() && !old(scoreSaved) && startTime.Some? && moves > 0 ==>
        scoreSaved && store.file == MatchRecord(old(store.file), playerName, level, now - startTime.value, moves, stamp)
    {
      if lockInput || matched[r][c] || faceUp[r][c] {
        return;
      }
      if firstPick.None? {
        PickFirst(r, c);
      } else {
        PickSecond(r, c, now, stamp, store);
      }
    }

    /** The second card of an attempt: a pair (and the end of the game when it is the last one) or a mismatch. */
    method PickSecond(r: int, c: int, now: int, stamp: string, store: Leaderboard.ScoreFile)
      requires Shaped() && OnBoard((r, c), rows, cols) && !Ignored(Snapshot(), rows, cols, (r, c)) && firstPick.Some?
      modifies this`faceUp, this`matched, this`firstPick, this`lockInput, this`pairsFound, this`moves,
        this`pending, this`timerRunning, this`scoreSaved, store
      ensures Shaped() && Snapshot() == Click(old(Snapshot()), values, rows, cols, (r, c))
      ensures pairsFound > old(pairsFound) && pairsFound == PairsNeeded() ==> !timerRunning
      ensures !(pairsFound > old(pairsFound) && pairsFound == PairsNeeded()) ==>
        timerRunning == old(timerRunning) && scoreSaved == old(scoreSaved) && unchanged(store)
      ensures pairsFound > old(pairsFound) && pairsFound == PairsNeeded() && (old(scoreSaved) || startTime.None? || moves == 0) ==>
        scoreSaved == old(scoreSaved) && unchanged(store)
      ensures pairsFound > old(pairsFound) && pairsFound == PairsNeeded() && !old(scoreSaved) && startTime.Some? && moves > 0 ==>
        scoreSaved && store.file == MatchRecord(old(store.file), playerName, level, now - startTime.value, moves, stamp)
    {
      var first := firstPick.value;
      if values[first.0][first.1] == values[r][c] {
        PickPair(first, r, c);
        if pairsFound == PairsNeeded() {
          EndGame(now, stamp, store);
        }
      } else {
        PickMismatch(first, r, c);
      }
    }

    /** The first card of an attempt: turn it up and remember it. */
    method PickFirst(r: int, c: int)
      requires Shaped() && OnBoard((r, c), rows, cols) && !Ignored(Snapshot(), rows, cols, (r, c)) && firstPick.None?
      modifies this`faceUp, this`firstPick
      ensures Shaped() && Snapshot() == Click(old(Snapshot()), values, rows, cols, (r, c))
    {
      faceUp, firstPick := Set(faceUp, (r, c), true), Some((r, c));
    }

    /** The second card shows the first pick's symbol: count the attempt and the pair and disable both. */
    method PickPair(first: Pos, r: int, c: int)
      requires Shaped() && OnBoard((r, c), rows, cols) && !Ignored(Snapshot(), rows, cols, (r, c))
      requires firstPick == Some(first) && values[first.0][first.1] == values[r][c]
      modifies this`faceUp, this`matched, this`firstPick, this`pairsFound, this`moves
      ensures Shaped() && Snapshot() == Click(old(Snapshot()), values, rows, cols, (r, c))
      ensures pairsFound == old(pairsFound) + 1 && moves == old(moves) + 1
    {
      faceUp, moves := Set(faceUp, (r, c), true), moves + 1;
      matched, pairsFound, firstPick := Set(Set(matched, first, true), (r, c), true), pairsFound + 1, None;
    }

    /** The second card shows another symbol: count the attempt, lock the input and schedule `hide`. */
    method PickMismatch(first: Pos, r: int, c: int)
      requires Shaped() && OnBoard((r, c), rows, cols) && !Ignored(Snapshot(), rows, cols, (r, c))
      requires firstPick == Some(first) && values[first.0][first.1] != values[r][c]
      modifies this`faceUp, this`firstPick, this`lockInput, this`moves, this`pending
      ensures Shaped() && Snapshot() == Click(old(Snapshot()), values, rows, cols, (r, c))
      ensures moves == old(moves) + 1
    {
      faceUp, moves := Set(faceUp, (r, c), true), moves + 1;
      lockInput, pending, firstPick := true, pending + [(first, (r, c))], None;
    }

    /** The `hide` callback, 700 ms after a mismatch. */
    method Hide()
      requires Shaped() && pending != []
      modifies this`faceUp, this`lockInput, this`pending
      ensures Shaped() && Snapshot() == Hidden(old(Snapshot()), rows, cols)
      ensures old(Valid()) ==> Valid()
    {
      if Valid() {
        HiddenKeepsInv(Snapshot(), rows, cols);
      }
      var (a, b) := pending[0];
      faceUp, lockInput, pending := Set(Set(faceUp, a, false), b, false), false, pending[1..];
    }

    /**
     * `save_score_if_needed`: once per game, and only after at least one
     * attempt, the score `max(1, 10000 - (50 * seconds + 20 * attempts))`
     * goes to the leaderboard with the level, the seconds and the attempts.
     */
    method SaveScoreIfNeeded(now: int, stamp: string, store: Leaderboard.ScoreFile)
      modifies this`scoreSaved, store
      ensures old(scoreSaved) || startTime.None? || moves == 0 ==> scoreSaved == old(scoreSaved) && unchanged(store)
      ensures !old(scoreSaved) && startTime.Some? && moves > 0 ==>
        scoreSaved && store.file == MatchRecord(old(store.file), playerName, level, now - startTime.value, moves, stamp)
    {
      if scoreSaved {
        return;
      }
      if startTime.None? || moves == 0 {
        return;
      }
      var elapsed := now - startTime.value;
      var raw := 10000 - (elapsed * 50 + moves * 20);
      var score := if raw >= 1 then raw else 1;
      store.AddScore("memory_match", playerName, score,
        Some(map["difficulty" := Leaderboard.Text(LevelName(level)), "time_s" := Leaderboard.Int(elapsed),
                 "attempts" := Leaderboard.Int(moves)]), stamp);
      scoreSaved := true;
    }

    /** `end_game`: stop the clock and save the score. */
    method EndGame(now: int, stamp: string, store: Leaderboard.ScoreFile)
      modifies this`timerRunning, this`scoreSaved, store
      ensures !timerRunning
      ensures old(scoreSaved) || startTime.None? || moves == 0 ==> scoreSaved == old(scoreSaved) && unchanged(store)
      ensures !old(scoreSaved) && startTime.Some? && moves > 0 ==>
        scoreSaved && store.file == MatchRecord(old(store.file), playerName, level, now - startTime.value, moves, stamp)
    {
      timerRunning := false;
      SaveScoreIfNeeded(now, stamp, store);
    }
  }
}
