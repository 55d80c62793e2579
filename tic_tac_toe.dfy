/**
 * The Tic-Tac-Toe decision engine (Games/tic_tac_toe.py): board evaluation,
 * legal moves, the exhaustive minimax that tries marks on the shared board
 * and undoes them, the two deterministic bots, and the click/turn state
 * machine with its score counters.
 */
module TicTacToe {
  import opened Wrappers

  /** A cell: `""`, `"X"` or `"O"`. */
  datatype Mark = Empty | X | O

  /** `evaluate_board`'s answer: a winning symbol, `"Draw"`, or `None`. */
  datatype Verdict = Win(winner: Mark) | Draw | Undecided

  datatype Mode = Unchosen | Bot | Pvp
  datatype Level = Easy | Hard | Impossible

  type Board = seq<seq<Mark>>
  type Pos = (int, int)

  ghost predicate WellFormed(b: Board)
  {
    |b| == 3 && forall r :: 0 <= r < 3 ==> |b[r]| == 3
  }

  predicate InBoard(p: Pos) { 0 <= p.0 < 3 && 0 <= p.1 < 3 }

  function At(b: Board, p: Pos): Mark
    requires WellFormed(b) && InBoard(p)
  {
    b[p.0][p.1]
  }

  /** `b[r][c] = mark` on a copy of the board. */
  function Place(b: Board, p: Pos, m: Mark): (b': Board)
    requires WellFormed(b) && InBoard(p)
    ensures WellFormed(b')
    ensures At(b', p) == m
    ensures forall q {:trigger At(b', q)} :: InBoard(q) && q != p ==> At(b', q) == At(b, q)
  {
    b[p.0 := b[p.0][p.1 := m]]
  }

  function EmptyBoard(): (b: Board)
    ensures WellFormed(b)
    ensures forall p :: InBoard(p) ==> At(b, p) == Empty
  {
    [[Empty, Empty, Empty], [Empty, Empty, Empty], [Empty, Empty, Empty]]
  }

  /** Three cells that make a line. */
  type Line = (Pos, Pos, Pos)

  /** The eight lines in the order `evaluate_board` checks them: rows, columns, diagonals. */
  const Lines: seq<Line> := [
    ((0, 0), (0, 1), (0, 2)), ((1, 0), (1, 1), (1, 2)), ((2, 0), (2, 1), (2, 2)),
    ((0, 0), (1, 0), (2, 0)), ((0, 1), (1, 1), (2, 1)), ((0, 2), (1, 2), (2, 2)),
    ((0, 0), (1, 1), (2, 2)), ((0, 2), (1, 1), (2, 0))
  ]

  ghost predicate LineInBoard(l: Line)
  {
    InBoard(l.0) && InBoard(l.1) && InBoard(l.2)
  }

  ghost predicate AllInBoard(ls: seq<Line>)
  {
    forall i :: 0 <= i < |ls| ==> LineInBoard(ls[i])
  }

  /** The three cells of `l` hold the non-empty mark `m`. */
  ghost predicate Filled(b: Board, l: Line, m: Mark)
    requires WellFormed(b) && LineInBoard(l)
  {
    m != Empty && At(b, l.0) == m && At(b, l.1) == m && At(b, l.2) == m
  }

  /** Some line is filled with `m`. */
  ghost predicate HasLine(b: Board, m: Mark)
    requires WellFormed(b)
  {
    exists i :: 0 <= i < |Lines| && Filled(b, Lines[i], m)
  }

  /** Some line is filled with one mark. */
  ghost predicate AnyLine(b: Board)
    requires WellFormed(b)
  {
    exists i :: 0 <= i < |Lines| && Filled(b, Lines[i], At(b, Lines[i].0))
  }

  ghost predicate Full(b: Board)
    requires WellFormed(b)
  {
    forall p :: InBoard(p) ==> At(b, p) != Empty
  }

  function AllFilled(b: Board): bool
    requires WellFormed(b)
  {
    forall r, c | 0 <= r < 3 && 0 <= c < 3 :: b[r][c] != Empty
  }

  /** The loop of `evaluate_board` over the remaining lines `ls`, then the draw test. */
  function CheckLines(b: Board, ls: seq<Line>): Verdict
    requires WellFormed(b) && AllInBoard(ls)
  {
    if ls == [] then (if AllFilled(b) then Draw else Undecided)
    else
      var (p, q, s) := ls[0];
      if At(b, p) != Empty && At(b, p) == At(b, q) == At(b, s) then Win(At(b, p))
      else CheckLines(b, ls[1..])
  }

  /** `evaluate_board`: the first complete line in check order, else draw on a full board. */
  function Evaluate(b: Board): Verdict
    requires WellFormed(b)
  {
    CheckLines(b, Lines)
  }

  lemma {:induction false} CheckLinesSpec(b: Board, ls: seq<Line>)
    requires WellFormed(b) && AllInBoard(ls)
    ensures CheckLines(b, ls).Win? ==> exists j :: 0 <= j < |ls| && Filled(b, ls[j], CheckLines(b, ls).winner)
    ensures (exists j :: 0 <= j < |ls| && Filled(b, ls[j], At(b, ls[j].0))) ==> CheckLines(b, ls).Win?
    ensures !CheckLines(b, ls).Win? ==> (CheckLines(b, ls) == Draw <==> Full(b))
  {
    if ls != [] {
      var rest := ls[1..];
      CheckLinesSpec(b, rest);
      var (p, q, s) := ls[0];
      if At(b, p) != Empty && At(b, p) == At(b, q) == At(b, s) {
        assert Filled(b, ls[0], At(b, p));
      } else {
        if CheckLines(b, rest).Win? {
          var j :| 0 <= j < |rest| && Filled(b, rest[j], CheckLines(b, rest).winner);
          assert ls[j + 1] == rest[j];
        }
        if exists j :: 0 <= j < |ls| && Filled(b, ls[j], At(b, ls[j].0)) {
          var j :| 0 <= j < |ls| && Filled(b, ls[j], At(b, ls[j].0));
          assert j != 0;
          assert rest[j - 1] == ls[j];
        }
      }
    } else {
      if AllFilled(b) {
        forall p | InBoard(p) ensures At(b, p) != Empty { assert b[p.0][p.1] != Empty; }
      }
      if Full(b) {
        forall r, c | 0 <= r < 3 && 0 <= c < 3 ensures b[r][c] != Empty { assert At(b, (r, c)) != Empty; }
      }
    }
  }

  /**
   * `evaluate_board` names a symbol only when that symbol fills a line,
   * names one whenever some line is filled, says "Draw" exactly for a full
   * board without a line, and `None` exactly for a board with an empty cell
   * and no line.
   */
  lemma EvaluateSpec(b: Board)
    requires WellFormed(b)
    ensures Evaluate(b).Win? ==> Evaluate(b).winner != Empty && HasLine(b, Evaluate(b).winner)
    ensures AnyLine(b) ==> Evaluate(b).Win?
    ensures Evaluate(b) == Draw <==> Full(b) && !AnyLine(b)
    ensures Evaluate(b) == Undecided <==> !Full(b) && !AnyLine(b)
  {
    CheckLinesSpec(b, Lines);
    if Evaluate(b).Win? {
      var j :| 0 <= j < |Lines| && Filled(b, Lines[j], Evaluate(b).winner);
      assert Filled(b, Lines[j], At(b, Lines[j].0));
    }
  }

  // ---------------------------------------------------------------------
  // Cells and counts

  /** The cell with row-major index k (rows of three). */
  function CellOf(k: int): Pos { (k / 3, k % 3) }

  /** The row-major index of a cell: the order of `get_available_moves`' loops. */
  function IndexOf(p: Pos): int { p.0 * 3 + p.1 }

  lemma CellIndex(p: Pos)
    requires InBoard(p)
    ensures 0 <= IndexOf(p) < 9 && CellOf(IndexOf(p)) == p
  {
  }

  /** Row-major indices strictly increase along `cs`, so no cell repeats. */
  ghost predicate Ascending(cs: seq<Pos>)
  {
    |cs| <= 1 || (IndexOf(cs[|cs| - 2]) < IndexOf(cs[|cs| - 1]) && Ascending(cs[..|cs| - 1]))
  }

  lemma {:induction false} AscendingAt(cs: seq<Pos>, i: nat, j: nat)
    requires Ascending(cs) && i < j < |cs|
    ensures IndexOf(cs[i]) < IndexOf(cs[j])
    decreases |cs|
  {
    var init := cs[..|cs| - 1];
    if j < |cs| - 1 {
      AscendingAt(init, i, j);
    } else if i < j - 1 {
      AscendingAt(init, i, j - 1);
    }
  }

  /** How many of the first n cells (row-major) hold `m`. */
  function CountBelow(b: Board, m: Mark, n: nat): (c: nat)
    requires WellFormed(b) && n <= 9
    ensures c <= n
  {
    if n == 0 then 0
    else CountBelow(b, m, n - 1) + (if At(b, CellOf(n - 1)) == m then 1 else 0)
  }

  /** How many of the |b|·|b| cells hold `m`. */
  function Count(b: Board, m: Mark): (n: nat)
    requires WellFormed(b)
    ensures n <= 9
  {
    CountBelow(b, m, |b| * |b|)
  }

  lemma {:induction false} CountBelowThree(b: Board, m: Mark, n: nat, p: Pos, q: Pos, s: Pos)
    requires WellFormed(b) && n <= 9
    requires InBoard(p) && InBoard(q) && InBoard(s) && At(b, p) == m && At(b, q) == m && At(b, s) == m
    requires IndexOf(p) < IndexOf(q) < IndexOf(s) < n
    ensures CountBelow(b, m, n) >= 3
  {
    if IndexOf(s) == n - 1 {
      CellIndex(s);
      CountBelowTwo(b, m, n - 1, p, q);
    } else {
      CountBelowThree(b, m, n - 1, p, q, s);
    }
  }

  lemma {:induction false} CountBelowTwo(b: Board, m: Mark, n: nat, p: Pos, q: Pos)
    requires WellFormed(b) && n <= 9
    requires InBoard(p) && InBoard(q) && At(b, p) == m && At(b, q) == m
    requires IndexOf(p) < IndexOf(q) < n
    ensures CountBelow(b, m, n) >= 2
  {
    if IndexOf(q) == n - 1 {
      CellIndex(q);
      CountBelowOne(b, m, n - 1, p);
    } else {
      CountBelowTwo(b, m, n - 1, p, q);
    }
  }

  lemma {:induction false} CountBelowOne(b: Board, m: Mark, n: nat, p: Pos)
    requires WellFormed(b) && n <= 9
    requires InBoard(p) && At(b, p) == m && IndexOf(p) < n
    ensures CountBelow(b, m, n) >= 1
  {
    if IndexOf(p) == n - 1 {
      CellIndex(p);
    } else {
      CountBelowOne(b, m, n - 1, p);
    }
  }

  /** A line of `m` needs three cells of `m`. */
  lemma LineNeedsThree(b: Board, i: int, m: Mark)
    requires WellFormed(b) && 0 <= i < |Lines| && LineInBoard(Lines[i]) && Filled(b, Lines[i], m)
    ensures Count(b, m) >= 3
  {
    var (p, q, s) := Lines[i];
    CountBelowThree(b, m, 9, p, q, s);
  }

  /**
   * No winner is reported before five marks are on the board when the two
   * players' mark counts differ by at most one, as they do under turn-taking.
   */
  lemma NoEarlyWinner(b: Board)
    requires WellFormed(b)
    requires -1 <= Count(b, X) - Count(b, O) <= 1
    requires Count(b, X) + Count(b, O) < 5
    ensures !Evaluate(b).Win?
  {
    if Evaluate(b).Win? {
      CheckLinesSpec(b, Lines);
      var w := Evaluate(b).winner;
      var i :| 0 <= i < |Lines| && Filled(b, Lines[i], w);
      LineNeedsThree(b, i, w);
    }
  }

  // ---------------------------------------------------------------------
  // Legal moves

  /** The empty cells among the first n cells, in row-major order. */
  function MovesBelow(b: Board, n: nat): (ms: seq<Pos>)
    requires WellFormed(b) && n <= 9
    ensures forall i :: 0 <= i < |ms| ==> InBoard(ms[i]) && At(b, ms[i]) == Empty && IndexOf(ms[i]) < n
    ensures forall p {:trigger p in ms} :: InBoard(p) && IndexOf(p) < n && At(b, p) == Empty ==> p in ms
  {
    if n == 0 then []
    else
      var c := CellOf(n - 1);
      MovesBelow(b, n - 1) + (if At(b, c) == Empty then [c] else [])
  }

  /**
   * `get_available_moves`: exactly the empty cells (in row-major order, as
   * `AvailableMovesOrdered` states).
   */
  function AvailableMoves(b: Board): (ms: seq<Pos>)
    requires WellFormed(b)
    ensures forall i :: 0 <= i < |ms| ==> InBoard(ms[i]) && At(b, ms[i]) == Empty
    ensures forall p {:trigger p in ms} :: InBoard(p) && At(b, p) == Empty ==> p in ms
  {
    MovesBelow(b, |b| * |b|)
  }

  lemma {:induction false} MovesBelowAscending(b: Board, n: nat)
    requires WellFormed(b) && n <= 9
    ensures Ascending(MovesBelow(b, n))
  {
    if n > 0 {
      MovesBelowAscending(b, n - 1);
      var ms, prev := MovesBelow(b, n), MovesBelow(b, n - 1);
      if ms != prev {
        assert ms[..|ms| - 1] == prev;
      }
    }
  }

  /** `get_available_moves` lists the empty cells in row-major order, hence without repeats. */
  lemma AvailableMovesOrdered(b: Board)
    requires WellFormed(b)
    ensures Ascending(AvailableMoves(b))
  {
    MovesBelowAscending(b, 9);
  }

  /** There is no legal move exactly when the board is full. */
  lemma MovesEmptyIffFull(b: Board)
    requires WellFormed(b)
    ensures AvailableMoves(b) == [] <==> Full(b)
  {
    var ms := AvailableMoves(b);
    if !Full(b) {
      var p :| InBoard(p) && At(b, p) == Empty;
      assert p in ms;
    }
    if ms != [] {
      assert InBoard(ms[0]) && At(b, ms[0]) == Empty;
    }
  }

  /** The number of empty cells, which bounds the search depth. */
  function Empties(b: Board): nat
    requires WellFormed(b)
  {
    Count(b, Empty)
  }

  lemma {:induction false} PlaceCountBelow(b: Board, p: Pos, m: Mark, n: nat)
    requires WellFormed(b) && InBoard(p) && At(b, p) == Empty && m != Empty && n <= 9
    ensures CountBelow(Place(b, p, m), Empty, n) == CountBelow(b, Empty, n) - (if IndexOf(p) < n then 1 else 0)
  {
    if n > 0 {
      PlaceCountBelow(b, p, m, n - 1);
      CellIndex(p);
    }
  }

  /** Marking an empty cell leaves one empty cell fewer. */
  lemma PlaceDecreasesEmpties(b: Board, p: Pos, m: Mark)
    requires WellFormed(b) && InBoard(p) && At(b, p) == Empty && m != Empty
    ensures Empties(Place(b, p, m)) == Empties(b) - 1
  {
    CellIndex(p);
    PlaceCountBelow(b, p, m, 9);
  }

  // ---------------------------------------------------------------------
  // Minimax

  /** The value of a finished game for the bot (O): +1 win, -1 loss, 0 draw. */
  function Terminal(v: Verdict): (s: int)
    requires v != Undecided
    ensures s == (if v == Win(O) then 1 else if v == Win(X) then -1 else 0)
  {
    match v
    case Win(m) => if m == O then 1 else if m == X then -1 else 0
    case Draw => 0
  }

  /** The starting `best_score` of a search level: -999 when maximizing, 999 when minimizing. */
  function Initial(maximizing: bool): int { if maximizing then -999 else 999 }

  /** One step of the search loop: keep `s` if strictly better than `best`. */
  function Better(maximizing: bool, s: int, best: int): int
  {
    if maximizing then (if s > best then s else best) else (if s < best then s else best)
  }

  /** The loop of one search level over the child values `vals`, in order. */
  function BestOf(vals: seq<int>, maximizing: bool): int
  {
    if vals == [] then Initial(maximizing)
    else Better(maximizing, vals[|vals| - 1], BestOf(vals[..|vals| - 1], maximizing))
  }

  /** One more round of the search loop. */
  lemma BestOfStep(vals: seq<int>, i: nat, maximizing: bool)
    requires i < |vals|
    ensures BestOf(vals[..i + 1], maximizing) == Better(maximizing, vals[i], BestOf(vals[..i], maximizing))
  {
    assert vals[..i + 1][..i] == vals[..i];
  }

  /**
   * Over values in [-1, 1], the search loop returns the largest value when
   * maximizing and the smallest when minimizing, and that value occurs.
   */
  lemma {:induction false} BestOfSpec(vals: seq<int>, maximizing: bool)
    requires vals != []
    requires forall i :: 0 <= i < |vals| ==> -1 <= vals[i] <= 1
    ensures -1 <= BestOf(vals, maximizing) <= 1
    ensures maximizing ==> forall i :: 0 <= i < |vals| ==> vals[i] <= BestOf(vals, maximizing)
    ensures !maximizing ==> forall i :: 0 <= i < |vals| ==> vals[i] >= BestOf(vals, maximizing)
    ensures exists i :: 0 <= i < |vals| && vals[i] == BestOf(vals, maximizing)
  {
    var p := vals[..|vals| - 1];
    var last := |vals| - 1;
    if p == [] {
      assert BestOf(vals, maximizing) == vals[0];
    } else {
      BestOfSpec(p, maximizing);
      var i :| 0 <= i < |p| && p[i] == BestOf(p, maximizing);
      assert vals[i] == p[i];
      assert forall j :: 0 <= j < |p| ==> vals[j] == p[j];
    }
  }

  /**
   * `minimax(b, is_maximizing)` as a value: O (maximizing) and X
   * (minimizing) alternate until `evaluate_board` reports an end.
   */
  function Value(b: Board, maximizing: bool): int
    requires WellFormed(b)
    decreases Empties(b), 2
  {
    var v := Evaluate(b);
    if v != Undecided then Terminal(v)
    else BestOf(ChildValues(b, AvailableMoves(b), maximizing), maximizing)
  }

  /** The mark the side to move plays: O when maximizing, X when minimizing. */
  function MarkOf(maximizing: bool): Mark { if maximizing then O else X }

  /** The values of the boards reached by each move of `ms`, in order. */
  function ChildValues(b: Board, ms: seq<Pos>, maximizing: bool): (vals: seq<int>)
    requires WellFormed(b)
    requires forall i :: 0 <= i < |ms| ==> InBoard(ms[i]) && At(b, ms[i]) == Empty
    ensures |vals| == |ms|
    decreases Empties(b), 1, |ms|
  {
    if ms == [] then []
    else [Child(b, ms[0], maximizing)] + ChildValues(b, ms[1..], maximizing)
  }

  /** The value after the side to move plays `p`. */
  function Child(b: Board, p: Pos, maximizing: bool): int
    requires WellFormed(b) && InBoard(p) && At(b, p) == Empty
    decreases Empties(b), 0
  {
    PlaceDecreasesEmpties(b, p, MarkOf(maximizing));
    Value(Place(b, p, MarkOf(maximizing)), !maximizing)
  }

  /** Every position is worth -1, 0 or +1 to O. */
  lemma {:induction false} ValueRange(b: Board, maximizing: bool)
    requires WellFormed(b)
    ensures -1 <= Value(b, maximizing) <= 1
    decreases Empties(b), 2
  {
    if Evaluate(b) == Undecided {
      EvaluateSpec(b);
      MovesEmptyIffFull(b);
      var ms := AvailableMoves(b);
      ChildValuesRange(b, ms, maximizing);
      BestOfSpec(ChildValues(b, ms, maximizing), maximizing);
    }
  }

  lemma {:induction false} ChildValuesRange(b: Board, ms: seq<Pos>, maximizing: bool)
    requires WellFormed(b)
    requires forall i :: 0 <= i < |ms| ==> InBoard(ms[i]) && At(b, ms[i]) == Empty
    ensures forall i :: 0 <= i < |ms| ==> -1 <= ChildValues(b, ms, maximizing)[i] <= 1
    decreases Empties(b), 1, |ms|
  {
    if ms != [] {
      ChildRange(b, ms[0], maximizing);
      ChildValuesRange(b, ms[1..], maximizing);
      var vals := ChildValues(b, ms, maximizing);
      assert forall i :: 1 <= i < |ms| ==> vals[i] == ChildValues(b, ms[1..], maximizing)[i - 1];
    }
  }

  lemma {:induction false} ChildRange(b: Board, p: Pos, maximizing: bool)
    requires WellFormed(b) && InBoard(p) && At(b, p) == Empty
    ensures -1 <= Child(b, p, maximizing) <= 1
    decreases Empties(b), 0
  {
    PlaceDecreasesEmpties(b, p, MarkOf(maximizing));
    ValueRange(Place(b, p, MarkOf(maximizing)), !maximizing);
  }

  /** Entry `i` of the child values is the value after the `i`-th move. */
  lemma {:induction false} ChildValueAt(b: Board, ms: seq<Pos>, maximizing: bool, i: nat)
    requires WellFormed(b)
    requires forall j :: 0 <= j < |ms| ==> InBoard(ms[j]) && At(b, ms[j]) == Empty
    requires i < |ms|
    ensures ChildValues(b, ms, maximizing)[i] == Child(b, ms[i], maximizing)
    decreases i
  {
    if i > 0 {
      ChildValueAt(b, ms[1..], maximizing, i - 1);
    }
  }

  /**
   * Minimax plays optimally: at an undecided board the maximizing value is
   * the largest child value and the minimizing value the smallest, and some
   * legal move attains it.
   */
  lemma ValueIsBestChild(b: Board, maximizing: bool, p: Pos)
    requires WellFormed(b) && Evaluate(b) == Undecided
    requires InBoard(p) && At(b, p) == Empty
    ensures maximizing ==> Child(b, p, true) <= Value(b, true)
    ensures !maximizing ==> Child(b, p, false) >= Value(b, false)
    ensures exists q :: InBoard(q) && At(b, q) == Empty && Child(b, q, maximizing) == Value(b, maximizing)
  {
    var ms := AvailableMoves(b);
    var vals := ChildValues(b, ms, maximizing);
    ValueUnfold(b, maximizing);
    ChildValuesRange(b, ms, maximizing);
    BestOfSpec(vals, maximizing);
    assert p in ms;
    var i :| 0 <= i < |ms| && ms[i] == p;
    ChildValueAt(b, ms, maximizing, i);
    var j :| 0 <= j < |vals| && vals[j] == BestOf(vals, maximizing);
    ChildValueAt(b, ms, maximizing, j);
    assert InBoard(ms[j]) && At(b, ms[j]) == Empty;
  }

  /** At an undecided board some move is legal, and the value is the search loop over the child values. */
  lemma ValueUnfold(b: Board, maximizing: bool)
    requires WellFormed(b) && Evaluate(b) == Undecided
    ensures AvailableMoves(b) != []
    ensures Value(b, maximizing) == BestOf(ChildValues(b, AvailableMoves(b), maximizing), maximizing)
  {
    EvaluateSpec(b);
    MovesEmptyIffFull(b);
  }

  /** A finished board is scored +1 for an O win, -1 for an X win and 0 for a draw. */
  lemma TerminalValue(b: Board, maximizing: bool)
    requires WellFormed(b) && Evaluate(b) != Undecided
    ensures Evaluate(b) == Win(O) ==> Value(b, maximizing) == 1
    ensures Evaluate(b) == Win(X) ==> Value(b, maximizing) == -1
    ensures Evaluate(b) == Draw ==> Value(b, maximizing) == 0
  {
  }

  // ---------------------------------------------------------------------
  // The bots' choices as functions of the board

  /**
   * `best_move_impossible`'s loop over the values `vals` of the moves:
   * the index of the move kept, starting from best score `best` and kept
   * index `idx` (-1 for `None`) at position `i`.
   */
  function FirstMaxFrom(vals: seq<int>, i: nat, best: int, idx: int): int
    requires i <= |vals|
    decreases |vals| - i
  {
    if i == |vals| then idx
    else if vals[i] > best then FirstMaxFrom(vals, i + 1, vals[i], i)
    else FirstMaxFrom(vals, i + 1, best, idx)
  }

  lemma {:induction false} FirstMaxFromSpec(vals: seq<int>, i: nat, best: int, idx: int)
    requires i <= |vals|
    requires forall j :: 0 <= j < |vals| ==> vals[j] > -999
    requires idx == -1 ==> i == 0 && best == -999
    requires idx != -1 ==> (
      0 <= idx < i && best == vals[idx]
      && (forall j :: 0 <= j < i ==> vals[j] <= best)
      && (forall j :: 0 <= j < idx ==> vals[j] < best))
    ensures vals == [] ==> FirstMaxFrom(vals, i, best, idx) == -1
    ensures vals != [] ==> 0 <= FirstMaxFrom(vals, i, best, idx) < |vals|
    ensures vals != [] ==>
      var k := FirstMaxFrom(vals, i, best, idx);
      (forall j :: 0 <= j < |vals| ==> vals[j] <= vals[k]) && (forall j :: 0 <= j < k ==> vals[j] < vals[k])
    decreases |vals| - i
  {
    if i < |vals| {
      if vals[i] > best {
        FirstMaxFromSpec(vals, i + 1, vals[i], i);
      } else {
        FirstMaxFromSpec(vals, i + 1, best, idx);
      }
    }
  }

  /** `best_move_impossible` as a function of the board. */
  function ImpossibleChoice(b: Board): (r: Option<Pos>)
    requires WellFormed(b)
  {
    var ms := AvailableMoves(b);
    var vals := ChildValues(b, ms, true);
    var k := FirstMaxFrom(vals, 0, -999, -1);
    if 0 <= k < |ms| then Some(ms[k]) else None
  }

  /** The index `best_move_impossible` keeps is that of the first largest child value. */
  lemma ImpossibleChoiceIndex(b: Board)
    requires WellFormed(b)
    ensures var ms := AvailableMoves(b);
      var vals := ChildValues(b, ms, true);
      var k := FirstMaxFrom(vals, 0, -999, -1);
      (ms == [] ==> ImpossibleChoice(b) == None)
      && (ms != [] ==> (
        0 <= k < |ms| && ImpossibleChoice(b) == Some(ms[k])
        && (forall j :: 0 <= j < |vals| ==> vals[j] <= vals[k])
        && (forall j :: 0 <= j < k ==> vals[j] < vals[k])))
  {
    var ms := AvailableMoves(b);
    var vals := ChildValues(b, ms, true);
    ChildValuesRange(b, ms, true);
    FirstMaxFromSpec(vals, 0, -999, -1);
  }

  /** `best_move_impossible` plays an empty cell, and passes only on a full board. */
  lemma ImpossibleChoiceLegal(b: Board)
    requires WellFormed(b)
    ensures ImpossibleChoice(b) == None <==> Full(b)
    ensures ImpossibleChoice(b).Some? ==> InBoard(ImpossibleChoice(b).value) && At(b, ImpossibleChoice(b).value) == Empty
  {
    ImpossibleChoiceIndex(b);
    MovesEmptyIffFull(b);
  }

  /**
   * `best_move_impossible` picks a move of largest minimax value, and the
   * first such move in row-major order: every empty cell `p` is worth at most
   * as much as the chosen move, and strictly less when it comes earlier.
   */
  lemma ImpossibleChoiceBest(b: Board, p: Pos)
    requires WellFormed(b) && InBoard(p) && At(b, p) == Empty
    ensures ImpossibleChoice(b).Some?
    ensures var m := ImpossibleChoice(b).value;
      InBoard(m) && At(b, m) == Empty && Child(b, p, true) <= Child(b, m, true)
      && (IndexOf(p) < IndexOf(m) ==> Child(b, p, true) < Child(b, m, true))
  {
    var ms := AvailableMoves(b);
    var vals := ChildValues(b, ms, true);
    ImpossibleChoiceIndex(b);
    assert p in ms;
    var i :| 0 <= i < |ms| && ms[i] == p;
    var k := FirstMaxFrom(vals, 0, -999, -1);
    ChildValueAt(b, ms, true, k);
    ChildValueAt(b, ms, true, i);
    if i > k {
      AvailableMovesOrdered(b);
      AscendingAt(ms, k, i);
    }
  }

  /** Playing `p` with `m` completes a line for `m`. */
  ghost predicate Wins(b: Board, p: Pos, m: Mark)
    requires WellFormed(b) && InBoard(p)
  {
    Evaluate(Place(b, p, m)) == Win(m)
  }

  /** The first move in `ms` that completes a line for `m`, if any. */
  function FirstWinning(b: Board, ms: seq<Pos>, m: Mark): (r: Option<Pos>)
    requires WellFormed(b)
    requires forall i :: 0 <= i < |ms| ==> InBoard(ms[i])
    ensures r.None? ==> forall i :: 0 <= i < |ms| ==> !Wins(b, ms[i], m)
    ensures r.Some? ==> r.value in ms && Wins(b, r.value, m)
    decreases |ms|
  {
    if ms == [] then None
    else if Evaluate(Place(b, ms[0], m)) == Win(m) then Some(ms[0])
    else
      var r := FirstWinning(b, ms[1..], m);
      assert forall i :: 1 <= i < |ms| ==> ms[i] == ms[1..][i - 1];
      r
  }

  /** The move found is the earliest winning one in `ms`. */
  lemma {:induction false} FirstWinningFirst(b: Board, ms: seq<Pos>, m: Mark, k: nat)
    requires WellFormed(b)
    requires forall i :: 0 <= i < |ms| ==> InBoard(ms[i])
    requires k < |ms| && Wins(b, ms[k], m)
    requires forall i :: 0 <= i < k ==> !Wins(b, ms[i], m)
    ensures FirstWinning(b, ms, m) == Some(ms[k])
    decreases |ms|
  {
    if k > 0 {
      FirstWinningFirst(b, ms[1..], m, k - 1);
    }
  }

  /**
   * `best_move_hard`: the first move that wins for O, else the first that
   * blocks an immediate X win, else the centre, else the random pick among
   * the legal moves, `None` on a full board.
   */
  function HardChoice(b: Board, pick: nat): (r: Option<Pos>)
    requires WellFormed(b)
    requires AvailableMoves(b) != [] ==> pick < |AvailableMoves(b)|
  {
    var ms := AvailableMoves(b);
    var win := FirstWinning(b, ms, O);
    var block := FirstWinning(b, ms, X);
    if win.Some? then win
    else if block.Some? then block
    else if b[1][1] == Empty then Some((1, 1))
    else if ms != [] then Some(ms[pick])
    else None
  }

  /** The hard bot always names a legal move, and none only on a full board. */
  lemma HardChoiceLegal(b: Board, pick: nat)
    requires WellFormed(b)
    requires AvailableMoves(b) != [] ==> pick < |AvailableMoves(b)|
    ensures HardChoice(b, pick).Some? ==> InBoard(HardChoice(b, pick).value) && At(b, HardChoice(b, pick).value) == Empty
    ensures HardChoice(b, pick).None? <==> Full(b)
  {
    MovesEmptyIffFull(b);
    var ms := AvailableMoves(b);
    var win, block := FirstWinning(b, ms, O), FirstWinning(b, ms, X);
    if win.Some? {
      assert HardChoice(b, pick) == win;
    } else if block.Some? {
      assert HardChoice(b, pick) == block;
    } else if At(b, (1, 1)) == Empty {
      assert HardChoice(b, pick) == Some((1, 1));
    } else {
      assert HardChoice(b, pick) == if ms != [] then Some(ms[pick]) else None;
    }
  }

  /** The hard bot takes a winning move whenever one exists. */
  lemma HardChoiceWins(b: Board, pick: nat, p: Pos)
    requires WellFormed(b)
    requires AvailableMoves(b) != [] ==> pick < |AvailableMoves(b)|
    requires InBoard(p) && At(b, p) == Empty && Wins(b, p, O)
    ensures var r := HardChoice(b, pick); r.Some? && r.value in AvailableMoves(b) && Wins(b, r.value, O)
  {
    var ms := AvailableMoves(b);
    assert p in ms;
    var win := FirstWinning(b, ms, O);
    assert win.Some?;
    assert HardChoice(b, pick) == win;
  }

  /** With no winning move, the hard bot blocks X's immediate win whenever X has one. */
  lemma HardChoiceBlocks(b: Board, pick: nat, p: Pos)
    requires WellFormed(b)
    requires AvailableMoves(b) != [] ==> pick < |AvailableMoves(b)|
    requires forall q :: InBoard(q) && At(b, q) == Empty ==> !Wins(b, q, O)
    requires InBoard(p) && At(b, p) == Empty && Wins(b, p, X)
    ensures var r := HardChoice(b, pick); r.Some? && r.value in AvailableMoves(b) && Wins(b, r.value, X)
  {
    var ms := AvailableMoves(b);
    assert p in ms;
    var win, block := FirstWinning(b, ms, O), FirstWinning(b, ms, X);
    assert win.None?;
    assert block.Some?;
    assert HardChoice(b, pick) == block;
  }

  /** `best_move_easy` as a function of the board: the random legal move `pick`. */
  function EasyChoice(b: Board, pick: nat): Option<Pos>
    requires WellFormed(b)
    requires AvailableMoves(b) != [] ==> pick < |AvailableMoves(b)|
  {
    var ms := AvailableMoves(b);
    if ms != [] then Some(ms[pick]) else None
  }

  /**
   * The move `bot_move` plays for the configured difficulty (easy when
   * unset): always an empty cell, and none only on a full board.
   */
  function BotChoice(b: Board, level: Option<Level>, pick: nat): (r: Option<Pos>)
    requires WellFormed(b)
    requires AvailableMoves(b) != [] ==> pick < |AvailableMoves(b)|
    ensures r.None? <==> Full(b)
    ensures r.Some? ==> InBoard(r.value) && At(b, r.value) == Empty
  {
    ImpossibleChoiceLegal(b);
    HardChoiceLegal(b, pick);
    MovesEmptyIffFull(b);
    if level == Some(Impossible) then ImpossibleChoice(b)
    else if level == Some(Hard) then HardChoice(b, pick)
    else EasyChoice(b, pick)
  }

  /** Undoing a probe on an empty cell restores the board. */
  lemma PlaceUndo(b: Board, p: Pos, m: Mark)
    requires WellFormed(b) && InBoard(p) && At(b, p) == Empty
    ensures Place(Place(b, p, m), p, Empty) == b
  {
    assert Place(Place(b, p, m), p, Empty)[p.0] == b[p.0];
  }

  // ---------------------------------------------------------------------
  // The game state

  /** The counters after `end_game(v)`: the one counter for v rises by one, the others stay. */
  predicate Tallied(v: Verdict, x0: int, o0: int, d0: int, x: int, o: int, d: int)
  {
    if v == Draw then d == d0 + 1 && x == x0 && o == o0
    else if v == Win(X) then x == x0 + 1 && o == o0 && d == d0
    else o == o0 + 1 && x == x0 && d == d0
  }

  class Game {
    var board: Board
    var currentPlayer: Mark
    var gameOver: bool
    var mode: Mode
    var difficulty: Option<Level>
    var humanStarts: bool
    var pvpStartSymbol: Mark
    var scoreX: nat
    var scoreO: nat
    var scoreDraw: nat

    ghost predicate Valid()
      reads this
    {
      WellFormed(board) && currentPlayer != Empty && pvpStartSymbol != Empty
    }

    /** The module's initial globals: an empty board, X to play, no mode chosen yet. */
    constructor ()
      ensures Valid()
      ensures board == EmptyBoard() && currentPlayer == X && !gameOver
      ensures mode == Unchosen && difficulty == None && humanStarts && pvpStartSymbol == X
      ensures scoreX == 0 && scoreO == 0 && scoreDraw == 0
    {
      board := EmptyBoard();
      currentPlayer := X;
      gameOver := false;
      mode := Unchosen;
      difficulty := None;
      humanStarts := true;
      pvpStartSymbol := X;
      scoreX, scoreO, scoreDraw := 0, 0, 0;
    }

    /**
     * `choose_mode_and_difficulty` with the dialog answers as parameters:
     * against the bot, the starter is X for the human and O for the bot; in
     * two-player mode, the chosen starting symbol.
     */
    method ChooseMode(vsBot: bool, level: Level, humanFirst: bool, startSymbol: Mark)
      requires Valid()
      requires startSymbol != Empty
      modifies this
      ensures Valid()
      ensures board == old(board) && gameOver == old(gameOver)
      ensures scoreX == old(scoreX) && scoreO == old(scoreO) && scoreDraw == old(scoreDraw)
      ensures vsBot ==> (mode == Bot && difficulty == Some(level) && humanStarts == humanFirst
        && pvpStartSymbol == old(pvpStartSymbol) && currentPlayer == (if humanFirst then X else O))
      ensures !vsBot ==> (mode == Pvp && difficulty == None && humanStarts == old(humanStarts)
        && pvpStartSymbol == startSymbol && currentPlayer == startSymbol)
    {
      if vsBot {
        mode := Bot;
        difficulty := Some(level);
        humanStarts := humanFirst;
        if humanStarts {
          currentPlayer := X;
        } else {
          currentPlayer := O;
        }
      } else {
        mode := Pvp;
        difficulty := None;
        pvpStartSymbol := startSymbol;
        currentPlayer := pvpStartSymbol;
      }
    }

    /** `minimax(board, maximizing)`: tries each move on the board itself and undoes it. */
    method Minimax(maximizing: bool) returns (score: int)
      requires WellFormed(board)
      modifies this`board
      ensures board == old(board)
      ensures score == Value(board, maximizing)
      decreases Empties(board)
    {
      var winner := Evaluate(board);
      if winner != Undecided {
        if winner == Win(O) {
          return 1;
        } else if winner == Win(X) {
          return -1;
        } else {
          return 0;
        }
      }
      ghost var b0 := board;
      var moves := AvailableMoves(board);
      ghost var vals := ChildValues(b0, moves, maximizing);
      var best := Initial(maximizing);
      var mark := if maximizing then O else X;
      var i := 0;
      while i < |moves|
        invariant 0 <= i <= |moves|
        invariant board == b0
        invariant best == BestOf(vals[..i], maximizing)
      {
        var (r, c) := moves[i];
        PlaceDecreasesEmpties(board, (r, c), mark);
        PlaceUndo(board, (r, c), mark);
        board := board[r := board[r][c := mark]];
        var s := Minimax(!maximizing);
        board := board[r := board[r][c := Empty]];
        ChildValueAt(b0, moves, maximizing, i);
        BestOfStep(vals, i, maximizing);
        if maximizing {
          if s > best { best := s; }
        } else {
          if s < best { best := s; }
        }
        i := i + 1;
      }
      assert vals[..i] == vals;
      ValueUnfold(b0, maximizing);
      score := best;
    }

    /** `best_move_impossible`: probes every move on the board and restores it. */
    method BestMoveImpossible() returns (move: Option<Pos>)
      requires WellFormed(board)
      modifies this`board
      ensures board == old(board)
      ensures move == ImpossibleChoice(board)
    {
      ghost var b0 := board;
      var moves := AvailableMoves(board);
      ghost var vals := ChildValues(b0, moves, true);
      var bestScore := -999;
      ghost var idx := -1;
      move := None;
      var i := 0;
      while i < |moves|
        invariant 0 <= i <= |moves|
        invariant board == b0
        invariant FirstMaxFrom(vals, i, bestScore, idx) == FirstMaxFrom(vals, 0, -999, -1)
        invariant -1 <= idx < i
        invariant move == if idx < 0 then None else Some(moves[idx])
      {
        var (r, c) := moves[i];
        PlaceUndo(board, (r, c), O);
        board := board[r := board[r][c := O]];
        var s := Minimax(false);
        board := board[r := board[r][c := Empty]];
        ChildValueAt(b0, moves, true, i);
        if s > bestScore {
          bestScore := s;
          move := Some((r, c));
          idx := i;
        }
        i := i + 1;
      }
    }

    /** Probes each of `moves` with mark `m` in order, undoing each probe. */
    method FindWinning(moves: seq<Pos>, m: Mark) returns (found: Option<Pos>)
      requires WellFormed(board)
      requires forall i :: 0 <= i < |moves| ==> InBoard(moves[i]) && At(board, moves[i]) == Empty
      modifies this`board
      ensures board == old(board)
      ensures found == FirstWinning(board, moves, m)
    {
      ghost var b0 := board;
      var i := 0;
      while i < |moves|
        invariant 0 <= i <= |moves|
        invariant board == b0
        invariant FirstWinning(b0, moves[i..], m) == FirstWinning(b0, moves, m)
      {
        var (r, c) := moves[i];
        PlaceUndo(board, (r, c), m);
        board := board[r := board[r][c := m]];
        var won := Evaluate(board) == Win(m);
        board := board[r := board[r][c := Empty]];
        if won {
          return Some((r, c));
        }
        assert moves[i..][1..] == moves[i + 1..];
        i := i + 1;
      }
      found := None;
    }

    /** `best_move_hard`, with `random.choice(moves)` given as the index `pick`. */
    method BestMoveHard(pick: nat) returns (move: Option<Pos>)
      requires WellFormed(board)
      requires AvailableMoves(board) != [] ==> pick < |AvailableMoves(board)|
      modifies this`board
      ensures board == old(board)
      ensures move == HardChoice(board, pick)
    {
      var moves := AvailableMoves(board);
      move := FindWinning(moves, O);
      if move.Some? {
        return;
      }
      move := FindWinning(moves, X);
      if move.Some? {
        return;
      }
      if board[1][1] == Empty {
        return Some((1, 1));
      }
      move := if moves != [] then Some(moves[pick]) else None;
    }

    /** `best_move_easy`: the random legal move `pick`, `None` on a full board. */
    method BestMoveEasy(pick: nat) returns (move: Option<Pos>)
      requires WellFormed(board)
      requires AvailableMoves(board) != [] ==> pick < |AvailableMoves(board)|
      ensures move == EasyChoice(board, pick)
    {
      var moves := AvailableMoves(board);
      move := if moves != [] then Some(moves[pick]) else None;
    }

    /** `end_game(winner)`: the game is over and exactly one counter goes up. */
    method EndGame(winner: Verdict)
      requires winner != Undecided
      modifies this`gameOver, this`scoreX, this`scoreO, this`scoreDraw
      ensures gameOver
      ensures winner == Draw ==> scoreDraw == old(scoreDraw) + 1 && scoreX == old(scoreX) && scoreO == old(scoreO)
      ensures winner == Win(X) ==> scoreX == old(scoreX) + 1 && scoreO == old(scoreO) && scoreDraw == old(scoreDraw)
      ensures winner.Win? && winner != Win(X) ==> scoreO == old(scoreO) + 1 && scoreX == old(scoreX) && scoreDraw == old(scoreDraw)
    {
      gameOver := true;
      if winner == Draw {
        scoreDraw := scoreDraw + 1;
        return;
      }
      if winner == Win(X) {
        scoreX := scoreX + 1;
      } else {
        scoreO := scoreO + 1;
      }
    }

    /**
     * `bot_move`, the callback scheduled after the human's move: O plays the
     * move of the configured strategy, then the game ends or X is to play.
     * `pick` stands for `random.choice` in the easy and hard strategies.
     */
    method BotMove(pick: nat)
      requires Valid()
      requires AvailableMoves(board) != [] ==> pick < |AvailableMoves(board)|
      modifies this
      ensures Valid()
      ensures mode == old(mode) && difficulty == old(difficulty)
      ensures humanStarts == old(humanStarts) && pvpStartSymbol == old(pvpStartSymbol)
      ensures old(gameOver) || Full(old(board)) ==> unchanged(this)
      ensures !old(gameOver) && !Full(old(board)) ==>
        var p := BotChoice(old(board), old(difficulty), pick).value;
        && board == Place(old(board), p, O)
        && (Evaluate(board) == Undecided ==>
              currentPlayer == X && !gameOver
              && scoreX == old(scoreX) && scoreO == old(scoreO) && scoreDraw == old(scoreDraw))
        && (Evaluate(board) != Undecided ==>
              gameOver && currentPlayer == old(currentPlayer)
              && Tallied(Evaluate(board), old(scoreX), old(scoreO), old(scoreDraw), scoreX, scoreO, scoreDraw))
    {
      if gameOver {
        return;
      }
      var move: Option<Pos>;
      if difficulty == Some(Impossible) {
        move := BestMoveImpossible();
      } else if difficulty == Some(Hard) {
        move := BestMoveHard(pick);
      } else {
        move := BestMoveEasy(pick);
      }
      assert move == BotChoice(board, difficulty, pick);
      if move.None? {
        return;
      }
      board := Place(board, move.value, O);
      Conclude(X);
    }

    /**
     * The tail shared by `bot_move` and `on_click`: a decided board ends the
     * game and counts it; otherwise `next` is to play.
     */
    method Conclude(next: Mark)
      requires WellFormed(board)
      modifies this`gameOver, this`scoreX, this`scoreO, this`scoreDraw, this`currentPlayer
      ensures Evaluate(board) != Undecided ==>
        gameOver && currentPlayer == old(currentPlayer)
        && Tallied(Evaluate(board), old(scoreX), old(scoreO), old(scoreDraw), scoreX, scoreO, scoreDraw)
      ensures Evaluate(board) == Undecided ==>
        currentPlayer == next && gameOver == old(gameOver)
        && scoreX == old(scoreX) && scoreO == old(scoreO) && scoreDraw == old(scoreDraw)
    {
      var winner := Evaluate(board);
      if winner != Undecided {
        EndGame(winner);
      } else {
        currentPlayer := next;
      }
    }

    /**
     * `on_click(row, col)`: ignored when the game is over, when it is the
     * bot's turn, or on an occupied cell; otherwise the current player's mark
     * goes into exactly that cell, and the game ends or the turn passes (to
     * the other symbol in two-player mode, to the bot in bot mode).
     */
    method OnClick(row: int, col: int)
      requires Valid() && InBoard((row, col))
      modifies this
      ensures Valid()
      ensures mode == old(mode) && difficulty == old(difficulty)
      ensures humanStarts == old(humanStarts) && pvpStartSymbol == old(pvpStartSymbol)
      ensures old(gameOver) || (old(mode) == Bot && old(currentPlayer) == O) || At(old(board), (row, col)) != Empty
        ==> unchanged(this)
      ensures !(old(gameOver) || (old(mode) == Bot && old(currentPlayer) == O) || At(old(board), (row, col)) != Empty) ==>
        board == Place(old(board), (row, col), old(currentPlayer))
        && (Evaluate(board) != Undecided ==>
              gameOver && currentPlayer == old(currentPlayer)
              && Tallied(Evaluate(board), old(scoreX), old(scoreO), old(scoreDraw), scoreX, scoreO, scoreDraw))
        && (Evaluate(board) == Undecided ==> scoreX == old(scoreX) && scoreO == old(scoreO) && scoreDraw == old(scoreDraw))
        && (Evaluate(board) == Undecided && mode == Bot ==> !gameOver && currentPlayer == O)
        && (Evaluate(board) == Undecided && mode != Bot ==> !gameOver && currentPlayer == (if old(currentPlayer) == X then O else X))
    {
      if gameOver {
        return;
      }
      if mode == Bot && currentPlayer == O {
        return;
      }
      if board[row][col] != Empty {
        return;
      }
      board := board[row := board[row][col := currentPlayer]];
      Conclude(if mode == Bot then O else if currentPlayer == X then O else X);
    }

    /**
     * `reset_game`: an empty board and a running game; X or O starts against
     * the bot as chosen (the bot's first move is the scheduled `BotMove`),
     * the chosen symbol starts otherwise.  The counters are kept.
     */
    method ResetGame()
      requires Valid()
      modifies this
      ensures Valid()
      ensures board == EmptyBoard() && !gameOver
      ensures mode == old(mode) && difficulty == old(difficulty)
      ensures humanStarts == old(humanStarts) && pvpStartSymbol == old(pvpStartSymbol)
      ensures scoreX == old(scoreX) && scoreO == old(scoreO) && scoreDraw == old(scoreDraw)
      ensures mode == Bot ==> currentPlayer == (if humanStarts then X else O)
      ensures mode != Bot ==> currentPlayer == pvpStartSymbol
    {
      board := EmptyBoard();
      gameOver := false;
      if mode == Bot {
        if humanStarts {
          currentPlayer := X;
        } else {
          currentPlayer := O;
        }
      } else {
        currentPlayer := pvpStartSymbol;
      }
    }
  }
}
