/**
 * The 2048 move engine on a fixed 5x5 board (Games/game_2048.py): the line
 * compress-and-merge step, the four directional moves built from it, the
 * score and best-score update, game-over detection, the random tile, and
 * the one-shot score saving.
 */
module Game2048 {
  import opened Wrappers
  import Leaderboard

  /** `SIZE`: the board is SIZE x SIZE. */
  const Size: nat := 5

  type Line = seq<nat>
  type Board = seq<seq<nat>>
  type Pos = (int, int)

  /** `compress_line`'s pair of results. */
  datatype Compressed = Compressed(line: Line, gain: nat)

  /** A move's new board and the points it earns. */
  datatype Shifted = Shifted(board: Board, gain: nat)

  // ---------------------------------------------------------------------
  // Lines

  function Sum(s: Line): nat
  {
    if |s| == 0 then 0 else s[0] + Sum(s[1..])
  }

  predicate Positive(s: Line)
  {
    forall i :: 0 <= i < |s| ==> s[i] > 0
  }

  /** No two neighbours are equal. */
  predicate NoPair(s: Line)
  {
    forall i :: 0 <= i < |s| - 1 ==> s[i] != s[i + 1]
  }

  /** `[v for v in line if v != 0]`. */
  function NonZero(s: Line): (r: Line)
    ensures |r| <= |s| && Positive(r)
    ensures Positive(s) ==> r == s
  {
    if |s| == 0 then [] else (if s[0] != 0 then [s[0]] else []) + NonZero(s[1..])
  }

  /**
   * The `while` loop of `compress_line` on the non-zero tiles: scanning left
   * to right, a tile equal to the next one merges with it into their double
   * (which counts as gained points) and the scan skips both.
   */
  function Merge(xs: Line): (m: Compressed)
    ensures |m.line| <= |xs|
    decreases |xs|
  {
    if |xs| == 0 then Compressed([], 0)
    else if |xs| >= 2 && xs[0] == xs[1] then
      var rest := Merge(xs[2..]);
      Compressed([xs[0] * 2] + rest.line, xs[0] * 2 + rest.gain)
    else
      var rest := Merge(xs[1..]);
      Compressed([xs[0]] + rest.line, rest.gain)
  }

  /** `[0] * n`, which is empty for n <= 0. */
  function Zeros(n: int): Line
  {
    seq(if n > 0 then n else 0, _ => 0)
  }

  /** `compress_line(line)`: merged tiles first, padded with zeros up to SIZE. */
  function Compress(line: Line): Compressed
  {
    var m := Merge(NonZero(line));
    Compressed(m.line + Zeros(Size - |m.line|), m.gain)
  }

  /** `compress_line`: drop the zeros, merge, pad with zeros. */
  method CompressLine(line: Line) returns (merged: Line, gained: nat)
    ensures merged == Compress(line).line && gained == Compress(line).gain
  {
    var tiles := NonZero(line);
    merged, gained := MergeTiles(tiles);
    merged := merged + Zeros(Size - |merged|);
  }

  /** The `while` loop of `compress_line`. */
  method MergeTiles(tiles: Line) returns (merged: Line, gained: nat)
    ensures Compressed(merged, gained) == Merge(tiles)
  {
    merged := [];
    gained := 0;
    var i := 0;
    while i < |tiles|
      invariant 0 <= i <= |tiles|
      invariant merged + Merge(tiles[i..]).line == Merge(tiles).line
      invariant gained + Merge(tiles[i..]).gain == Merge(tiles).gain
      decreases |tiles| - i
    {
      MergeAt(tiles, i);
      if i + 1 < |tiles| && tiles[i] == tiles[i + 1] {
        var val := tiles[i] * 2;
        AppendAssoc(merged, val, Merge(tiles[i + 2..]).line);
        merged := merged + [val];
        gained := gained + val;
        i := i + 2;
      } else {
        AppendAssoc(merged, tiles[i], Merge(tiles[i + 1..]).line);
        merged := merged + [tiles[i]];
        i := i + 1;
      }
    }
    assert tiles[i..] == [];
  }

  lemma AppendAssoc(a: Line, x: nat, b: Line)
    ensures (a + [x]) + b == a + ([x] + b)
  {
  }

  /** One step of the merge scan at position i. */
  lemma MergeAt(xs: Line, i: nat)
    requires i < |xs|
    ensures i + 1 < |xs| && xs[i] == xs[i + 1] ==>
      Merge(xs[i..]) == Compressed([xs[i] * 2] + Merge(xs[i + 2..]).line, xs[i] * 2 + Merge(xs[i + 2..]).gain)
    ensures !(i + 1 < |xs| && xs[i] == xs[i + 1]) ==>
      Merge(xs[i..]) == Compressed([xs[i]] + Merge(xs[i + 1..]).line, Merge(xs[i + 1..]).gain)
  {
    assert xs[i..][1..] == xs[i + 1..];
    if i + 1 < |xs| {
      assert xs[i..][2..] == xs[i + 2..];
    }
  }

  lemma {:induction false} SumAppend(a: Line, b: Line)
    ensures Sum(a + b) == Sum(a) + Sum(b)
  {
    if |a| > 0 {
      assert (a + b)[0] == a[0];
      assert (a + b)[1..] == a[1..] + b;
      SumAppend(a[1..], b);
    } else {
      assert a + b == b;
    }
  }

  lemma {:induction false} SumNonZero(s: Line)
    ensures Sum(NonZero(s)) == Sum(s)
  {
    if |s| > 0 {
      SumNonZero(s[1..]);
      SumAppend(if s[0] != 0 then [s[0]] else [], NonZero(s[1..]));
    }
  }

  lemma {:induction false} SumZeros(n: int)
    ensures Sum(Zeros(n)) == 0
  {
    if n > 0 {
      assert Zeros(n)[1..] == Zeros(n - 1);
      SumZeros(n - 1);
    }
  }

  lemma {:induction false} MergeSum(xs: Line)
    ensures Sum(Merge(xs).line) == Sum(xs)
    decreases |xs|
  {
    if |xs| >= 2 && xs[0] == xs[1] {
      MergeSum(xs[2..]);
      assert xs[1..][1..] == xs[2..];
    } else if |xs| > 0 {
      MergeSum(xs[1..]);
    }
  }

  /** Merging keeps tiles positive. */
  lemma {:induction false} MergePositive(xs: Line)
    requires Positive(xs)
    ensures Positive(Merge(xs).line)
    decreases |xs|
  {
    if |xs| >= 2 && xs[0] == xs[1] {
      MergePositive(xs[2..]);
    } else if |xs| > 0 {
      MergePositive(xs[1..]);
    }
  }

  /**
   * No points are gained exactly when no two neighbouring tiles are equal,
   * and then the tiles stay as they are.
   */
  lemma {:induction false} MergeNoPair(xs: Line)
    requires Positive(xs)
    ensures Merge(xs).gain == 0 <==> NoPair(xs)
    ensures NoPair(xs) ==> Merge(xs).line == xs
    decreases |xs|
  {
    if |xs| >= 2 && xs[0] == xs[1] {
      MergeNoPair(xs[2..]);
    } else if |xs| > 0 {
      MergeNoPair(xs[1..]);
      if NoPair(xs[1..]) {
        assert NoPair(xs);
      }
    }
  }

  /**
   * Each output tile takes one or two input tiles, so a tile merges at most
   * once; points are gained exactly when some tiles merged.
   */
  lemma {:induction false} MergeCount(xs: Line)
    requires Positive(xs)
    ensures |xs| <= 2 * |Merge(xs).line|
    ensures Merge(xs).gain == 0 <==> |Merge(xs).line| == |xs|
    decreases |xs|
  {
    if |xs| >= 2 && xs[0] == xs[1] {
      MergeCount(xs[2..]);
    } else if |xs| > 0 {
      MergeCount(xs[1..]);
    }
  }

  /**
   * Input tiles a..b-1 make one output tile v of the left-to-right scan:
   * a lone tile whose right neighbour differs (or which is last), or two
   * equal neighbours merged into their double.
   */
  predicate Group(xs: Line, a: int, b: int, v: nat)
  {
    && 0 <= a < b <= |xs|
    && (|| (b == a + 1 && v == xs[a] && !(b < |xs| && xs[a] == xs[b]))
        || (b == a + 2 && xs[a] == xs[a + 1] && v == 2 * xs[a]))
  }

  /** The cut points `cuts` split `xs` into consecutive groups, group j making `out[j]`. */
  ghost predicate Grouped(xs: Line, cuts: seq<int>, out: Line)
  {
    && |cuts| == |out| + 1 && cuts[0] == 0 && cuts[|out|] == |xs|
    && forall j :: 0 <= j < |out| ==> Group(xs, cuts[j], cuts[j + 1], out[j])
  }

  /** The total of the output tiles made by two-tile groups. */
  ghost function Gained(cuts: seq<int>, out: Line): nat
    requires |cuts| == |out| + 1
  {
    if out == [] then 0
    else (if cuts[1] - cuts[0] == 2 then out[0] else 0) + Gained(cuts[1..], out[1..])
  }

  ghost function Offset(cuts: seq<int>, k: int): (r: seq<int>)
    ensures |r| == |cuts| && forall i :: 0 <= i < |cuts| ==> r[i] == cuts[i] + k
  {
    seq(|cuts|, i requires 0 <= i < |cuts| => cuts[i] + k)
  }

  lemma {:induction false} GainedOffset(cuts: seq<int>, k: int, out: Line)
    requires |cuts| == |out| + 1
    ensures Gained(Offset(cuts, k), out) == Gained(cuts, out)
    decreases |out|
  {
    if out != [] {
      assert Offset(cuts, k)[1..] == Offset(cuts[1..], k);
      GainedOffset(cuts[1..], k, out[1..]);
    }
  }

  /** Grouping the tiles after a first group of k tiles making v, then putting that group in front. */
  lemma GroupedCons(xs: Line, k: nat, v: nat, cuts: seq<int>, out: Line)
    requires k <= |xs| && Group(xs, 0, k, v) && Grouped(xs[k..], cuts, out)
    ensures Grouped(xs, [0] + Offset(cuts, k), [v] + out)
  {
    var c, o := [0] + Offset(cuts, k), [v] + out;
    forall j | 0 <= j < |o|
      ensures Group(xs, c[j], c[j + 1], o[j])
    {
      if j > 0 {
        assert Group(xs[k..], cuts[j - 1], cuts[j], out[j - 1]);
      }
    }
  }

  /** In a grouping, every cut after the first lies at or beyond the end of the first group. */
  lemma {:induction false} CutsRise(xs: Line, cuts: seq<int>, out: Line, j: int)
    requires Grouped(xs, cuts, out) && 1 <= j <= |out|
    ensures cuts[1] <= cuts[j]
    decreases j
  {
    if j > 1 {
      CutsRise(xs, cuts, out, j - 1);
      assert Group(xs, cuts[j - 1], cuts[j], out[j - 1]);
    }
  }

  /**
   * The scan splits the tiles into consecutive groups, each a lone tile or
   * two equal neighbours, so a tile merges at most once; each output tile
   * is its group's total; and the points gained are the tiles the merges made.
   */
  lemma {:induction false} MergeGroups(xs: Line)
    ensures exists cuts :: Grouped(xs, cuts, Merge(xs).line) && Merge(xs).gain == Gained(cuts, Merge(xs).line)
    decreases |xs|
  {
    if |xs| == 0 {
      var cuts: seq<int> := [0];
      assert Merge(xs).line == [];
      assert Grouped(xs, cuts, Merge(xs).line) && Merge(xs).gain == Gained(cuts, Merge(xs).line);
    } else {
      var k := if |xs| >= 2 && xs[0] == xs[1] then 2 else 1;
      var m := Merge(xs);
      MergeGroups(xs[k..]);
      var rest := Merge(xs[k..]);
      var c :| Grouped(xs[k..], c, rest.line) && rest.gain == Gained(c, rest.line);
      if k == 2 {
        assert xs[1..][1..] == xs[2..];
      }
      GroupedCons(xs, k, m.line[0], c, rest.line);
      var cuts := [0] + Offset(c, k);
      assert m.line == [m.line[0]] + rest.line;
      assert cuts[1..] == Offset(c, k);
      GainedOffset(c, k, rest.line);
      assert Grouped(xs, cuts, m.line) && m.gain == Gained(cuts, m.line);
    }
  }

  /** Dropping the first group of a grouping leaves a grouping of the remaining tiles. */
  lemma GroupedTail(xs: Line, cuts: seq<int>, out: Line)
    requires Grouped(xs, cuts, out) && out != []
    ensures Grouped(xs[cuts[1]..], Offset(cuts[1..], -cuts[1]), out[1..])
  {
    var k := cuts[1];
    assert Group(xs, 0, k, out[0]);
    var c := Offset(cuts[1..], -k);
    forall j | 0 <= j < |out| - 1
      ensures Group(xs[k..], c[j], c[j + 1], out[1..][j])
    {
      CutsRise(xs, cuts, out, j + 1);
      assert Group(xs, cuts[j + 1], cuts[j + 2], out[j + 1]);
    }
  }

  /** Conversely, any such grouping of the tiles is the one the scan makes. */
  lemma {:induction false} GroupedIsMerge(xs: Line, cuts: seq<int>, out: Line)
    requires Grouped(xs, cuts, out)
    ensures out == Merge(xs).line && Gained(cuts, out) == Merge(xs).gain
    decreases |xs|
  {
    if out != [] {
      var k := cuts[1];
      assert Group(xs, 0, k, out[0]);
      var c := Offset(cuts[1..], -k);
      GroupedTail(xs, cuts, out);
      GroupedIsMerge(xs[k..], c, out[1..]);
      GainedOffset(c, k, out[1..]);
      assert Offset(c, k) == cuts[1..];
      if k == 2 {
        assert xs[1..][1..] == xs[2..];
      }
      assert out == [out[0]] + out[1..];
    }
  }

  /**
   * For a line of at most SIZE tiles the result has SIZE tiles, the
   * non-zero ones first and the zeros after.
   */
  lemma CompressShape(line: Line)
    requires |line| <= Size
    ensures |Compress(line).line| == Size
    ensures var r := Compress(line).line;
      forall i, j :: 0 <= i < j < |r| && r[i] == 0 ==> r[j] == 0
  {
    MergePositive(NonZero(line));
  }

  /** The tiles' total is conserved. */
  lemma CompressSum(line: Line)
    ensures Sum(Compress(line).line) == Sum(line)
  {
    var m := Merge(NonZero(line));
    SumAppend(m.line, Zeros(Size - |m.line|));
    SumZeros(Size - |m.line|);
    MergeSum(NonZero(line));
    SumNonZero(line);
  }

  /**
   * The points gained are the tiles merged away: none exactly when the
   * non-zero tiles have no equal neighbours, and at most half the tiles
   * disappear.
   */
  lemma CompressGain(line: Line)
    ensures var n := NonZero(line);
      && (Compress(line).gain == 0 <==> NoPair(n))
      && (Compress(line).gain == 0 <==> |Merge(n).line| == |n|)
      && |n| <= 2 * |Merge(n).line|
  {
    MergeNoPair(NonZero(line));
    MergeCount(NonZero(line));
  }

  /** `compress_line([2, 2, 2, 2, 0])`: each pair merges once, left to right, into `[4, 4, 0, 0, 0]`, gaining 8. */
  lemma CompressExample()
    ensures Compress([2, 2, 2, 2, 0]) == Compressed([4, 4, 0, 0, 0], 8)
  {
    var line: Line := [2, 2, 2, 2, 0];
    NonZeroExample();
    MergeExample();
    var m := Merge(NonZero(line));
    assert m == Compressed([4, 4], 8);
    assert Zeros(Size - |m.line|) == [0, 0, 0];
    assert Compress(line) == Compressed([4, 4] + [0, 0, 0], 8);
  }

  lemma NonZeroExample()
    ensures NonZero([2, 2, 2, 2, 0]) == [2, 2, 2, 2]
  {
    var a: Line, b: Line, c: Line, d: Line, e: Line := [0], [2, 0], [2, 2, 0], [2, 2, 2, 0], [2, 2, 2, 2, 0];
    assert a[1..] == [] && b[1..] == a && c[1..] == b && d[1..] == c && e[1..] == d;
    assert NonZero(a) == [];
    assert NonZero(b) == [2];
    assert NonZero(c) == [2, 2];
    assert NonZero(d) == [2, 2, 2];
  }

  lemma MergeExample()
    ensures Merge([2, 2, 2, 2]) == Compressed([4, 4], 8)
  {
    var xs: Line := [2, 2, 2, 2];
    var ys: Line := [2, 2];
    assert xs[2..] == ys && ys[2..] == [];
  }

  /** A full line without equal neighbours does not change. */
  lemma FixedLine(line: Line)
    requires |line| == Size && Positive(line) && NoPair(line)
    ensures Compress(line) == Compressed(line, 0)
  {
    MergeNoPair(line);
    assert Zeros(0) == [];
  }

  // ---------------------------------------------------------------------
  // Boards and moves

  ghost predicate Square(b: Board)
  {
    |b| == Size && forall r :: 0 <= r < Size ==> |b[r]| == Size
  }

  /** `list(reversed(s))`. */
  function Reverse(s: Line): (r: Line)
    ensures |r| == |s|
  {
    seq(|s|, i requires 0 <= i < |s| => s[|s| - 1 - i])
  }

  /** `[board[r][c] for r in range(SIZE)]`. */
  function Column(b: Board, c: int): (col: Line)
    ensures |col| == |b|
  {
    seq(|b|, r requires 0 <= r < |b| => if 0 <= c < |b[r]| then b[r][c] else 0)
  }

  /** Rows become columns. */
  function Transpose(b: Board): Board
  {
    seq(Size, c => Column(b, c))
  }

  /** Every row reversed. */
  function Mirror(b: Board): Board
  {
    seq(|b|, r requires 0 <= r < |b| => Reverse(b[r]))
  }

  /** Points gained by compressing the first n rows. */
  function Gains(b: Board, n: nat): nat
    requires n <= |b|
  {
    if n == 0 then 0 else Gains(b, n - 1) + Compress(b[n - 1]).gain
  }

  /** `move_left`: every row compressed. */
  function ShiftLeft(b: Board): Shifted
  {
    Shifted(seq(|b|, r requires 0 <= r < |b| => Compress(b[r]).line), Gains(b, |b|))
  }

  /** `move_right`: every reversed row compressed and reversed back. */
  function ShiftRight(b: Board): Shifted
  {
    var s := ShiftLeft(Mirror(b));
    Shifted(Mirror(s.board), s.gain)
  }

  /** `move_up`: every column compressed and written back as a column. */
  function ShiftUp(b: Board): Shifted
  {
    var s := ShiftLeft(Transpose(b));
    Shifted(Transpose(s.board), s.gain)
  }

  /** `move_down`: every reversed column compressed and written back reversed. */
  function ShiftDown(b: Board): Shifted
  {
    var s := ShiftRight(Transpose(b));
    Shifted(Transpose(s.board), s.gain)
  }

  /** The direction names `move` accepts. */
  predicate IsDirection(d: string)
  {
    d == "Left" || d == "Right" || d == "Up" || d == "Down"
  }

  function Shift(b: Board, d: string): Shifted
    requires IsDirection(d)
  {
    if d == "Left" then ShiftLeft(b)
    else if d == "Right" then ShiftRight(b)
    else if d == "Up" then ShiftUp(b)
    else ShiftDown(b)
  }

  lemma ReverseReverse(s: Line)
    ensures Reverse(Reverse(s)) == s
  {
  }

  lemma MirrorSquare(b: Board)
    requires Square(b)
    ensures Square(Mirror(b)) && Mirror(Mirror(b)) == b
  {
    forall r | 0 <= r < Size
      ensures Mirror(Mirror(b))[r] == b[r]
    {
      ReverseReverse(b[r]);
    }
  }

  lemma TransposeSquare(b: Board)
    requires Square(b)
    ensures Square(Transpose(b)) && Transpose(Transpose(b)) == b
    ensures forall i, j :: 0 <= i < Size && 0 <= j < Size ==> Transpose(b)[i][j] == b[j][i]
  {
    var t := Transpose(Transpose(b));
    forall r | 0 <= r < Size
      ensures t[r] == b[r]
    {
      assert forall c :: 0 <= c < Size ==> t[r][c] == b[r][c];
    }
  }

  lemma ShiftLeftSquare(b: Board)
    requires Square(b)
    ensures Square(ShiftLeft(b).board)
    ensures forall r :: 0 <= r < Size ==> ShiftLeft(b).board[r] == Compress(b[r]).line
  {
    forall r | 0 <= r < Size
      ensures |Compress(b[r]).line| == Size
    {
      CompressShape(b[r]);
    }
  }

  /** Every move keeps the board 5x5. */
  lemma ShiftSquare(b: Board, d: string)
    requires Square(b) && IsDirection(d)
    ensures Square(Shift(b, d).board)
  {
    MirrorSquare(b);
    TransposeSquare(b);
    ShiftLeftSquare(b);
    ShiftLeftSquare(Mirror(b));
    MirrorSquare(ShiftLeft(Mirror(b)).board);
    TransposeSquare(Transpose(b));
    ShiftLeftSquare(Transpose(b));
    TransposeSquare(ShiftLeft(Transpose(b)).board);
    MirrorSquare(Transpose(b));
    ShiftLeftSquare(Mirror(Transpose(b)));
    MirrorSquare(ShiftLeft(Mirror(Transpose(b))).board);
    TransposeSquare(ShiftRight(Transpose(b)).board);
  }

  lemma {:induction false} SumReverse(s: Line)
    ensures Sum(Reverse(s)) == Sum(s)
  {
    if |s| > 0 {
      SumReverse(s[1..]);
      assert Reverse(s) == Reverse(s[1..]) + [s[0]];
      SumAppend(Reverse(s[1..]), [s[0]]);
    }
  }

  /** A left or right move keeps every row's total; an up or down move keeps every column's total. */
  lemma ShiftKeepsTotals(b: Board)
    requires Square(b)
    ensures forall r :: 0 <= r < Size ==> Sum(ShiftLeft(b).board[r]) == Sum(b[r])
    ensures forall r :: 0 <= r < Size ==> Sum(ShiftRight(b).board[r]) == Sum(b[r])
    ensures forall c :: 0 <= c < Size ==> Sum(Column(ShiftUp(b).board, c)) == Sum(Column(b, c))
    ensures forall c :: 0 <= c < Size ==> Sum(Column(ShiftDown(b).board, c)) == Sum(Column(b, c))
  {
    MirrorSquare(b);
    TransposeSquare(b);
    ShiftLeftSquare(b);
    ShiftLeftSquare(Mirror(b));
    ShiftLeftSquare(Transpose(b));
    MirrorSquare(Transpose(b));
    ShiftLeftSquare(Mirror(Transpose(b)));
    var up := ShiftLeft(Transpose(b)).board;
    var down := Mirror(ShiftLeft(Mirror(Transpose(b))).board);
    MirrorSquare(ShiftLeft(Mirror(Transpose(b))).board);
    TransposeSquare(up);
    TransposeSquare(down);
    forall r | 0 <= r < Size
      ensures Sum(ShiftLeft(b).board[r]) == Sum(b[r])
      ensures Sum(ShiftRight(b).board[r]) == Sum(b[r])
    {
      CompressSum(b[r]);
      CompressSum(Reverse(b[r]));
      SumReverse(b[r]);
      SumReverse(Compress(Reverse(b[r])).line);
    }
    forall c | 0 <= c < Size
      ensures Sum(Column(ShiftUp(b).board, c)) == Sum(Column(b, c))
      ensures Sum(Column(ShiftDown(b).board, c)) == Sum(Column(b, c))
    {
      assert Column(b, c) == Transpose(b)[c];
      assert Column(Transpose(up), c) == up[c];
      assert Column(Transpose(down), c) == down[c];
      CompressSum(Column(b, c));
      CompressSum(Reverse(Column(b, c)));
      SumReverse(Column(b, c));
      SumReverse(Compress(Reverse(Column(b, c))).line);
    }
  }

  // ---------------------------------------------------------------------
  // Game over

  /** The tile right of (r, c). */
  function RightOf(b: Board, r: int, c: int): nat
    requires Square(b) && 0 <= r < Size && 0 <= c < Size - 1
  {
    b[r][c + 1]
  }

  /** The tile below (r, c). */
  function Below(b: Board, r: int, c: int): nat
    requires Square(b) && 0 <= r < Size - 1 && 0 <= c < Size
  {
    b[r + 1][c]
  }

  /** No empty cell and no two horizontally or vertically adjacent equal tiles. */
  ghost predicate Stuck(b: Board)
    requires Square(b)
  {
    && (forall r, c :: 0 <= r < Size && 0 <= c < Size ==> b[r][c] != 0)
    && (forall r, c {:trigger RightOf(b, r, c)} :: 0 <= r < Size && 0 <= c < Size - 1 ==> b[r][c] != RightOf(b, r, c))
    && (forall r, c {:trigger Below(b, r, c)} :: 0 <= r < Size - 1 && 0 <= c < Size ==> b[r][c] != Below(b, r, c))
  }

  /** One cell of `is_game_over`'s scan: not empty and unequal to its right and lower neighbours. */
  predicate CellStuck(b: Board, r: int, c: int)
    requires Square(b) && 0 <= r < Size && 0 <= c < Size
  {
    b[r][c] != 0 && (c + 1 < Size ==> b[r][c] != RightOf(b, r, c)) && (r + 1 < Size ==> b[r][c] != Below(b, r, c))
  }

  /** A board is stuck exactly when every cell passes the scan's test. */
  lemma StuckCells(b: Board)
    requires Square(b)
    ensures Stuck(b) <==> forall r, c :: 0 <= r < Size && 0 <= c < Size ==> CellStuck(b, r, c)
  {
    if forall r, c :: 0 <= r < Size && 0 <= c < Size ==> CellStuck(b, r, c) {
      forall r, c | 0 <= r < Size && 0 <= c < Size
        ensures b[r][c] != 0
      {
        assert CellStuck(b, r, c);
      }
      forall r, c | 0 <= r < Size && 0 <= c < Size - 1
        ensures b[r][c] != RightOf(b, r, c)
      {
        assert CellStuck(b, r, c);
      }
      forall r, c | 0 <= r < Size - 1 && 0 <= c < Size
        ensures b[r][c] != Below(b, r, c)
      {
        assert CellStuck(b, r, c);
      }
    }
    if Stuck(b) {
      forall r, c | 0 <= r < Size && 0 <= c < Size
        ensures CellStuck(b, r, c)
      {
        if c + 1 < Size { assert b[r][c] != RightOf(b, r, c); }
        if r + 1 < Size { assert b[r][c] != Below(b, r, c); }
      }
    }
  }

  /** Full rows without equal neighbours: a left move changes nothing and earns nothing. */
  lemma {:induction false} FixedRows(b: Board, n: nat)
    requires Square(b) && n <= Size
    requires forall r :: 0 <= r < Size ==> Positive(b[r]) && NoPair(b[r])
    ensures Gains(b, n) == 0
    ensures ShiftLeft(b).board == b
  {
    if n > 0 {
      FixedRows(b, n - 1);
    }
    forall r | 0 <= r < Size
      ensures Compress(b[r]) == Compressed(b[r], 0)
    {
      FixedLine(b[r]);
    }
  }

  /** The rows and the columns of a stuck board are full and have no equal neighbours. */
  lemma StuckLines(b: Board)
    requires Square(b) && Stuck(b)
    ensures Square(Transpose(b))
    ensures forall r :: 0 <= r < Size ==> Positive(b[r]) && NoPair(b[r])
    ensures forall r :: 0 <= r < Size ==> Positive(Transpose(b)[r]) && NoPair(Transpose(b)[r])
  {
    TransposeSquare(b);
    var t := Transpose(b);
    forall r | 0 <= r < Size
      ensures Positive(b[r]) && NoPair(b[r]) && Positive(t[r]) && NoPair(t[r])
    {
      forall i | 0 <= i < Size - 1
        ensures b[r][i] != b[r][i + 1] && t[r][i] != t[r][i + 1]
      {
        assert b[r][i + 1] == RightOf(b, r, i);
        assert t[r][i] == b[i][r] && t[r][i + 1] == Below(b, i, r);
      }
    }
  }

  /** Reversing rows keeps them full and free of equal neighbours. */
  lemma MirrorFixed(b: Board)
    requires Square(b)
    requires forall r :: 0 <= r < Size ==> Positive(b[r]) && NoPair(b[r])
    ensures Square(Mirror(b))
    ensures forall r :: 0 <= r < Size ==> Positive(Mirror(b)[r]) && NoPair(Mirror(b)[r])
  {
    MirrorSquare(b);
    forall r | 0 <= r < Size
      ensures Positive(Mirror(b)[r]) && NoPair(Mirror(b)[r])
    {
      var m := Mirror(b)[r];
      assert m == Reverse(b[r]);
      forall i | 0 <= i < Size - 1
        ensures m[i] != m[i + 1]
      {
        assert m[i] == b[r][Size - 1 - i] && m[i + 1] == b[r][Size - 2 - i];
      }
    }
  }

  /** On a stuck board no move changes the board or the score: the game is over. */
  lemma StuckIsFinal(b: Board, d: string)
    requires Square(b) && Stuck(b) && IsDirection(d)
    ensures Shift(b, d) == Shifted(b, 0)
  {
    StuckLines(b);
    TransposeSquare(b);
    var t := Transpose(b);
    if d == "Left" {
      FixedRows(b, Size);
    } else if d == "Right" {
      MirrorFixed(b);
      FixedRows(Mirror(b), Size);
      MirrorSquare(b);
    } else if d == "Up" {
      FixedRows(t, Size);
    } else {
      MirrorFixed(t);
      FixedRows(Mirror(t), Size);
      MirrorSquare(t);
    }
  }

  // ---------------------------------------------------------------------
  // Empty cells and the random tile

  /** The empty cells of one row r, among its first n, left to right. */
  function EmptiesIn(row: Line, r: int, n: nat): seq<Pos>
    requires n <= |row|
  {
    if n == 0 then [] else EmptiesIn(row, r, n - 1) + (if row[n - 1] == 0 then [(r, n - 1)] else [])
  }

  /** The empty cells of the first m rows in row-major order. */
  function EmptiesAbove(b: Board, m: nat): seq<Pos>
    requires m <= |b|
  {
    if m == 0 then [] else EmptiesAbove(b, m - 1) + EmptiesIn(b[m - 1], m - 1, |b[m - 1]|)
  }

  /** `add_random_tile`'s `empty` list. */
  function Empties(b: Board): seq<Pos>
  {
    EmptiesAbove(b, |b|)
  }

  function Put(b: Board, p: Pos, v: nat): Board
    requires 0 <= p.0 < |b| && 0 <= p.1 < |b[p.0]|
  {
    var row: Line := b[p.0][p.1 := v];
    b[p.0 := row]
  }

  lemma {:induction false} EmptiesInExact(row: Line, r: int, n: nat)
    requires n <= |row|
    ensures forall p :: p in EmptiesIn(row, r, n) <==> p.0 == r && 0 <= p.1 < n && row[p.1] == 0
  {
    if n > 0 {
      EmptiesInExact(row, r, n - 1);
    }
  }

  lemma {:induction false} EmptiesAboveExact(b: Board, m: nat)
    requires m <= |b|
    ensures forall p :: p in EmptiesAbove(b, m) <==> 0 <= p.0 < m && 0 <= p.1 < |b[p.0]| && b[p.0][p.1] == 0
  {
    if m > 0 {
      EmptiesAboveExact(b, m - 1);
      EmptiesInExact(b[m - 1], m - 1, |b[m - 1]|);
    }
  }

  /** `empty` lists exactly the cells holding 0. */
  lemma EmptiesExact(b: Board)
    ensures forall p :: p in Empties(b) <==> 0 <= p.0 < |b| && 0 <= p.1 < |b[p.0]| && b[p.0][p.1] == 0
  {
    EmptiesAboveExact(b, |b|);
  }

  lemma {:induction false} EmptiesInPut(row: Line, r: int, n: nat, c: int, v: nat)
    requires n <= |row| && 0 <= c < |row| && row[c] == 0 && v != 0
    ensures |EmptiesIn(row[c := v], r, n)| == |EmptiesIn(row, r, n)| - (if c < n then 1 else 0)
  {
    if n > 0 {
      EmptiesInPut(row, r, n - 1, c, v);
    }
  }

  lemma {:induction false} EmptiesInOther(row: Line, other: Line, r: int, r': int, n: nat)
    requires n <= |row| && row == other
    ensures |EmptiesIn(row, r, n)| == |EmptiesIn(other, r', n)|
  {
    if n > 0 {
      EmptiesInOther(row, other, r, r', n - 1);
    }
  }

  lemma {:induction false} EmptiesAbovePut(b: Board, m: nat, p: Pos, v: nat)
    requires m <= |b| && 0 <= p.0 < |b| && 0 <= p.1 < |b[p.0]| && b[p.0][p.1] == 0 && v != 0
    ensures |EmptiesAbove(Put(b, p, v), m)| == |EmptiesAbove(b, m)| - (if p.0 < m then 1 else 0)
  {
    if m > 0 {
      EmptiesAbovePut(b, m - 1, p, v);
      EmptiesAboveExact(b, m - 1);
      var b' := Put(b, p, v);
      if p.0 == m - 1 {
        EmptiesInPut(b[m - 1], m - 1, |b[m - 1]|, p.1, v);
      }
    }
  }

  /** Writing a tile into an empty cell leaves one empty cell fewer. */
  lemma EmptiesPut(b: Board, p: Pos, v: nat)
    requires 0 <= p.0 < |b| && 0 <= p.1 < |b[p.0]| && b[p.0][p.1] == 0 && v != 0
    ensures |Empties(Put(b, p, v))| == |Empties(b)| - 1
  {
    EmptiesAbovePut(b, |b|, p, v);
  }

  /** `[[0] * SIZE for _ in range(SIZE)]`. */
  function EmptyBoard(): Board
  {
    seq(Size, _ => Zeros(Size))
  }

  lemma {:induction false} EmptiesInZero(row: Line, r: int, n: nat)
    requires n <= |row| && forall i :: 0 <= i < |row| ==> row[i] == 0
    ensures |EmptiesIn(row, r, n)| == n
  {
    if n > 0 {
      EmptiesInZero(row, r, n - 1);
    }
  }

  lemma {:induction false} EmptiesAboveZero(m: nat)
    requires m <= Size
    ensures |EmptiesAbove(EmptyBoard(), m)| == m * Size
  {
    if m > 0 {
      EmptiesAboveZero(m - 1);
      EmptiesInZero(EmptyBoard()[m - 1], m - 1, Size);
    }
  }

  /** What `add_random_tile` leaves, given which empty cell the choice picks and whether the tile is a 4. */
  ghost predicate TileAdded(b: Board, b': Board, roll: nat, four: bool)
  {
    var e := Empties(b);
    (|e| == 0 ==> b' == b)
    && (|e| > 0 ==>
          var p := e[roll % |e|];
          0 <= p.0 < |b| && 0 <= p.1 < |b[p.0]| && b[p.0][p.1] == 0
          && b' == Put(b, p, if four then 4 else 2))
  }

  // ---------------------------------------------------------------------
  // Saving

  /** The store after `add_score("2048_5x5", ...)` with the session best as extra. */
  ghost function SavedRecord(file: Leaderboard.FileState, name: string, score: nat, best: nat, stamp: string)
    : Leaderboard.FileState
  {
    Leaderboard.Stored(Leaderboard.Added(Leaderboard.Load(file), "2048_5x5",
      Leaderboard.NewEntry(name, score, Some(map["best_session" := Leaderboard.Int(best)]), stamp)))
  }

  // ---------------------------------------------------------------------
  // The game

  class Game {
    var board: Board
    var score: nat
    var bestScore: nat
    var gameOver: bool
    var scoreSaved: bool
    var playerName: string

    /** The board is 5x5, the best score bounds the score, and a finished game has saved its score. */
    ghost predicate Valid()
      reads this
    {
      Square(board) && score <= bestScore && playerName != "" && (gameOver ==> scoreSaved)
    }

    /** Start-up: `ask_player_name` (an empty name becomes "Player") and `reset_board`. */
    constructor (name: string, roll1: nat, four1: bool, roll2: nat, four2: bool)
      ensures Valid() && score == 0 && bestScore == 0 && !gameOver && !scoreSaved
      ensures |Empties(board)| == Size * Size - 2
      ensures exists b1 :: TileAdded(EmptyBoard(), b1, roll1, four1) && TileAdded(b1, board, roll2, four2)
    {
      board := EmptyBoard();
      score := 0;
      bestScore := 0;
      gameOver := false;
      scoreSaved := false;
      playerName := if name == "" then "Player" else name;
      new;
      ResetBoard(roll1, four1, roll2, four2);
    }

    /** `score_add(val)`: the score rises by val and the best score follows it up. */
    method ScoreAdd(val: nat)
      modifies this`score, this`bestScore
      ensures score == old(score) + val && bestScore == Max(old(bestScore), score)
    {
      score := score + val;
      if score > bestScore {
        bestScore := score;
      }
    }

    /** `move_left`: CompressRows rebuilds the board; the score rises by the points gained only when the board changed. */
    method MoveLeft() returns (moved: bool)
      requires Square(board) && score <= bestScore
      modifies this`board, this`score, this`bestScore
      ensures board == ShiftLeft(old(board)).board && (moved <==> board != old(board))
      ensures score == old(score) + (if moved then ShiftLeft(old(board)).gain else 0)
      ensures bestScore == Max(old(bestScore), score)
    {
      var newBoard, totalGain;
      newBoard, moved, totalGain := CompressRows(board);
      board := newBoard;
      if moved {
        ScoreAdd(totalGain);
      }
    }

    /** `move_right`: CompressRowsReversed rebuilds the board; the score rises by the points gained only when the board changed. */
    method MoveRight() returns (moved: bool)
      requires Square(board) && score <= bestScore
      modifies this`board, this`score, this`bestScore
      ensures board == ShiftRight(old(board)).board && (moved <==> board != old(board))
      ensures score == old(score) + (if moved then ShiftRight(old(board)).gain else 0)
      ensures bestScore == Max(old(bestScore), score)
    {
      var newBoard, totalGain;
      newBoard, moved, totalGain := CompressRowsReversed(board);
      board := newBoard;
      if moved {
        ScoreAdd(totalGain);
      }
    }

    /** `move_up`: CompressColumns rebuilds the board; the score rises by the points gained only when the board changed. */
    method MoveUp() returns (moved: bool)
      requires Square(board) && score <= bestScore
      modifies this`board, this`score, this`bestScore
      ensures board == ShiftUp(old(board)).board && (moved <==> board != old(board))
      ensures score == old(score) + (if moved then ShiftUp(old(board)).gain else 0)
      ensures bestScore == Max(old(bestScore), score)
    {
      var newBoard, totalGain;
      newBoard, moved, totalGain := CompressColumns(board);
      board := newBoard;
      if moved {
        ScoreAdd(totalGain);
      }
    }

    /** `move_down`: CompressColumnsReversed rebuilds the board; the score rises by the points gained only when the board changed. */
    method MoveDown() returns (moved: bool)
      requires Square(board) && score <= bestScore
      modifies this`board, this`score, this`bestScore
      ensures board == ShiftDown(old(board)).board && (moved <==> board != old(board))
      ensures score == old(score) + (if moved then ShiftDown(old(board)).gain else 0)
      ensures bestScore == Max(old(bestScore), score)
    {
      var newBoard, totalGain;
      newBoard, moved, totalGain := CompressColumnsReversed(board);
      board := newBoard;
      if moved {
        ScoreAdd(totalGain);
      }
    }

    /** `is_game_over`: true exactly on a stuck board. */
    method IsGameOver() returns (over: bool)
      requires Square(board)
      ensures over <==> Stuck(board)
    {
      StuckCells(board);
      for r := 0 to Size
        invariant forall i, j :: 0 <= i < r && 0 <= j < Size ==> CellStuck(board, i, j)
      {
        for c := 0 to Size
          invariant forall i, j :: (0 <= i < r && 0 <= j < Size) || (i == r && 0 <= j < c) ==> CellStuck(board, i, j)
        {
          var v := board[r][c];
          if v == 0 {
            assert !CellStuck(board, r, c);
            return false;
          }
          if c + 1 < Size && v == board[r][c + 1] {
            assert !CellStuck(board, r, c);
            return false;
          }
          if r + 1 < Size && v == board[r + 1][c] {
            assert !CellStuck(board, r, c);
            return false;
          }
        }
      }
      StuckCells(board);
      return true;
    }

    /**
     * `add_random_tile`: on a full board nothing happens; otherwise the
     * picked empty cell gets a 2, or a 4 when the 10% draw says so.
     */
    method AddRandomTile(roll: nat, four: bool)
      requires Square(board)
      modifies this`board
      ensures Square(board) && TileAdded(old(board), board, roll, four)
      ensures |Empties(old(board))| > 0 ==> |Empties(board)| == |Empties(old(board))| - 1
    {
      var empty := Empties(board);
      if |empty| == 0 {
        return;
      }
      var p := empty[roll % |empty|];
      EmptiesExact(board);
      assert p in empty;
      var v := if four then 4 else 2;
      EmptiesPut(board, p, v);
      var row: Line := board[p.0][p.1 := v];
      board := board[p.0 := row];
    }

    /**
     * `save_score_if_needed`: at most once per game; writes the score when
     * the player has a name and scored something, and marks it saved.
     */
    method SaveScoreIfNeeded(stamp: string, store: Leaderboard.ScoreFile)
      modifies this`scoreSaved, store
      ensures scoreSaved
      ensures old(scoreSaved) || playerName == "" || score == 0 ==> unchanged(store)
      ensures !old(scoreSaved) && playerName != "" && score > 0 ==>
        store.file == SavedRecord(old(store.file), playerName, score, bestScore, stamp)
    {
      if scoreSaved {
        return;
      }
      if playerName != "" && score > 0 {
        store.AddScore("2048_5x5", playerName, score, Some(map["best_session" := Leaderboard.Int(bestScore)]), stamp);
      }
      scoreSaved := true;
    }

    /** `finish_game`: end the game once and save. */
    method FinishGame(stamp: string, store: Leaderboard.ScoreFile)
      requires Valid()
      modifies this`gameOver, this`scoreSaved, store
      ensures Valid() && gameOver
      ensures old(gameOver) ==> unchanged(this) && unchanged(store)
      ensures !old(gameOver) && !old(scoreSaved) && score > 0 ==>
        store.file == SavedRecord(old(store.file), playerName, score, bestScore, stamp)
      ensures !old(gameOver) && (old(scoreSaved) || score == 0) ==> unchanged(store)
    {
      if gameOver {
        return;
      }
      gameOver := true;
      SaveScoreIfNeeded(stamp, store);
    }

    /**
     * `move(direction)`: nothing once the game is over or for an unknown
     * direction; otherwise the board shifts, and only when it changed is a
     * random tile added, after which a stuck board ends the game and saves
     * the score.
     */
    method Move(direction: string, roll: nat, four: bool, stamp: string, store: Leaderboard.ScoreFile)
      requires Valid()
      modifies this`board, this`score, this`bestScore, this`gameOver, this`scoreSaved, store
      ensures Valid()
      ensures old(gameOver) || !IsDirection(direction) ==> unchanged(this) && unchanged(store)
      ensures !old(gameOver) && IsDirection(direction) && Shift(old(board), direction).board == old(board) ==>
        board == old(board) && score == old(score) && !gameOver && scoreSaved == old(scoreSaved) && unchanged(store)
      ensures !old(gameOver) && IsDirection(direction) && Shift(old(board), direction).board != old(board) ==>
        && score == old(score) + Shift(old(board), direction).gain
        && TileAdded(Shift(old(board), direction).board, board, roll, four)
        && (gameOver <==> Stuck(board))
        && (!gameOver ==> scoreSaved == old(scoreSaved) && unchanged(store))
        && (gameOver ==> scoreSaved)
        && (gameOver && (old(scoreSaved) || score == 0) ==> unchanged(store))
        && (gameOver && !old(scoreSaved) && score > 0 ==>
              store.file == SavedRecord(old(store.file), playerName, score, bestScore, stamp))
      ensures bestScore == Max(old(bestScore), score)
    {
      if gameOver || !IsDirection(direction) {
        return;
      }
      var moved := ShiftBoard(direction);
      if moved {
        SettleAfterMove(roll, four, stamp, store);
      }
    }

    /** The rest of `move` after a shift that changed the board: a random tile, then the game-over test. */
    method SettleAfterMove(roll: nat, four: bool, stamp: string, store: Leaderboard.ScoreFile)
      requires Valid() && !gameOver
      modifies this`board, this`gameOver, this`scoreSaved, store
      ensures Valid()
      ensures TileAdded(old(board), board, roll, four) && (gameOver <==> Stuck(board))
      ensures !gameOver ==> unchanged(store) && scoreSaved == old(scoreSaved)
      ensures gameOver ==> scoreSaved
      ensures gameOver && (old(scoreSaved) || score == 0) ==> unchanged(store)
      ensures gameOver && !old(scoreSaved) && score > 0 ==>
        store.file == SavedRecord(old(store.file), playerName, score, bestScore, stamp)
    {
      AddRandomTile(roll, four);
      var over := IsGameOver();
      if over {
        gameOver := true;
        SaveScoreIfNeeded(stamp, store);
      }
    }

    /** `move`'s dispatch on the direction to one of the four moves. */
    method ShiftBoard(direction: string) returns (moved: bool)
      requires Valid() && IsDirection(direction)
      modifies this`board, this`score, this`bestScore
      ensures Valid() && Square(Shift(old(board), direction).board)
      ensures board == Shift(old(board), direction).board && (moved <==> board != old(board))
      ensures score == old(score) + (if moved then Shift(old(board), direction).gain else 0)
      ensures bestScore == Max(old(bestScore), score)
    {
      if direction == "Left" {
        moved := MoveLeft();
      } else if direction == "Right" {
        moved := MoveRight();
      } else if direction == "Up" {
        moved := MoveUp();
      } else {
        moved := MoveDown();
      }
      ShiftSquare(old(board), direction);
    }

    /**
     * `reset_board`: an empty board, score 0, the game running and unsaved,
     * then two random tiles; the best score stays.
     */
    method ResetBoard(roll1: nat, four1: bool, roll2: nat, four2: bool)
      requires playerName != ""
      modifies this`board, this`score, this`gameOver, this`scoreSaved
      ensures Valid() && score == 0 && !gameOver && !scoreSaved
      ensures |Empties(board)| == Size * Size - 2
      ensures exists b1 :: TileAdded(EmptyBoard(), b1, roll1, four1) && TileAdded(b1, board, roll2, four2)
    {
      board := EmptyBoard();
      score := 0;
      gameOver := false;
      scoreSaved := false;
      EmptiesAboveZero(Size);
      AddRandomTile(roll1, four1);
      ghost var b1 := board;
      AddRandomTile(roll2, four2);
    }
  }

  /** `move_left`'s loop: each row compressed in turn; `moved` records whether some row changed. */
  method CompressRows(b: Board) returns (nb: Board, moved: bool, gain: nat)
    requires Square(b)
    ensures Shifted(nb, gain) == ShiftLeft(b) && (moved <==> nb != b)
  {
    moved := false;
    gain := 0;
    nb := [];
    ghost var want := ShiftLeft(b).board;
    for r := 0 to Size
      invariant nb == want[..r]
      invariant gain == Gains(b, r)
      invariant moved <==> nb != b[..r]
    {
      var newRow, g := CompressLine(b[r]);
      gain := gain + g;
      if newRow != b[r] {
        moved := true;
      }
      Snoc(nb, newRow, want, b, r);
      nb := nb + [newRow];
    }
    assert want[..Size] == want && b[..Size] == b;
  }

  /** `move_right`'s loop: each row reversed, compressed and reversed back. */
  method CompressRowsReversed(b: Board) returns (nb: Board, moved: bool, gain: nat)
    requires Square(b)
    ensures Shifted(nb, gain) == ShiftRight(b) && (moved <==> nb != b)
  {
    moved := false;
    gain := 0;
    nb := [];
    ghost var m := Mirror(b);
    ghost var left := ShiftLeft(m);
    ghost var want := ShiftRight(b).board;
    assert |m| == Size && want == Mirror(left.board);
    for r := 0 to Size
      invariant nb == want[..r]
      invariant gain == Gains(m, r)
      invariant moved <==> nb != b[..r]
    {
      var reversedRow := Reverse(b[r]);
      assert reversedRow == m[r];
      var newRow, g := CompressLine(reversedRow);
      assert want[r] == Reverse(left.board[r]) && left.board[r] == Compress(m[r]).line;
      newRow := Reverse(newRow);
      gain := gain + g;
      if newRow != b[r] {
        moved := true;
      }
      Snoc(nb, newRow, want, b, r);
      nb := nb + [newRow];
    }
    assert want[..Size] == want && b[..Size] == b;
  }

  /** Extending the rebuilt prefix by one row: it stays the wanted prefix and differs from the old rows exactly when some row did. */
  lemma Snoc(nb: Board, row: Line, want: Board, b: Board, r: nat)
    requires r < |want| && r < |b| && nb == want[..r] && row == want[r]
    ensures nb + [row] == want[..r + 1]
    ensures nb + [row] != b[..r + 1] <==> nb != b[..r] || row != b[r]
  {
    assert want[..r + 1] == want[..r] + [want[r]];
    assert b[..r + 1] == b[..r] + [b[r]];
    if nb + [row] == b[..r + 1] {
      assert (nb + [row])[..r] == nb;
      assert b[..r + 1][..r] == b[..r];
    }
  }

  /** The board with column c replaced by col. */
  function SetColumn(nb: Board, c: int, col: Line): Board
    requires Square(nb) && 0 <= c < Size && |col| == Size
  {
    seq(Size, i requires 0 <= i < Size => nb[i][c := col[i]])
  }

  /** `new_board[r][c] = new_col[r]` for every r. */
  method WriteColumn(nb: Board, c: int, col: Line) returns (nb': Board)
    requires Square(nb) && 0 <= c < Size && |col| == Size
    ensures nb' == SetColumn(nb, c, col)
  {
    nb' := nb;
    for r := 0 to Size
      invariant |nb'| == Size
      invariant forall i :: 0 <= i < r ==> nb'[i] == nb[i][c := col[i]]
      invariant forall i :: r <= i < Size ==> nb'[i] == nb[i]
    {
      var row: Line := nb'[r][c := col[r]];
      nb' := nb'[r := row];
    }
  }

  /** The zero board whose first |w| columns hold the lines of w. */
  function Fill(w: seq<Line>): Board
  {
    seq(Size, i => seq(Size, j requires 0 <= j < Size => if j < |w| && 0 <= i < |w[j]| then w[j][i] else 0))
  }

  lemma FillStep(w: seq<Line>, col: Line)
    requires |w| < Size && |col| == Size
    ensures Square(Fill(w)) && SetColumn(Fill(w), |w|, col) == Fill(w + [col])
  {
    var x := SetColumn(Fill(w), |w|, col);
    var y := Fill(w + [col]);
    forall i | 0 <= i < Size
      ensures x[i] == y[i]
    {
      assert forall j :: 0 <= j < Size ==> x[i][j] == y[i][j];
    }
  }

  lemma FillEmpty()
    ensures Fill([]) == EmptyBoard()
  {
    assert forall i :: 0 <= i < Size ==> Fill([])[i] == EmptyBoard()[i];
  }

  lemma FillAll(x: Board)
    requires Square(x)
    ensures Fill(x) == Transpose(x)
  {
    forall i | 0 <= i < Size
      ensures Fill(x)[i] == Transpose(x)[i]
    {
      assert forall j :: 0 <= j < Size ==> Fill(x)[i][j] == Transpose(x)[i][j];
    }
  }

  /** `move_up`'s loop: each column compressed and written back into a fresh zero board. */
  method CompressColumns(b: Board) returns (nb: Board, moved: bool, gain: nat)
    requires Square(b)
    ensures Shifted(nb, gain) == ShiftUp(b) && (moved <==> nb != b)
  {
    moved := false;
    gain := 0;
    nb := EmptyBoard();
    ghost var t := Transpose(b);
    TransposeSquare(b);
    ShiftLeftSquare(t);
    ghost var l := ShiftLeft(t).board;
    ghost var written: seq<Line> := [];
    FillEmpty();
    for c := 0 to Size
      invariant written == l[..c]
      invariant nb == Fill(written)
      invariant gain == Gains(t, c)
      invariant moved <==> l[..c] != t[..c]
    {
      var col := Column(b, c);
      assert col == t[c];
      var newCol, g := CompressLine(col);
      assert newCol == l[c];
      gain := gain + g;
      FillStep(written, newCol);
      nb := WriteColumn(nb, c, newCol);
      PrefixNe(l, t, c);
      PrefixSnoc(l, written, c);
      written := written + [newCol];
      if newCol != col {
        moved := true;
      }
    }
    assert l[..Size] == l && t[..Size] == t;
    FillAll(l);
    TransposeBack(b, l);
  }

  /** `move_down`'s loop: each column reversed, compressed, reversed back and written into a fresh zero board. */
  method CompressColumnsReversed(b: Board) returns (nb: Board, moved: bool, gain: nat)
    requires Square(b)
    ensures Shifted(nb, gain) == ShiftDown(b) && (moved <==> nb != b)
  {
    moved := false;
    gain := 0;
    nb := EmptyBoard();
    ghost var t := Transpose(b);
    TransposeSquare(b);
    MirrorSquare(t);
    ShiftLeftSquare(Mirror(t));
    ghost var l := ShiftLeft(Mirror(t)).board;
    MirrorSquare(l);
    ghost var rl := Mirror(l);
    ghost var written: seq<Line> := [];
    FillEmpty();
    for c := 0 to Size
      invariant written == rl[..c]
      invariant nb == Fill(written)
      invariant gain == Gains(Mirror(t), c)
      invariant moved <==> rl[..c] != t[..c]
    {
      var col := Column(b, c);
      assert col == t[c];
      var reversedCol := Reverse(col);
      assert reversedCol == Mirror(t)[c];
      var newCol, g := CompressLine(reversedCol);
      assert newCol == l[c];
      newCol := Reverse(newCol);
      assert newCol == rl[c];
      gain := gain + g;
      FillStep(written, newCol);
      nb := WriteColumn(nb, c, newCol);
      PrefixNe(rl, t, c);
      PrefixSnoc(rl, written, c);
      written := written + [newCol];
      if newCol != col {
        moved := true;
      }
    }
    assert rl[..Size] == rl && t[..Size] == t;
    FillAll(rl);
    TransposeBack(b, rl);
  }

  lemma PrefixSnoc(x: seq<Line>, w: seq<Line>, c: nat)
    requires c < |x| && w == x[..c]
    ensures x[..c + 1] == w + [x[c]]
  {
  }

  lemma PrefixNe(x: Board, y: Board, c: nat)
    requires c < |x| && c < |y|
    ensures x[..c + 1] != y[..c + 1] <==> x[..c] != y[..c] || x[c] != y[c]
  {
    assert x[..c + 1] == x[..c] + [x[c]];
    assert y[..c + 1] == y[..c] + [y[c]];
    if x[..c + 1] == y[..c + 1] {
      assert x[..c + 1][..c] == x[..c] && y[..c + 1][..c] == y[..c];
      assert x[..c + 1][c] == x[c] && y[..c + 1][c] == y[c];
    }
  }

  /** x transposed differs from b exactly when x differs from b's columns. */
  lemma TransposeBack(b: Board, x: Board)
    requires Square(b) && Square(x)
    ensures Transpose(x) != b <==> x != Transpose(b)
  {
    TransposeSquare(x);
    TransposeSquare(b);
  }

}
