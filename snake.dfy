/**
 * The Snake simulation (Games/snake.py): the 25x25 grid, the direction
 * rule, one tick of movement with collision, growth or tail removal,
 * random walls away from the centre, breadth-first reachability from the
 * head used to place food, the speed clamp, and the end of a game, which
 * saves the score and starts the next game at once.
 *
 * The clock is a parameter (`now`, seconds as a real number, as
 * `time.time()` returns); every random draw is a parameter too.
 */
module Snake {
  import opened Wrappers
  import Leaderboard

  const Width: int := 25
  const Height: int := 25
  /** Milliseconds per tick at the start of a game. */
  const BaseSpeed: int := 140
  /** The fastest tick. */
  const MinSpeed: int := 60
  /** The most walls a game gets. */
  const NumWalls: nat := 40
  /** `generate_walls` draws at most `num_walls * 5` candidate cells. */
  const WallDraws: nat := NumWalls * 5
  const CenterX: int := Width / 2
  const CenterY: int := Height / 2

  /** A cell `(x, y)`; also used for a direction `(dx, dy)`. */
  type Pos = (int, int)

  predicate InBounds(p: Pos)
  {
    0 <= p.0 < Width && 0 <= p.1 < Height
  }

  /** Within two cells of the centre on both axes: no wall goes there. */
  predicate NearCentre(p: Pos)
  {
    -2 <= p.0 - CenterX <= 2 && -2 <= p.1 - CenterY <= 2
  }

  predicate Distinct(s: seq<Pos>)
  {
    forall i, j :: 0 <= i < j < |s| ==> s[i] != s[j]
  }

  /** The three-cell snake `reset_game` starts with, heading right from the centre. */
  const StartSnake: seq<Pos> := [(CenterX, CenterY), (CenterX - 1, CenterY), (CenterX - 2, CenterY)]

  // ---------------------------------------------------------------------
  // Time and speed

  /** Python's `int(x)` on a float: truncation toward zero. */
  function Trunc(x: real): (n: int)
    ensures x >= 0.0 ==> n == x.Floor
    ensures x < 0.0 ==> n == -((-x).Floor)
  {
    if x >= 0.0 then x.Floor else -((-x).Floor)
  }

  /**
   * `get_current_speed`: the tick in milliseconds, 140 at the start, one
   * less per whole second played, never below 60.
   */
  function Speed(start: real, now: real): (ms: int)
    ensures MinSpeed <= ms <= BaseSpeed
  {
    var elapsed := if now - start > 0.0 then now - start else 0.0;
    var speed := BaseSpeed - Trunc(1.0 * elapsed);
    if speed < MinSpeed then MinSpeed else speed
  }

  /** The game only speeds up: a later time never gives a slower tick. */
  lemma SpeedMonotone(start: real, now: real, later: real)
    requires now <= later
    ensures Speed(start, later) <= Speed(start, now)
  {
    var e1 := if now - start > 0.0 then now - start else 0.0;
    var e2 := if later - start > 0.0 then later - start else 0.0;
    assert e1 <= e2;
    assert e1.Floor <= e2.Floor;
  }

  /** Before one second has passed the tick is 140; from 80 seconds on it is 60. */
  lemma SpeedEnds(start: real, now: real)
    ensures now - start < 1.0 ==> Speed(start, now) == BaseSpeed
    ensures now - start >= 80.0 ==> Speed(start, now) == MinSpeed
  {
    if now - start >= 80.0 {
      assert (now - start).Floor >= 80;
    }
  }

  // ---------------------------------------------------------------------
  // Directions

  function Neg(d: Pos): Pos { (-d.0, -d.1) }

  /** `change_direction(dx, dy)`: an exact reversal of the current direction is ignored. */
  function Turned(current: Pos, wanted: Pos): (d: Pos)
    ensures wanted == Neg(current) ==> d == current
    ensures wanted != Neg(current) ==> d == wanted
  {
    if current == Neg(wanted) then current else wanted
  }

  /** A single turn is never the exact reverse of the current direction. */
  lemma TurnNeverReverses(current: Pos, wanted: Pos)
    requires current != (0, 0)
    ensures Turned(current, wanted) != Neg(current)
  {
  }

  /**
   * Two turns between ticks can still reverse the snake: from the start,
   * up and then left leaves it heading into its second segment.
   */
  lemma DoubleTurnReverses()
    ensures Turned(Turned((1, 0), (0, -1)), (-1, 0)) == Neg((1, 0))
    ensures Ahead(StartSnake[0], Turned(Turned((1, 0), (0, -1)), (-1, 0))) == StartSnake[1]
  {
  }

  /** The cell one step from p in direction d. */
  function Ahead(p: Pos, d: Pos): Pos { (p.0 + d.0, p.1 + d.1) }

  // ---------------------------------------------------------------------
  // Reachability

  /** The four neighbour offsets, in the order the search tries them. */
  function Offset(k: int): Pos
  {
    if k == 0 then (1, 0) else if k == 1 then (-1, 0) else if k == 2 then (0, 1) else (0, -1)
  }

  function Neighbor(p: Pos, k: int): Pos
  {
    Ahead(p, Offset(k))
  }

  /** A cell food may go on: on the grid, not a wall, not the snake. */
  predicate Open(p: Pos, walls: seq<Pos>, snake: seq<Pos>)
  {
    InBounds(p) && p !in walls && p !in snake
  }

  /** S holds every open neighbour of each of its cells. */
  ghost predicate Closed(S: set<Pos>, walls: seq<Pos>, snake: seq<Pos>)
  {
    forall p, k :: p in S && 0 <= k < 4 && Open(Neighbor(p, k), walls, snake) ==> Neighbor(p, k) in S
  }

  /**
   * c is reachable from the head through open cells: it lies in every
   * closed set that contains the head (the least such set is the head's
   * connected component).
   */
  ghost predicate Reaches(walls: seq<Pos>, snake: seq<Pos>, c: Pos)
    requires snake != []
  {
    forall S :: Closed(S, walls, snake) && snake[0] in S ==> c in S
  }

  /** Reachability spreads to open neighbours. */
  lemma ReachesNeighbor(walls: seq<Pos>, snake: seq<Pos>, p: Pos, k: int)
    requires snake != [] && Reaches(walls, snake, p) && 0 <= k < 4 && Open(Neighbor(p, k), walls, snake)
    ensures Reaches(walls, snake, Neighbor(p, k))
  {
  }

  /** Where `get_reachable_empty_cells` finds room: an open cell reachable from a head that is not on a wall. */
  ghost predicate FoodSpot(walls: seq<Pos>, snake: seq<Pos>, c: Pos)
    requires snake != []
  {
    snake[0] !in walls && Open(c, walls, snake) && Reaches(walls, snake, c)
  }

  /**
   * `spawn_single_food` after `rest`: either one reachable free cell that
   * was not food yet is appended, or nothing is because no such cell exists.
   */
  ghost predicate Respawned(rest: seq<Pos>, foods: seq<Pos>, walls: seq<Pos>, snake: seq<Pos>)
    requires snake != []
  {
    || (foods == rest && forall c :: FoodSpot(walls, snake, c) ==> c in rest)
    || (&& |foods| == |rest| + 1 && foods[..|rest|] == rest
        && FoodSpot(walls, snake, foods[|rest|]) && foods[|rest|] !in rest)
  }

  /** The cells of the grid. */
  ghost const Grid: set<Pos> := set x, y | 0 <= x < Width && 0 <= y < Height :: (x, y)

  lemma InGrid(p: Pos)
    requires InBounds(p)
    ensures p in Grid
  {
    assert p == (p.0, p.1);
  }

  /**
   * `get_reachable_empty_cells`: breadth-first search from the head over
   * in-bounds cells that are neither walls nor snake; the answer is the
   * visited cells other than snake and walls, in no particular order (the
   * source lists a Python set).  A head on a wall gives nothing.
   */
  method ReachableCells(walls: seq<Pos>, snake: seq<Pos>) returns (cells: seq<Pos>)
    requires snake != []
    ensures Distinct(cells)
    ensures forall c :: c in cells <==> FoodSpot(walls, snake, c)
  {
    var head := snake[0];
    if head in walls {
      return [];
    }
    var visited := Search(walls, snake);
    cells := [];
    var rest := visited;
    while rest != {}
      invariant rest <= visited
      invariant Distinct(cells)
      invariant forall c :: c in cells ==> c !in rest
      invariant forall c :: c in cells <==> c in visited - rest && Open(c, walls, snake)
      decreases rest
    {
      var c :| c in rest;
      rest := rest - {c};
      if c !in snake && c !in walls {
        cells := cells + [c];
      }
    }
    forall c | Open(c, walls, snake) && Reaches(walls, snake, c)
      ensures c in visited
    {
    }
  }

  /** The search proper: the visited set is exactly the head's closed component. */
  method Search(walls: seq<Pos>, snake: seq<Pos>) returns (visited: set<Pos>)
    requires snake != []
    ensures snake[0] in visited && Closed(visited, walls, snake)
    ensures forall p :: p in visited && p != snake[0] ==> Open(p, walls, snake) && Reaches(walls, snake, p)
  {
    var head := snake[0];
    visited := {head};
    var queue := [head];
    ghost var done: set<Pos> := {};
    while queue != []
      invariant head in visited && visited <= Grid + {head}
      invariant forall p :: p in visited && p != head ==> Open(p, walls, snake) && Reaches(walls, snake, p)
      invariant forall p :: p in queue ==> p in visited
      invariant forall p :: p in visited ==> p in done || p in queue
      invariant forall p, k :: p in done && 0 <= k < 4 && Open(Neighbor(p, k), walls, snake) ==> Neighbor(p, k) in visited
      decreases Grid + {head} - visited, |queue|
    {
      var p := queue[0];
      queue := queue[1..];
      visited, queue := Expand(walls, snake, p, visited, queue);
      done := done + {p};
    }
  }

  /**
   * One turn of the search loop: every in-bounds, unvisited, unblocked
   * neighbour of p is marked visited and queued.
   */
  method Expand(walls: seq<Pos>, snake: seq<Pos>, p: Pos, visited: set<Pos>, queue: seq<Pos>)
    returns (visited': set<Pos>, queue': seq<Pos>)
    requires snake != [] && snake[0] in visited && visited <= Grid + {snake[0]} && p in visited
    requires forall x :: x in visited && x != snake[0] ==> Open(x, walls, snake) && Reaches(walls, snake, x)
    requires forall x :: x in queue ==> x in visited
    ensures visited <= visited' <= Grid + {snake[0]}
    ensures visited' == visited ==> queue' == queue
    ensures |queue'| >= |queue| && forall x :: x in queue ==> x in queue'
    ensures forall x :: x in visited' && x != snake[0] ==> Open(x, walls, snake) && Reaches(walls, snake, x)
    ensures forall x :: x in queue' ==> x in visited'
    ensures forall x :: x in visited' ==> x in visited || x in queue'
    ensures forall j :: 0 <= j < 4 && Open(Neighbor(p, j), walls, snake) ==> Neighbor(p, j) in visited'
  {
    var head := snake[0];
    visited', queue' := visited, queue;
    for k := 0 to 4
      invariant visited <= visited' <= Grid + {head}
      invariant visited' == visited ==> queue' == queue
      invariant |queue'| >= |queue| && forall x :: x in queue ==> x in queue'
      invariant forall x :: x in visited' && x != head ==> Open(x, walls, snake) && Reaches(walls, snake, x)
      invariant forall x :: x in queue' ==> x in visited'
      invariant forall x :: x in visited' ==> x in visited || x in queue'
      invariant forall j :: 0 <= j < k && Open(Neighbor(p, j), walls, snake) ==> Neighbor(p, j) in visited'
    {
      var n := Neighbor(p, k);
      if !InBounds(n) {
        continue;
      }
      if n in visited' {
        continue;
      }
      if (n in walls || n in snake) && n != head {
        continue;
      }
      InGrid(n);
      ReachesNeighbor(walls, snake, p, k);
      visited' := visited' + {n};
      queue' := queue' + [n];
    }
  }

  // ---------------------------------------------------------------------
  // Walls

  /** A drawn cell `generate_walls` keeps unless it already has 40 walls or holds it already. */
  predicate WallSpot(snake: seq<Pos>, p: Pos)
  {
    p !in snake && !NearCentre(p)
  }

  /**
   * `generate_walls`: up to 200 draws of a random cell; a draw on the snake,
   * near the centre or already a wall is skipped; the loop stops at 40 walls.
   */
  method GenerateWalls(snake: seq<Pos>, draws: seq<Pos>) returns (walls: seq<Pos>)
    requires |draws| == WallDraws && forall i :: 0 <= i < |draws| ==> InBounds(draws[i])
    ensures |walls| <= NumWalls && Distinct(walls)
    ensures forall w :: w in walls ==> w in draws && InBounds(w) && WallSpot(snake, w)
    ensures |walls| < NumWalls ==> forall i :: 0 <= i < |draws| && WallSpot(snake, draws[i]) ==> draws[i] in walls
  {
    walls := [];
    for i := 0 to WallDraws
      invariant |walls| <= NumWalls && Distinct(walls)
      invariant forall w :: w in walls ==> w in draws && InBounds(w) && WallSpot(snake, w)
      invariant |walls| < NumWalls ==> forall j :: 0 <= j < i && WallSpot(snake, draws[j]) ==> draws[j] in walls
    {
      if |walls| >= NumWalls {
        break;
      }
      var p := draws[i];
      if p in snake {
        continue;
      }
      if NearCentre(p) {
        continue;
      }
      if p in walls {
        continue;
      }
      walls := walls + [p];
    }
  }

  // ---------------------------------------------------------------------
  // Food

  /**
   * `random.shuffle`: for i from the last index down to 1, swap item i with
   * item `randbelow(i + 1)`; `draw(i)` is the random number drawn at step i.
   */
  method Shuffle(s: seq<Pos>, draw: nat -> nat) returns (r: seq<Pos>)
    ensures multiset(r) == multiset(s)
    ensures Distinct(s) ==> Distinct(r)
  {
    r := s;
    var i := |r| - 1;
    while i >= 1
      invariant |r| == |s| && i < |r|
      invariant multiset(r) == multiset(s)
      invariant Distinct(s) ==> Distinct(r)
    {
      var j := draw(i) % (i + 1);
      SwapKeeps(r, i, j);
      r := Swap(r, i, j);
      i := i - 1;
    }
  }

  /** Items i and j exchanged. */
  function Swap(r: seq<Pos>, i: nat, j: nat): seq<Pos>
    requires i < |r| && j < |r|
  {
    r[i := r[j]][j := r[i]]
  }

  /** A swap permutes the items and keeps them free of repeats. */
  lemma SwapKeeps(r: seq<Pos>, i: nat, j: nat)
    requires i < |r| && j < |r|
    ensures |Swap(r, i, j)| == |r| && multiset(Swap(r, i, j)) == multiset(r)
    ensures Distinct(r) ==> Distinct(Swap(r, i, j))
  {
    var t := Swap(r, i, j);
    if Distinct(r) {
      forall a, b | 0 <= a < b < |t|
        ensures t[a] != t[b]
      {
        var a' := if a == i then j else if a == j then i else a;
        var b' := if b == i then j else if b == j then i else b;
        assert t[a] == r[a'] && t[b] == r[b'];
      }
    }
  }

  /** `[cell for cell in cells if cell not in used]`. */
  function Unused(cells: seq<Pos>, used: seq<Pos>): (r: seq<Pos>)
    ensures forall c :: c in r <==> c in cells && c !in used
    ensures Distinct(cells) ==> Distinct(r)
  {
    if cells == [] then []
    else if cells[0] in used then Unused(cells[1..], used)
    else [cells[0]] + Unused(cells[1..], used)
  }

  /** `list.remove(x)`: the first occurrence of x taken out. */
  function Without(s: seq<Pos>, x: Pos): (r: seq<Pos>)
    ensures x in s ==> |r| == |s| - 1 && multiset(r) == multiset(s) - multiset{x}
    ensures x !in s ==> r == s
  {
    if s == [] then []
    else if s[0] == x then (assert s == [s[0]] + s[1..]; s[1..])
    else (assert s == [s[0]] + s[1..]; [s[0]] + Without(s[1..], x))
  }

  /** On a list without repeats, removing x leaves exactly the other items, still without repeats. */
  lemma {:induction false} WithoutDistinct(s: seq<Pos>, x: Pos)
    requires Distinct(s)
    ensures Distinct(Without(s, x))
    ensures forall y :: y in Without(s, x) <==> y in s && y != x
  {
    if s != [] && s[0] != x {
      assert Distinct(s[1..]);
      WithoutDistinct(s[1..], x);
      assert s[0] !in s[1..];
    } else if s != [] {
      assert s[0] !in s[1..];
    }
  }

  // ---------------------------------------------------------------------
  // Saving

  /** The store after `end_game` records a score with the seconds played and the session's high score. */
  ghost function SnakeRecord(file: Leaderboard.FileState, name: string, score: nat, high: nat, seconds: int,
                             stamp: string): Leaderboard.FileState
  {
    Leaderboard.Stored(Leaderboard.Added(Leaderboard.Load(file), "snake",
      Leaderboard.NewEntry(name, score, Some(map["time_s" := Leaderboard.Int(seconds), "session_high" := Leaderboard.Int(high)]), stamp)))
  }

  // ---------------------------------------------------------------------
  // The game

  class Game {
    var snake: seq<Pos>
    var direction: Pos
    var foods: seq<Pos>
    var walls: seq<Pos>
    var gameOver: bool
    var score: nat
    var highScore: nat
    var startTime: real
    var playerName: string

    /**
     * The snake has 3 + score distinct in-bounds cells; walls are at most
     * 40 distinct in-bounds cells away from the centre and off the snake;
     * foods are distinct open cells.
     */
    ghost predicate Valid()
      reads this
    {
      && |snake| == 3 + score && Distinct(snake) && (forall p :: p in snake ==> InBounds(p))
      && score <= highScore
      && |walls| <= NumWalls && Distinct(walls)
      && (forall w :: w in walls ==> InBounds(w) && !NearCentre(w) && w !in snake)
      && Distinct(foods) && (forall f :: f in foods ==> Open(f, walls, snake))
      && playerName != ""
    }

    /** `ask_player_name` (an empty answer becomes "Player"), then `reset_game`. */
    constructor (name: string, now: real, wallDraws: seq<Pos>, shuffle: nat -> nat, desired: int)
      requires |wallDraws| == WallDraws && forall i :: 0 <= i < |wallDraws| ==> InBounds(wallDraws[i])
      requires 5 <= desired <= 8
      ensures Valid() && highScore == 0
      ensures playerName == (if name == "" then "Player" else name)
      ensures snake == StartSnake && direction == (1, 0) && !gameOver && score == 0 && startTime == now
      ensures Restocked(wallDraws, desired)
    {
      playerName := if name == "" then "Player" else name;
      highScore := 0;
      snake, direction, foods, walls := [], (1, 0), [], [];
      gameOver, score, startTime := false, 0, now;
      new;
      ResetGame(now, wallDraws, shuffle, desired);
    }

    /**
     * The walls and foods `reset_game` builds from `wallDraws` and `desired`:
     * every wall is a draw, and every valid draw is a wall unless 40 were
     * placed; at most `desired` foods, all on reachable free cells, and
     * fewer only when every such cell already holds food.
     */
    ghost predicate Restocked(wallDraws: seq<Pos>, desired: int)
      reads this`snake, this`walls, this`foods
      requires |wallDraws| == WallDraws && snake != []
    {
      && (|walls| < NumWalls ==> forall i :: 0 <= i < WallDraws && WallSpot(snake, wallDraws[i]) ==> wallDraws[i] in walls)
      && (forall w :: w in walls ==> w in wallDraws)
      && |foods| <= desired && (forall f :: f in foods ==> FoodSpot(walls, snake, f))
      && (|foods| < desired ==> forall c :: FoodSpot(walls, snake, c) ==> c in foods)
    }

    /**
     * `reset_game`: the start snake heading right, score 0, the clock
     * restarted, fresh walls, then 5 to 8 foods (fewer if fewer cells are
     * reachable).  The high score stays.
     */
    method ResetGame(now: real, wallDraws: seq<Pos>, shuffle: nat -> nat, desired: int)
      requires |wallDraws| == WallDraws && forall i :: 0 <= i < |wallDraws| ==> InBounds(wallDraws[i])
      requires 5 <= desired <= 8 && playerName != ""
      modifies this`snake, this`direction, this`gameOver, this`score, this`startTime, this`walls, this`foods
      ensures Valid()
      ensures snake == StartSnake && direction == (1, 0) && !gameOver && score == 0 && startTime == now
      ensures Restocked(wallDraws, desired)
    {
      snake := StartSnake;
      direction := (1, 0);
      gameOver := false;
      score := 0;
      startTime := now;
      walls := GenerateWalls(snake, wallDraws);
      SpawnInitialFoods(shuffle, desired);
    }

    /**
     * `spawn_initial_foods`: the reachable cells shuffled, and the first
     * min(desired, how many there are) of them become the foods.
     */
    method SpawnInitialFoods(shuffle: nat -> nat, desired: int)
      requires snake != [] && 0 <= desired
      modifies this`foods
      ensures Distinct(foods) && |foods| <= desired
      ensures forall f :: f in foods ==> FoodSpot(walls, snake, f)
      ensures |foods| < desired ==> forall c :: FoodSpot(walls, snake, c) ==> c in foods
    {
      foods := [];
      var reachable := ReachableCells(walls, snake);
      var shuffled := Shuffle(reachable, shuffle);
      var count := Min(desired, |shuffled|);
      foods := shuffled[..count];
      assert count < desired ==> foods == shuffled;
      forall f | f in foods
        ensures f in reachable
      {
        assert f in multiset(shuffled);
      }
      if count < desired {
        forall c | FoodSpot(walls, snake, c)
          ensures c in foods
        {
          assert c in multiset(reachable);
        }
      }
    }

    /**
     * `spawn_single_food`: one more food on a reachable cell that is not
     * food yet, picked by `random.choice`; nothing when there is none.
     */
    method SpawnSingleFood(pick: nat)
      requires snake != []
      modifies this`foods
      ensures foods == old(foods) || (|foods| == |old(foods)| + 1 && foods[..|old(foods)|] == old(foods))
      ensures foods != old(foods) ==> FoodSpot(walls, snake, foods[|old(foods)|]) && foods[|old(foods)|] !in old(foods)
      ensures foods == old(foods) ==> forall c :: FoodSpot(walls, snake, c) ==> c in foods
      ensures Distinct(old(foods)) ==> Distinct(foods)
      ensures forall f :: f in foods ==> f in old(foods) || FoodSpot(walls, snake, f)
    {
      var reachable := ReachableCells(walls, snake);
      var candidates := Unused(reachable, foods);
      if candidates == [] {
        return;
      }
      var c := candidates[pick % |candidates|];
      foods := foods + [c];
    }

    /** `change_direction(dx, dy)`: a reversal is ignored, any other direction replaces the current one. */
    method ChangeDirection(dx: int, dy: int)
      modifies this`direction
      ensures direction == Turned(old(direction), (dx, dy))
    {
      var (cx, cy) := direction;
      if (cx, cy) == (-dx, -dy) {
        return;
      }
      direction := (dx, dy);
    }

    /** Where the head goes next. */
    function NextHead(): Pos
      reads this
      requires snake != []
    {
      Ahead(snake[0], direction)
    }

    /** The next head leaves the grid, hits the snake (its tail included) or hits a wall. */
    predicate Collides()
      reads this
      requires snake != []
    {
      var h := NextHead();
      !InBounds(h) || h in snake || h in walls
    }

    /**
     * `end_game`: the game is over; a named player with a positive score
     * gets a leaderboard entry with the seconds played and the session's
     * high score; then `reset_game` starts the next game at once.
     */
    method EndGame(now: real, stamp: string, store: Leaderboard.ScoreFile,
                   wallDraws: seq<Pos>, shuffle: nat -> nat, desired: int)
      requires Valid()
      requires |wallDraws| == WallDraws && forall i :: 0 <= i < |wallDraws| ==> InBounds(wallDraws[i])
      requires 5 <= desired <= 8
      modifies this`snake, this`direction, this`gameOver, this`score, this`startTime, this`walls, this`foods, store
      ensures Valid() && highScore == old(highScore)
      ensures snake == StartSnake && direction == (1, 0) && !gameOver && score == 0 && startTime == now
      ensures Restocked(wallDraws, desired)
      ensures old(score) > 0 ==>
        store.file == SnakeRecord(old(store.file), playerName, old(score), highScore, Trunc(now - old(startTime)), stamp)
      ensures old(score) == 0 ==> unchanged(store)
    {
      gameOver := true;
      var elapsed := now - startTime;
      if playerName != "" && score > 0 {
        store.AddScore("snake", playerName, score,
          Some(map["time_s" := Leaderboard.Int(Trunc(elapsed)), "session_high" := Leaderboard.Int(highScore)]), stamp);
      }
      ResetGame(now, wallDraws, shuffle, desired);
    }

    /**
     * `step`, one tick: nothing once the game is over; a collision ends the
     * game (which restarts it); otherwise the head moves one cell, and
     * either eats the food there (score and length grow by one, that food
     * goes and a new one may appear) or the tail is dropped.
     */
    method Step(now: real, stamp: string, store: Leaderboard.ScoreFile,
                wallDraws: seq<Pos>, shuffle: nat -> nat, desired: int, pick: nat)
      requires Valid()
      requires |wallDraws| == WallDraws && forall i :: 0 <= i < |wallDraws| ==> InBounds(wallDraws[i])
      requires 5 <= desired <= 8
      modifies this`snake, this`direction, this`gameOver, this`score, this`highScore, this`startTime, this`walls, this`foods, store
      ensures Valid()
      ensures old(gameOver) ==> unchanged(this) && unchanged(store)
      ensures !old(gameOver) && old(Collides()) ==>
        && snake == StartSnake && direction == (1, 0) && score == 0 && !gameOver
        && highScore == old(highScore) && startTime == now && Restocked(wallDraws, desired)
      ensures !old(gameOver) && old(Collides()) && old(score) > 0 ==>
        store.file == SnakeRecord(old(store.file), playerName, old(score), highScore, Trunc(now - old(startTime)), stamp)
      ensures !old(gameOver) && old(Collides()) && old(score) == 0 ==> unchanged(store)
      ensures !old(gameOver) && !old(Collides()) ==>
        unchanged(store) && walls == old(walls) && direction == old(direction) && !gameOver && startTime == old(startTime)
      ensures !old(gameOver) && !old(Collides()) && old(NextHead()) in old(foods) ==>
        && snake == [old(NextHead())] + old(snake) && score == old(score) + 1 && highScore == Max(old(highScore), score)
        && Respawned(Without(old(foods), old(NextHead())), foods, walls, snake) && |foods| <= |old(foods)|
      ensures !old(gameOver) && !old(Collides()) && old(NextHead()) !in old(foods) ==>
        && snake == [old(NextHead())] + old(snake)[..|old(snake)| - 1]
        && score == old(score) && highScore == old(highScore) && foods == old(foods)
    {
      if gameOver {
        return;
      }
      var (dx, dy) := direction;
      var (hx, hy) := snake[0];
      var head := (hx + dx, hy + dy);
      if !(0 <= head.0 < Width && 0 <= head.1 < Height) {
        EndGame(now, stamp, store, wallDraws, shuffle, desired);
        return;
      }
      if head in snake {
        EndGame(now, stamp, store, wallDraws, shuffle, desired);
        return;
      }
      if head in walls {
        EndGame(now, stamp, store, wallDraws, shuffle, desired);
        return;
      }
      Advance(head, pick);
    }

    /** The moving part of `step`, for a head cell that is free. */
    method Advance(head: Pos, pick: nat)
      requires Valid() && InBounds(head) && head !in snake && head !in walls
      modifies this`snake, this`score, this`highScore, this`foods
      ensures Valid()
      ensures head in old(foods) ==>
        && snake == [head] + old(snake) && score == old(score) + 1 && highScore == Max(old(highScore), score)
        && Respawned(Without(old(foods), head), foods, walls, snake) && |foods| <= |old(foods)|
      ensures head !in old(foods) ==>
        && snake == [head] + old(snake)[..|old(snake)| - 1]
        && score == old(score) && highScore == old(highScore) && foods == old(foods)
    {
      snake := [head] + snake;
      if head in foods {
        score := score + 1;
        if score > highScore {
          highScore := score;
        }
        WithoutDistinct(foods, head);
        foods := Without(foods, head);
        assert forall f :: f in foods ==> Open(f, walls, snake);
        SpawnSingleFood(pick);
      } else {
        snake := snake[..|snake| - 1];
      }
    }
  }
}
