# Arcade game rule kernels, modelled in Dafny

This project models the rules of five Tkinter arcade games and their shared
score store: Minesweeper, Tic-Tac-Toe, 2048, Snake, Memory Match and the
JSON leaderboard. Widgets, colours and dialogs are left out. Each game's
module-level globals become one `Game` class. Each `root.after` callback
becomes an event method, and clock readings and random draws are
parameters. Pure helpers become functions, and lemmas state what the
source promises about them.

| file | module | models |
|---|---|---|
| `wrappers.dfy` | `Wrappers` | `Option`, Python's `None` |
| `time_format.dfy` | `TimeFormat` | the `format_time` of Minesweeper and Snake |
| `leaderboard.dfy` | `Leaderboard` | `Games/leaderboard_core.py`: the store as a map from game name to entry list |
| `minesweeper.dfy` | `Minesweeper` | `Games/minesweeper.py` |
| `tic_tac_toe.dfy` | `TicTacToe` | `Games/tic_tac_toe.py` |
| `game_2048.dfy` | `Game2048` | `Games/game_2048.py` |
| `snake.dfy` | `Snake` | `Games/snake.py` |
| `memory_match.dfy` | `MemoryMatch` | `Games/memory_match.py` |

Every game that saves a score takes a `Leaderboard.ScoreFile` argument.
The class's `file` field is the JSON file: missing, unreadable (not
parseable as JSON, or an OS error while opening or reading it), or
holding a store. `add_score` is the method `ScoreFile.AddScore`, and each
game states the exact store it leaves behind.

## Model

| member | source | states |
|---|---|---|
| TimeFormat.Decimal | Games/minesweeper.py:55-58 | `str(n)` has only digits, at least one, and exactly one when n < 10 |
| TimeFormat.Pad2 | Games/minesweeper.py:58 | `{n:02d}` has at least two digits, and exactly two below 100 |
| TimeFormat.FormatTime | Games/snake.py:60-64 | the colon is the third character from the end, and the text is five characters long below 100 minutes |
| TimeFormat.FormatBest | Games/minesweeper.py:52-58 | `None` prints as the dash; a time prints with the colon third from the end |
| TimeFormat.DecimalRoundTrip | Games/minesweeper.py:56-58 | reading `str(n)` back gives n |
| TimeFormat.LeadingZero | Games/minesweeper.py:58 | zero padding does not change the value read back |
| TimeFormat.Pad2RoundTrip | Games/minesweeper.py:58 | reading the padded field back gives n |
| TimeFormat.FormatTimeRoundTrip | Games/minesweeper.py:55-58 | minutes·60 + seconds read back from the text is t, and the seconds field is below 60 |
| Leaderboard.NewEntry | Games/leaderboard_core.py:35-40 | the entry holds the player, the score and the time stamp; a missing `extra` is stored as `{}` |
| Leaderboard.InsertMultiset | Games/leaderboard_core.py:44 | one insertion step of the sort adds exactly the new entry |
| Leaderboard.InsertSorted | Games/leaderboard_core.py:44 | inserting into a descending list keeps it descending |
| Leaderboard.InsertStable | Games/leaderboard_core.py:44 | inserting places the new entry after every entry with the same score |
| Leaderboard.SortDescSorted | Games/leaderboard_core.py:44 | `sort(key=score, reverse=True)` yields a list in descending score order |
| Leaderboard.SortDescPermutes | Games/leaderboard_core.py:44 | the sort yields a permutation of its input |
| Leaderboard.SortDescStable | Games/leaderboard_core.py:44 | for every score, the entries with that score keep their relative order (stability) |
| Leaderboard.InsertLowest | Games/leaderboard_core.py:44 | an entry scoring no more than every entry of a descending list goes last |
| Leaderboard.SortDescIdempotent | Games/leaderboard_core.py:44 | sorting a list that is already descending changes nothing |
| Leaderboard.AddedSorted | Games/leaderboard_core.py:42-45 | after `add_score` the game's list is sorted by descending score |
| Leaderboard.AddedLength | Games/leaderboard_core.py:42-45 | after `add_score` the game's list has min(old length + 1, 20) entries |
| Leaderboard.AddedFromOld | Games/leaderboard_core.py:42-45 | every kept entry is an old one or the new one, and none is kept more often than before plus the new one |
| Leaderboard.AddedStable | Games/leaderboard_core.py:42-45 | for each score, the kept entries with that score are a prefix of the old ones followed by the new entry |
| Leaderboard.AddedOthersUnchanged | Games/leaderboard_core.py:31-47 | other games' lists are unchanged; the game names are the old ones plus this game |
| Leaderboard.AddedUnknownGame | Games/leaderboard_core.py:32-33 | an unknown game gets a new list holding just the new entry |
| Leaderboard.AddedDropsLowScore | Games/leaderboard_core.py:42-45 | with 20 sorted entries, a new score no higher than the 20th (equal included) is dropped and the list is unchanged |
| Leaderboard.LoadFailureIsEmpty | Games/leaderboard_core.py:9-16 | a missing file, or one that fails to parse as JSON or to read, reads as the empty store, so `add_score` then writes a store with one game and one entry |
| Leaderboard.Top | Games/leaderboard_core.py:50-53 | the answer is the first min(limit, n) entries of the game's list, and `[]` for an unknown game |
| Leaderboard.ScoreFile.constructor | Games/leaderboard_core.py:6-16 | the store starts as the given file state |
| Leaderboard.ScoreFile.AddScore | Games/leaderboard_core.py:24-47 | the file afterwards holds the loaded store with the new entry appended, sorted and cut to 20 |
| Leaderboard.ScoreFile.GetLeaderboard | Games/leaderboard_core.py:50-53 | returns `Top` of the loaded store, with default limit 10; sorted lists give sorted answers |
| Leaderboard.ScoreFile.GetAllGames | Games/leaderboard_core.py:56-59 | exactly the stored game names, none when the file is missing or unreadable |
| Minesweeper.DimensionsRoom | Games/minesweeper.py:78-83 | every difficulty has mines and room for the 3x3 safe zone plus all mines |
| Minesweeper.Set | Games/minesweeper.py:163 | a cell update changes that cell and no other |
| Minesweeper.FreshGrid | Games/minesweeper.py:106-116 | `create_board`'s grid is rows x cols cells, all unmined, hidden, unflagged, count 0 |
| Minesweeper.GridCountUpdate | Games/minesweeper.py:207-214 | after one cell changes, the number of cells with a property changes by exactly what that cell contributed before and after |
| Minesweeper.MinesAroundZero | Games/minesweeper.py:169-179 | the stored count is 0 exactly when no in-bounds neighbour is a mine, and it is at most 8 |
| Minesweeper.MinesAroundSame | Games/minesweeper.py:169-179 | the neighbour count depends only on where the mines are |
| Minesweeper.SameLayoutConsistent | Games/minesweeper.py:165-179 | revealing or flagging keeps every stored count correct |
| Minesweeper.ZeroMeansSafeNeighbours | Games/minesweeper.py:254-263 | on a consistent board every neighbour of a safe 0 is safe, so flood fill never opens a mine |
| Minesweeper.OpenedTrans | Games/minesweeper.py:241-263 | successive rounds of opening compose |
| Minesweeper.SettledGrows | Games/minesweeper.py:241-263 | a cell whose neighbours are all covered stays so while cells are opened |
| Minesweeper.OpenedSet | Games/minesweeper.py:254-255 | revealing a hidden, unflagged, safe cell is an opening step |
| Minesweeper.PushZero | Games/minesweeper.py:254-263 | revealing a safe 0 pushes exactly that cell onto the stack |
| Minesweeper.PushNone | Games/minesweeper.py:254-260 | revealing a safe cell with a nonzero count leaves the stack alone |
| Minesweeper.SpreadOpen | Games/minesweeper.py:245-263 | one offset of the scan keeps the scan invariant |
| Minesweeper.FillStep | Games/minesweeper.py:243-263 | popping a cell and opening around it keeps the flood-fill invariant, including that every cell opened so far is reached from the start by a walk through opened 0s, and it uses up hidden cells or stack entries |
| Minesweeper.FillDone | Games/minesweeper.py:243 | when the stack is empty, the start cell and every newly opened 0 have all neighbours covered, and every opened cell is reached from the start by a walk of neighbouring cells through opened 0s |
| Minesweeper.FillStart | Games/minesweeper.py:242 | the fill starts with the clicked cell on the stack and nothing opened yet, which satisfies the flood-fill invariant |
| Minesweeper.FillReached | Games/minesweeper.py:243-263 | a pass around the popped start or opened 0 opens only its neighbours, so every opened cell is still reached from the start through opened 0s |
| Minesweeper.ReachesStep | Games/minesweeper.py:244-255 | a neighbour of the start, or of a reached opened 0, is reached one step further |
| Minesweeper.ReachesGrows | Games/minesweeper.py:243-263 | a cell reached from the start stays reached while more cells open |
| Minesweeper.ReachedStopsAtNumbers | Games/minesweeper.py:257-263 | when no neighbour of the start is an opened 0, only the start and its neighbours can have opened: numbered cells stop the fill |
| Minesweeper.FillSources | Games/minesweeper.py:243-263 | after a pass the stack still holds only the start cell and newly opened 0s |
| Minesweeper.NearOpen | Games/minesweeper.py:251-263 | opening a neighbour of the popped cell reveals only cells next to it |
| Minesweeper.RevealThenFill | Games/minesweeper.py:224-238 | revealing a 0 and then flood filling is an opening of the board before the reveal |
| Minesweeper.RevealOneKeeps | Games/minesweeper.py:224 | revealing an unflagged cell keeps layout, counts and flag and mine totals |
| Minesweeper.ToggleKeeps | Games/minesweeper.py:207-214 | toggling a hidden cell's flag moves the flag total by exactly one and keeps everything else |
| Minesweeper.OpenedKeeps | Games/minesweeper.py:241-263 | opening cells keeps the flag and mine totals and the board invariants |
| Minesweeper.WinScore | Games/minesweeper.py:305-306 | max(1, 10000 − 50·elapsed) is at least 1 |
| Minesweeper.WinScoreMonotone | Games/minesweeper.py:305-306 | a faster win never scores less, and strictly more while above the floor |
| Minesweeper.BestAfter | Games/minesweeper.py:299-300 | the best time after a win is the old best or the new time, whichever is smaller |
| Minesweeper.Game.constructor | Games/minesweeper.py:339-348 | start-up: the name (default "Player"), the difficulty and a fresh board waiting for the first click |
| Minesweeper.Game.CreateBoard | Games/minesweeper.py:86-133 | a fresh grid, the game running, waiting for the first click, MINES left, no clock |
| Minesweeper.Game.NewGame | Games/minesweeper.py:326-328 | the chosen difficulty's table and a fresh board; best time and name are kept |
| Minesweeper.Game.NeighborCount | Games/minesweeper.py:169-178 | the inner loops count the mines among the in-bounds neighbours |
| Minesweeper.Game.PlaceMines | Games/minesweeper.py:151-179 | exactly the sampled cells are mines, MINES of them, none in the safe zone; every count is correct; nothing revealed or flagged |
| Minesweeper.Game.MarkMines | Games/minesweeper.py:162-163 | the sampled cells, and only they, become mines |
| Minesweeper.Game.StoreCounts | Games/minesweeper.py:165-179 | every non-mine cell stores its neighbour count and nothing else changes |
| Minesweeper.Game.Visit | Games/minesweeper.py:246-263 | one offset of the scan keeps the flood-fill scan invariant |
| Minesweeper.Game.OpenAround | Games/minesweeper.py:244-263 | one pass around a popped cell opens only hidden, unflagged, safe neighbours of that cell, pushes exactly the new 0s, and covers every neighbour |
| Minesweeper.Game.FloodFill | Games/minesweeper.py:241-263 | only hidden, unflagged, safe cells are opened and nothing is hidden again; every opened 0 has all its neighbours covered; and every opened cell is reached from the start by a walk of neighbouring cells through opened 0s (both directions of "the connected region") |
| Minesweeper.Game.EndGame | Games/minesweeper.py:292-316 | the clock stops; a win updates the best time and, for a named player and a positive time, records max(1, 10000 − 50·t) with the difficulty, time and mines |
| Minesweeper.Game.RevealCell | Games/minesweeper.py:218-238 | nothing on a revealed or flagged cell; a mine is shown and ends the game; a safe cell opens and, from a 0, exactly the connected region the flood fill reaches opens, every opened cell joined to the start through opened 0s |
| Minesweeper.Game.OpenSafe | Games/minesweeper.py:224-238 | the safe branch opens the cell and, from a 0, the flood-filled region: no fewer cells (all neighbours of opened 0s covered) and no more (each opened cell is reached from the start through opened 0s) |
| Minesweeper.Game.CheckWin | Games/minesweeper.py:276-289 | nothing once over; otherwise the game ends as a win exactly when every safe cell is revealed |
| Minesweeper.Game.AllSafeRevealed | Games/minesweeper.py:280-284 | the scan answers true exactly when every non-mine cell is revealed |
| Minesweeper.Game.StartGame | Games/minesweeper.py:189-194 | the first click places the sampled mines and starts the clock; the grid is exactly `Planted`: hidden, unflagged, with those mines and their counts |
| Minesweeper.Planted | Games/minesweeper.py:151-179 | the grid `place_mines` leaves: the sampled cells are the mines, and every safe cell holds its count of neighbouring mines |
| Minesweeper.PlantedUnique | Games/minesweeper.py:151-179 | a hidden, unflagged grid whose mines are exactly the sample and whose counts are consistent is that grid |
| Minesweeper.Game.OnLeftClick | Games/minesweeper.py:182-196 | ignored when over or flagged; mines are placed once, on the first accepted click; starting from that grid, a revealed cell stays, a mine is shown alone, a safe cell opens with its flood-filled region; the game ends exactly on a mine or a cleared board, and a win records the best time and the score |
| Minesweeper.Game.StartAndReveal | Games/minesweeper.py:189-196 | the first accepted click: mines placed as sampled, clock started, then the cell is revealed from the planted grid and the win test runs |
| Minesweeper.Game.RevealAndCheck | Games/minesweeper.py:195-196 | after the mines are placed: the cell is revealed (alone on a mine, with its flood-filled region when safe), and the game ends exactly on a mine or a cleared board, a win saving the best time and the score |
| Minesweeper.Game.OnRightClick | Games/minesweeper.py:199-215 | ignored when over, before the first click or on a revealed cell; otherwise the flag toggles and mines-left moves the other way, so it stays MINES − flags |
| TicTacToe.Place | Games/tic_tac_toe.py:66 | writing a mark changes that cell and no other |
| TicTacToe.EmptyBoard | Games/tic_tac_toe.py:20 | the start board is 3x3 and empty |
| TicTacToe.CheckLinesSpec | Games/tic_tac_toe.py:32-44 | the line loop reports a winner only for a filled line, always reports one when a line is filled, and otherwise reports a draw exactly on a full board |
| TicTacToe.EvaluateSpec | Games/tic_tac_toe.py:31-44 | a symbol only when it fills a line; "Draw" exactly on a full board with no line; `None` exactly with an empty cell and no line |
| TicTacToe.CellIndex | Games/tic_tac_toe.py:52 | row-major order numbers the nine cells 0 to 8, one to one |
| TicTacToe.LineNeedsThree | Games/tic_tac_toe.py:32-41 | a line of a mark needs three cells of that mark |
| TicTacToe.NoEarlyWinner | Games/tic_tac_toe.py:31-44 | with turn-taking counts, no winner is reported before five marks |
| TicTacToe.MovesBelow | Games/tic_tac_toe.py:52 | the comprehension so far lists exactly the empty cells among the first n |
| TicTacToe.AvailableMoves | Games/tic_tac_toe.py:49-52 | `get_available_moves` lists exactly the empty cells |
| TicTacToe.AvailableMovesOrdered | Games/tic_tac_toe.py:52 | in row-major order, hence without repeats |
| TicTacToe.MovesEmptyIffFull | Games/tic_tac_toe.py:49-52 | no legal move exactly when the board is full |
| TicTacToe.PlaceDecreasesEmpties | Games/tic_tac_toe.py:66 | each trial move leaves one empty cell fewer, so the search ends |
| TicTacToe.Terminal | Games/tic_tac_toe.py:55-62 | +1 for an O win, −1 for an X win, 0 for a draw |
| TicTacToe.BestOfStep | Games/tic_tac_toe.py:65-70 | one round of the search loop keeps a strictly better score |
| TicTacToe.BestOfSpec | Games/tic_tac_toe.py:63-80 | over values in [−1, 1] the loop returns the largest value when maximizing and the smallest when minimizing, and that value occurs |
| TicTacToe.ValueRange | Games/tic_tac_toe.py:54-80 | minimax returns −1, 0 or 1 |
| TicTacToe.ValueIsBestChild | Games/tic_tac_toe.py:63-80 | minimax plays optimally: the maximum (minimum) child value, reached by some legal move |
| TicTacToe.ValueUnfold | Games/tic_tac_toe.py:63-80 | at an undecided board there is a legal move, and the value is the loop over the child values |
| TicTacToe.TerminalValue | Games/tic_tac_toe.py:55-62 | a finished board is worth +1 for O, −1 for X, 0 for a draw |
| TicTacToe.FirstMaxFromSpec | Games/tic_tac_toe.py:83-92 | the strict `>` keeps the first index of the largest value, −1 for no moves |
| TicTacToe.ImpossibleChoiceIndex | Games/tic_tac_toe.py:82-92 | the move kept is that of the first largest child value |
| TicTacToe.ImpossibleChoiceLegal | Games/tic_tac_toe.py:82-92 | an empty cell, and `None` exactly on a full board |
| TicTacToe.ImpossibleChoiceBest | Games/tic_tac_toe.py:82-92 | every empty cell is worth at most the chosen one, and strictly less when it comes earlier in row-major order |
| TicTacToe.FirstWinning | Games/tic_tac_toe.py:96-107 | the probe loop finds a move that completes a line, or reports that none does |
| TicTacToe.FirstWinningFirst | Games/tic_tac_toe.py:96-107 | the move found is the earliest winning one |
| TicTacToe.HardChoiceLegal | Games/tic_tac_toe.py:94-110 | the hard bot names an empty cell, and none only on a full board |
| TicTacToe.HardChoiceWins | Games/tic_tac_toe.py:96-100 | the hard bot takes a winning move whenever one exists |
| TicTacToe.HardChoiceBlocks | Games/tic_tac_toe.py:102-106 | without a winning move, it blocks an immediate X win whenever there is one |
| TicTacToe.BotChoice | Games/tic_tac_toe.py:147-154 | whatever the difficulty, the bot plays an empty cell, and passes only on a full board |
| TicTacToe.PlaceUndo | Games/tic_tac_toe.py:66-68 | undoing a probe restores the board |
| TicTacToe.Game.constructor | Games/tic_tac_toe.py:19-29 | the initial globals: empty board, X to play, no mode, zero counters |
| TicTacToe.Game.ChooseMode | Games/tic_tac_toe.py:262-303 | bot mode sets the difficulty and who starts; two-player mode sets the starting symbol; board and counters kept |
| TicTacToe.Game.Minimax | Games/tic_tac_toe.py:54-80 | returns the minimax value and leaves the board exactly as it was |
| TicTacToe.Game.BestMoveImpossible | Games/tic_tac_toe.py:82-92 | returns the first best move (see the lemmas above) and restores the board |
| TicTacToe.Game.FindWinning | Games/tic_tac_toe.py:96-107 | the probe loop returns the first winning move and restores the board |
| TicTacToe.Game.BestMoveHard | Games/tic_tac_toe.py:94-110 | win, else block, else centre, else the random pick; the board is restored |
| TicTacToe.Game.BestMoveEasy | Games/tic_tac_toe.py:112-114 | the random legal move, `None` on a full board |
| TicTacToe.Game.EndGame | Games/tic_tac_toe.py:122-134 | the game is over and exactly one counter rises by one |
| TicTacToe.Game.BotMove | Games/tic_tac_toe.py:143-167 | nothing when over or full; otherwise O plays the strategy's move; then a decided game ends and one counter (draws, X wins or O wins) rises by one, or X is to play with the counters unchanged |
| TicTacToe.Game.OnClick | Games/tic_tac_toe.py:169-193 | ignored when over, on the bot's turn or on an occupied cell; otherwise the mark goes into exactly that cell; then a decided game ends and exactly one counter rises by one, or the turn passes with the counters unchanged |
| TicTacToe.Game.Conclude | Games/tic_tac_toe.py:122-134 | after a mark: a decided board ends the game and adds one to the draw, X or O counter as the verdict says; an undecided one hands the turn on and leaves the counters alone |
| TicTacToe.Game.ResetGame | Games/tic_tac_toe.py:195-216 | an empty board and a running game; the starter follows the mode; counters kept |
| Game2048.NonZero | Games/game_2048.py:90 | the non-zero tiles, in order; a line without zeros is unchanged |
| Game2048.Merge | Games/game_2048.py:93-102 | the merge scan never lengthens the line |
| Game2048.CompressLine | Games/game_2048.py:89-104 | the method returns `Compress(line)`: its line and its gain (their properties are the lemmas below) |
| Game2048.MergeTiles | Games/game_2048.py:93-102 | the `while` loop returns `Merge(tiles)`, the left-to-right merge of the non-zero tiles |
| Game2048.MergeSum | Games/game_2048.py:94-102 | merging conserves the total |
| Game2048.MergePositive | Games/game_2048.py:94-102 | merging keeps tiles positive |
| Game2048.MergeNoPair | Games/game_2048.py:95-102 | no points exactly when no two neighbouring tiles are equal, and then nothing changes |
| Game2048.MergeCount | Games/game_2048.py:95-102 | the scan never makes more output tiles than it takes inputs, and at least half as many; points are gained exactly when fewer tiles come out than went in |
| Game2048.MergeGroups | Games/game_2048.py:95-102 | the scan splits the tiles into consecutive groups, each a lone tile (whose right neighbour differs) or two equal neighbours, so each tile merges at most once, left to right; each output tile is its group's total; the points gained are the sum of the tiles the merges made |
| Game2048.GroupedIsMerge | Games/game_2048.py:95-102 | conversely, any such left-to-right grouping of the tiles is exactly the scan's output and gain |
| Game2048.GroupedTail | Games/game_2048.py:95-102 | dropping the first group of a grouping leaves a grouping of the remaining tiles |
| Game2048.CompressShape | Games/game_2048.py:89-104 | for a line of at most 5 tiles: 5 tiles, non-zero ones first, zeros after |
| Game2048.CompressSum | Games/game_2048.py:94-104 | the tiles' total is conserved |
| Game2048.CompressGain | Games/game_2048.py:94-104 | no points exactly when no neighbours are equal; at most half the tiles disappear |
| Game2048.CompressExample | Games/game_2048.py:95-99 | [2,2,2,2,0] becomes [4,4,0,0,0] and gains 8 |
| Game2048.FixedLine | Games/game_2048.py:89-104 | a full line without equal neighbours does not change |
| Game2048.ReverseReverse | Games/game_2048.py:130-132 | reversing twice restores a row |
| Game2048.MirrorSquare | Games/game_2048.py:124-140 | reversing every row keeps the board 5x5 and is its own inverse |
| Game2048.TransposeSquare | Games/game_2048.py:143-159 | columns as rows: 5x5, its own inverse, cell (i, j) is cell (j, i) |
| Game2048.ShiftLeftSquare | Games/game_2048.py:107-121 | `move_left` compresses each row in place |
| Game2048.ShiftSquare | Games/game_2048.py:107-180 | every move keeps the board 5x5 |
| Game2048.ShiftKeepsTotals | Games/game_2048.py:107-180 | left and right keep each row's total; up and down keep each column's total |
| Game2048.StuckCells | Games/game_2048.py:183-193 | the scan's per-cell test holds everywhere exactly on a stuck board |
| Game2048.StuckLines | Games/game_2048.py:183-193 | a stuck board's rows and columns are full, with no equal neighbours |
| Game2048.StuckIsFinal | Games/game_2048.py:183-193 | on a stuck board no move changes the board or the score |
| Game2048.EmptiesExact | Games/game_2048.py:75 | `empty` lists exactly the cells holding 0 |
| Game2048.EmptiesPut | Games/game_2048.py:78-79 | writing a tile into an empty cell leaves one empty cell fewer |
| Game2048.FixedRows | Games/game_2048.py:107-121 | a board whose rows are full with no equal neighbours does not change when moved left and gains nothing |
| Game2048.WriteColumn | Games/game_2048.py:152-153 | writing a column back changes exactly that column |
| Game2048.Game.constructor | Games/game_2048.py:63-71 | start-up: an empty board with two random tiles added one after the other, so 23 empty cells; score and best 0 |
| Game2048.Game.ScoreAdd | Games/game_2048.py:82-86 | the score rises by val and the best score is the maximum of the old best and the score |
| Game2048.Game.MoveLeft | Games/game_2048.py:107-121 | the board becomes every row compressed; `moved` exactly when it changed; the score rises by the gain only then |
| Game2048.Game.MoveRight | Games/game_2048.py:124-140 | the same with reversed rows written back reversed |
| Game2048.Game.MoveUp | Games/game_2048.py:143-159 | the same with columns written back as columns |
| Game2048.Game.MoveDown | Games/game_2048.py:162-180 | the same with reversed columns written back reversed |
| Game2048.Game.IsGameOver | Games/game_2048.py:183-193 | true exactly when no cell is empty and no two adjacent tiles are equal |
| Game2048.Game.AddRandomTile | Games/game_2048.py:74-79 | nothing on a full board; otherwise a 2 or a 4 goes into the chosen empty cell, leaving one empty cell fewer |
| Game2048.Game.SaveScoreIfNeeded | Games/game_2048.py:208-219 | at most once per game; writes the score only for a named player with a positive score |
| Game2048.Game.FinishGame | Games/game_2048.py:222-228 | ends the game once; an unsaved positive score is saved with the best score; an already saved or zero score leaves the leaderboard alone |
| Game2048.Game.Move | Games/game_2048.py:231-253 | nothing when over or for an unknown direction; a tile is added only after a move that changed the board, and the score rises by its gain; the game ends exactly on a stuck board, and then the score is saved once (unless it is 0); a running game leaves the leaderboard alone |
| Game2048.Game.SettleAfterMove | Games/game_2048.py:247-253 | after a changing move: a random tile, then the game ends exactly on a stuck board, saving an unsaved positive score; otherwise the leaderboard and the saved flag stay |
| Game2048.Game.ShiftBoard | Games/game_2048.py:236-245 | the dispatch runs the named move |
| Game2048.Game.ResetBoard | Games/game_2048.py:63-71 | score 0, running, unsaved; the board is an empty board with two random tiles added one after the other; the best score stays |
| Game2048.CompressRows | Games/game_2048.py:107-121 | `move_left`'s loop rebuilds the shifted board and reports a change exactly when the board differs |
| Game2048.CompressRowsReversed | Games/game_2048.py:124-140 | `move_right`'s loop, likewise |
| Game2048.CompressColumns | Games/game_2048.py:143-159 | `move_up`'s loop, likewise |
| Game2048.CompressColumnsReversed | Games/game_2048.py:162-180 | `move_down`'s loop, likewise |
| Snake.Trunc | Games/snake.py:69 | Python's `int()` on a float truncates toward zero |
| Snake.Speed | Games/snake.py:67-72 | the tick is between 60 and 140 ms |
| Snake.SpeedMonotone | Games/snake.py:67-72 | the game only speeds up |
| Snake.SpeedEnds | Games/snake.py:67-72 | 140 ms in the first second; 60 ms from 80 seconds on |
| Snake.Turned | Games/snake.py:209-214 | an exact reversal is ignored; any other direction replaces the current one |
| Snake.TurnNeverReverses | Games/snake.py:209-214 | a single turn is never the exact reverse of the current direction |
| Snake.DoubleTurnReverses | Games/snake.py:209-214 | two turns before a tick (up, then left) do reverse the starting snake, whose next head is then its second segment |
| Snake.ReachesNeighbor | Games/snake.py:155-166 | reachability spreads to open neighbours |
| Snake.ReachableCells | Games/snake.py:145-169 | exactly the open cells 4-connected to the head, without repeats |
| Snake.Search | Games/snake.py:150-166 | the visited set is the head's closed, reachable component |
| Snake.Expand | Games/snake.py:156-166 | one turn of the search marks and queues every open unvisited neighbour |
| Snake.GenerateWalls | Games/snake.py:123-142 | at most 40 distinct walls, none on the snake or near the centre; fewer than 40 only when every valid draw was taken |
| Snake.Shuffle | Games/snake.py:176 | `random.shuffle` permutes the list and keeps it free of repeats |
| Snake.SwapKeeps | Games/snake.py:176 | one swap permutes and keeps distinctness |
| Snake.Unused | Games/snake.py:186 | the candidates are the reachable cells that are not food |
| Snake.Without | Games/snake.py:245 | `remove` takes out exactly one occurrence |
| Snake.WithoutDistinct | Games/snake.py:245 | on a list without repeats it leaves exactly the other items |
| Snake.Game.constructor | Games/snake.py:291-300 | the name (default "Player"), then a fresh game with high score 0, its walls and foods built from the draws as `reset_game` builds them |
| Snake.Game.ResetGame | Games/snake.py:192-206 | start snake heading right, score 0, clock restarted; walls from the draws (every valid draw when fewer than 40); at most `desired` foods, all on reachable cells, and fewer only when every reachable cell holds food; the high score stays |
| Snake.Game.SpawnInitialFoods | Games/snake.py:172-179 | min(desired, #reachable) distinct reachable cells |
| Snake.Game.SpawnSingleFood | Games/snake.py:182-189 | one new reachable cell that is not food yet, or nothing when there is none |
| Snake.Game.ChangeDirection | Games/snake.py:209-214 | the direction becomes `Turned(old, wanted)` |
| Snake.Game.EndGame | Games/snake.py:254-276 | over; a positive score is recorded with the seconds and the session high; then a fresh game starts: start snake heading right, score 0, clock restarted, walls from the draws and min(desired, reachable) foods on reachable free cells |
| Snake.Game.Step | Games/snake.py:217-251 | nothing when over; a collision (border, any segment including the tail, wall) ends and restarts the game (start snake heading right, score 0, walls and foods rebuilt from the draws), saving a positive score and leaving the leaderboard alone at 0; otherwise the snake grows by eating (that food goes and one reachable free cell becomes food if any exists) or moves with its tail removed |
| Snake.Game.Advance | Games/snake.py:239-248 | eating grows the snake by the new head, adds one to the score, raises the high score to it, removes that food and appends one reachable, free cell that was not food, or nothing when no such cell exists; otherwise the head moves and the tail goes, with score and foods unchanged |
| MemoryMatch.MatchScoreMonotone | Games/memory_match.py:267-270 | a slower game or one with more attempts never scores more |
| MemoryMatch.Dimensions | Games/memory_match.py:7-11 | every level has a positive number of rows and columns |
| MemoryMatch.PairsFit | Games/memory_match.py:191-193 | rows·cols is twice the pair count, which is (rows·cols) // 2 and at most 18, so the `ValueError` never happens |
| MemoryMatch.DealSize | Games/memory_match.py:195-197 | a shuffle of the items fills the grid exactly |
| MemoryMatch.Items | Games/memory_match.py:195-196 | `chosen * 2` has twice as many items as pairs |
| MemoryMatch.SymbolsOnce | Games/memory_match.py:195 | each of the first n symbols appears once among the chosen |
| MemoryMatch.ItemsTwice | Games/memory_match.py:195-197 | after the shuffle, each of the first n symbols appears exactly twice and no other symbol appears |
| MemoryMatch.FillGrid | Games/memory_match.py:199-203 | the nested loops write the shuffled items row by row: the grid read row by row is the deal |
| MemoryMatch.FillRow | Games/memory_match.py:200-203 | one row takes the next items of the deal |
| MemoryMatch.CountSet | Games/memory_match.py:242-243 | disabling a card that was enabled raises the count of disabled cards by one |
| MemoryMatch.CountBound | Games/memory_match.py:242-246 | at most rows·cols cards are disabled, and all of them exactly at that count |
| MemoryMatch.NotFull | Games/memory_match.py:242-246 | while some card is enabled, fewer than all are disabled |
| MemoryMatch.MatchScore | Games/memory_match.py:267-270 | max(1, 10000 − (50·elapsed + 20·moves)) is at least 1 |
| MemoryMatch.Click | Games/memory_match.py:221-257 | ignored while locked or on a face-up card; a first pick only records the card; a second adds exactly one attempt and clears the pick, then counts a pair and disables both cards on equal symbols, or locks and schedules `hide` on different ones |
| MemoryMatch.Hidden | Games/memory_match.py:250-254 | `hide` turns the attempt's two cards face down and unlocks the input |
| MemoryMatch.ResetTableAsWritten | Games/memory_match.py:205-209 | `reset_game` as written clears the table but keeps the scheduled `hide`s; the table stays shaped |
| MemoryMatch.ResetTable | Games/memory_match.py:205-218 | a reset that also cancels pending `hide`s satisfies the pairing invariant with zero pairs and zero attempts |
| MemoryMatch.ClickKeepsInv | Games/memory_match.py:221-257 | every click keeps the pairing invariant: disabled cards are twice the pairs, the lock is held exactly while `hide` is pending, face-up cards are exactly the matched ones, the first pick and the pending pair; the two picks of an attempt differ, and a second pick happens only while pairs remain |
| MemoryMatch.HiddenKeepsInv | Games/memory_match.py:250-254 | `hide` keeps the pairing invariant and leaves nothing pending |
| MemoryMatch.EndMeansCleared | Games/memory_match.py:245-246 | under the invariant, all pairs are found exactly when every card is disabled |
| MemoryMatch.AllSetCount | Games/memory_match.py:245-246 | an all-disabled grid counts rows·cols |
| MemoryMatch.StaleHidePairsCardWithItself | Games/memory_match.py:188-218 | with `reset_game` as written, a `hide` left over from the previous game can pair a card with itself (see Findings) |
| MemoryMatch.ResetCancelsStaleHide | Games/memory_match.py:188-218 | with the corrected reset, the same click keeps the invariant and nothing is pending |
| MemoryMatch.Game.constructor | Games/memory_match.py:295-309 | start-up: the name (default "Player"), the Easy board, then a reset: the deal, no pick, no lock, zero counters, the clock started |
| MemoryMatch.Game.ResetGameAsWritten | Games/memory_match.py:188-218 | `reset_game` as written: deals the items row by row, clears the table and counters, restarts the clock, and keeps scheduled `hide`s |
| MemoryMatch.Game.DealCards | Games/memory_match.py:199-203 | the grid read row by row is the deal |
| MemoryMatch.Game.ClearTable | Games/memory_match.py:205-209 | every card face down and enabled; pick, lock, pairs, attempts and saved flag cleared |
| MemoryMatch.Game.StartTimer | Games/memory_match.py:173-177 | the clock starts now and runs |
| MemoryMatch.Game.ResetGame | Games/memory_match.py:188-218 | the corrected reset: as written, and the pending `hide`s are cancelled, so the pairing invariant holds |
| MemoryMatch.Game.SetDifficulty | Games/memory_match.py:76-81 | the level's grid, then a corrected reset: a fresh face-down table dealt as given, unsaved, and the clock restarted at `now` |
| MemoryMatch.Game.CreateBoard | Games/memory_match.py:140-169 | the new level's size; every card face down and not matched (fresh, enabled buttons), the values not yet dealt (all placeholders), no scheduled `hide` left; the lock and the counters are untouched |
| MemoryMatch.Game.OnClick | Games/memory_match.py:221-257 | the table changes as `Click` says; the last pair stops the clock and saves the score once (when attempts were made), otherwise the store stays; any other click leaves the clock, the saved flag and the store alone; the pairing invariant is kept |
| MemoryMatch.Game.Pick | Games/memory_match.py:222-257 | a click that is not ignored is the first or the second card of an attempt, with the same table, clock and store effects as `on_click` |
| MemoryMatch.Game.PickFirst | Games/memory_match.py:230-233 | the first card turns up and is remembered |
| MemoryMatch.Game.PickSecond | Games/memory_match.py:234-257 | the second card: a pair (ending the game on the last one, which stops the clock and saves the score once) or a mismatch; otherwise the clock and the store stay |
| MemoryMatch.Game.PickPair | Games/memory_match.py:234-246 | one more attempt and pair; both cards disabled |
| MemoryMatch.Game.PickMismatch | Games/memory_match.py:247-257 | one more attempt, the lock set and `hide` scheduled |
| MemoryMatch.Game.Hide | Games/memory_match.py:250-254 | the table changes as `Hidden` says, keeping the pairing invariant |
| MemoryMatch.Game.SaveScoreIfNeeded | Games/memory_match.py:260-282 | at most once, never before the first attempt or the clock; stores the score with level, seconds and attempts |
| MemoryMatch.Game.EndGame | Games/memory_match.py:285-292 | the clock stops and the score is saved |

## Left out

- Tkinter: widgets, colours, canvas drawing, window geometry, hover effects, message boxes and labels. A Memory Match button's shown text is `faceUp`, and its disabled state is `matched`.
- Dialogs (player name, difficulty, mode, who starts) are parameters. An empty name becomes "Player" as in the source. The retry loops of the dialogs are not modelled; the model takes only a valid answer.
- The `root.after` timers are event methods the caller invokes: Tic-Tac-Toe's `BotMove`, Snake's `Step` and Memory Match's `Hide`. The timer label refreshes (`update_timer`) only redraw text and are left out.
- Clocks are parameters. Minesweeper and Memory Match take whole seconds, so `int(time.time() - start_time)` is the difference of two integers. Snake takes real seconds and truncates explicitly. The ISO time stamp of a leaderboard entry is a string parameter.
- Randomness is a parameter: the mine sample, `random.choice` indices, the 10% four, `randint` draws, and Memory Match's shuffled deal. Snake's `random.shuffle` is modelled as CPython's Fisher–Yates loop over a given draw function.
- Leaderboard JSON reading and writing: the file is a `FileState`. A missing file, one that is not parseable as JSON, or an OS error reads as `{}`, and `_save_data` writes the whole store. Scores are integers, and `extra` values are integers or strings.
- Leaderboard files that are not UTF-8, or that parse as JSON of another shape than an object of entry lists: `_load_data` does not catch these (leaderboard_core.py:13-16), so the source raises, in `_load_data` or later in `add_score`/`get_leaderboard`. The model has no such file state.
- Leaderboard.ScoreFile.GetAllGames: returns the names as a set, because the order of `list(data.keys())` depends on the JSON file.
- Snake.ReachableCells: the visited set's iteration order is not modelled, so the result is specified as a set of cells without repeats.
- MemoryMatch.PairsFit: the `ValueError` of `reset_game` is shown unreachable for the three levels, so no error path is modelled.
- MemoryMatch.Game.CreateBoard: `create_board` destroys the old buttons. A `hide` still scheduled would then fail on a destroyed widget before it clears the lock. The model drops such callbacks, which has the same effect.
- MemoryMatch.Game.CreateBoard: also clears the first pick, which `create_board` leaves alone. The first pick may name a cell that is not on the new grid, and every caller runs `reset_game` right after, which clears it (memory_match.py:80-81, 308-309).
- Memory Match's symbols are their indices 0–17 in the emoji table; only equality of symbols matters.
- Snake's `draw`, `update_hud` and the `format_time` call in the message box are display only. `format_time` itself is `TimeFormat.FormatTime`.
- Tic-Tac-Toe's `check_winner` is `evaluate_board` of the global board; `update_score_label` and the status texts are display only.
- TicTacToe.ValueIsBestChild: the bot's minimax choice is proved best one position at a time, but the whole-game claim that the bot never loses from an empty board is not proved. Stating it means evaluating the full game tree, about half a million positions, which is beyond what the verifier can unfold.

## Findings

| source | as written | input that shows it | evidently intended | confidence | as-written member | corrected member |
|---|---|---|---|---|---|---|
| Games/memory_match.py:188-218, 250-256 | `reset_game` does not cancel a `hide` scheduled by the previous game's mismatch; the callback later turns its two buttons face down and clears the lock, whatever the new game did with them | pick two different symbols, press New Game within 700 ms, pick the top-left card; the old `hide` turns it face down while it is `first_pick`; click it again: it is paired with itself, and `pairs_found` becomes 1 while only one card is disabled | a new game starts with no callbacks of the old one pending | medium, not executed | MemoryMatch.StaleHidePairsCardWithItself (with MemoryMatch.Game.ResetGameAsWritten) | MemoryMatch.Game.ResetGame (with MemoryMatch.ResetCancelsStaleHide) |
