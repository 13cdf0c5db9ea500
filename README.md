# Fifteen puzzle engine

A Dafny model of the engine of a 4 x 4 sliding-tile puzzle (the `pt.ipbeja.app.model` package). The model covers:

- the two value records: `Position`, an immutable (line, column) pair with a bounds check, and `Move`, a tile sliding from `begin` into the empty cell at `end`;
- the engine class `Model`. It owns a 4 x 4 `int` board that swaps change in place, the cached position of the empty cell, the move history (a deque whose head is the most recent move) and the elapsed-time counter.

Modules, one per source concept:

- `Options`: `Option`, which stands in for Java's `null`.
- `Decimal`: Java's rendering of an `int` (`i + ""`) and a parser that inverts it.
- `Positions`: `Position.java`, together with the board dimensions `N_LINES` and `N_COLS`.
- `Moves`: `Move.java`.
- `Boards`: the board as a value. This module holds the single swap with the empty cell, the solved layout and the win test. It also defines `Play`, which reads a history as a path from the solved board.
- `Fifteen`: `Model.java` as a class over an `array2<int>`.
- `Scenarios`: short concrete runs of the engine.

The class keeps a ghost copy `cells` of the array (`Mirrors`) and a ghost log `notifications` of every call the engine makes to the views' `notifyView`. Its invariant `Valid()` says two things:

- the board is exactly what the recorded history, played oldest first from the solved board, leads to;
- the counter is a 32-bit value.

The lemma `BoardIsValid` derives from `Valid()` that the grid is a permutation of 0..15 and that `EMPTY` sits at the cached empty cell. `PlayUnwinds` and `UnwindsPlay` show that this invariant is the same as "undoing the history step by step, every step legal, returns to the solved board".

Randomness (`RAND`) is a nondeterministic choice (`:|`). Every outcome the source can produce is allowed. The timer thread, the `unmix` thread and `sleep` are left out: a scheduled tick is the method `Tick`, and the whole `unmix` task is run as one sequential method.

Behaviours of the code worth knowing, each modelled as the cited lines of `Model.java` have it:

- Resetting the board (lines 59-69) does not clear the history. The constructor starts with an empty history instead.
- The win test (lines 212-224) does not look at the last cell. `Boards.WinningIffSolved` proves that under the permutation invariant this is the same as "the grid is the solved layout".
- A scramble (lines 113-123) can leave the board solved, for example by moving the 15 right and back. `Scenarios.TwoMoveScrambleCanBeSolved` exhibits such a history.
- The replay (lines 140-151) stops at the first board the win test accepts, so after `mix(k, k)` it may undo fewer than `k` moves. `Fifteen.ReplaySteps` is that count, and `Fifteen.Model.Unmix` undoes exactly that many.
- Clicking the cell that a slide has just emptied is ignored, because its distance to the empty cell is 0 (lines 169-184). Undoing the slide needs a click on the cell the tile moved to, as `Scenarios.SlideFifteenAndBack` shows.

## Model

| member | source | states |
|---|---|---|
| Positions.Position.IsInsideAt | src/main/java/pt/ipbeja/app/model/Position.java:29-32 | the static bounds check on raw coordinates: both lie in [0, 4); `InsideAtIffEnumerated` is its partner |
| Positions.InsideAtIffEnumerated | src/main/java/pt/ipbeja/app/model/Position.java:29-32 | raw coordinates pass the static check iff they name one of the 16 cells enumerated line by line |
| Positions.Position.IsInside | src/main/java/pt/ipbeja/app/model/Position.java:18-32 | inside implies both coordinates lie in [0, 4); a negative coordinate, or one equal to 4, is outside |
| Positions.InsideExactlySixteen | src/main/java/pt/ipbeja/app/model/Position.java:29-32 | the positions inside the board are exactly the 16 cells of the four lines, and there are 16 of them |
| Positions.Distance | src/main/java/pt/ipbeja/app/model/Model.java:282-284 | the number of one-cell steps along lines and columns between two positions; zero iff they are the same position |
| Positions.Position.ToString | src/main/java/pt/ipbeja/app/model/Position.java:9-12 | the rendering starts with `(`, ends with `)`, and has no other `)` |
| Positions.ToStringInjective | src/main/java/pt/ipbeja/app/model/Position.java:9-12 | two positions that render alike are equal, so the text identifies the position |
| Decimal.NatToString | src/main/java/pt/ipbeja/app/model/Model.java:104 | digits only, with a leading `0` exactly when the number is zero, and then the `0` alone |
| Decimal.IntToString | src/main/java/pt/ipbeja/app/model/Model.java:104 | Java's `i + ""`: canonical text, that is canonical digits after an optional minus sign and never `-0` |
| Decimal.CanonicalRoundTrip | src/main/java/pt/ipbeja/app/model/Model.java:104 | every canonical integer text is the rendering of the value it denotes, so the rendering is the only canonical text of its value |
| Decimal.CanonicalNatRoundTrip | src/main/java/pt/ipbeja/app/model/Model.java:104 | every canonical digit string is the rendering of the number it denotes (by induction on the digits) |
| Decimal.LeadingDigitPositive | src/main/java/pt/ipbeja/app/model/Model.java:104 | proof helper: a digit string whose first digit is not `0` has a positive value |
| Decimal.ParseNegative | src/main/java/pt/ipbeja/app/model/Position.java:11 | proof helper: a minus sign before a digit string negates its value |
| Decimal.IntToStringRoundTrip | src/main/java/pt/ipbeja/app/model/Position.java:11 | parsing the decimal rendering of any integer, sign included, gives the integer back |
| Decimal.NatToStringRoundTrip | src/main/java/pt/ipbeja/app/model/Position.java:11 | parsing the digits of a natural number gives the number back (by induction on the digits) |
| Decimal.NegativeRoundTrip | src/main/java/pt/ipbeja/app/model/Position.java:11 | a negative value renders as `-` and the digits of its magnitude, and reads back |
| Decimal.NonNegativeRoundTrip | src/main/java/pt/ipbeja/app/model/Position.java:11 | a non-negative value renders as its digits alone, and reads back |
| Decimal.IntToStringInjective | src/main/java/pt/ipbeja/app/model/Position.java:11 | distinct integers render differently |
| Decimal.SplitAtSeparator | src/main/java/pt/ipbeja/app/model/Position.java:11 | proof helper for the two `ToStringInjective` lemmas: two texts split at a separator that neither left part contains have equal parts |
| Moves.CreateMove | src/main/java/pt/ipbeja/app/model/Move.java:18-21 | a move exists iff both endpoints are inside; when it exists, its endpoints are the arguments and it is inside |
| Moves.Move.Reversed | src/main/java/pt/ipbeja/app/model/Move.java:28-31 | the reversal begins where the move ends and ends where it begins |
| Moves.ReversedInvolution | src/main/java/pt/ipbeja/app/model/Move.java:28-31 | reversing twice gives the move back |
| Moves.ReversedInside | src/main/java/pt/ipbeja/app/model/Move.java:18-31 | the reversal of an inside move is inside; the reversal of a one-cell step is a one-cell step |
| Moves.Move.ToString | src/main/java/pt/ipbeja/app/model/Move.java:34-37 | the rendering is non-empty and ends with `]` |
| Moves.ToStringInjective | src/main/java/pt/ipbeja/app/model/Move.java:34-37 | two moves that render alike are equal |
| Boards.Put | src/main/java/pt/ipbeja/app/model/Model.java:253-255 | the written cell holds the new value; every other cell is unchanged |
| Boards.Exchange | src/main/java/pt/ipbeja/app/model/Model.java:252-256 | the two cells trade contents; every other cell is unchanged |
| Boards.GridExtensionality | src/main/java/pt/ipbeja/app/model/Model.java:23 | two 4 x 4 grids that agree on every cell are equal |
| Boards.IsWinning | src/main/java/pt/ipbeja/app/model/Model.java:212-224 | the win test on a grid value: every cell except the last holds its row-major rank; `Boards.WinningIffSolved` is its partner |
| Boards.ApplyMove | src/main/java/pt/ipbeja/app/model/Model.java:237-242 | the swap on a board value: the tile at `begin` lands in the old empty cell, `begin` gets what that cell held, and the empty position becomes `begin` |
| Boards.SolvedBoardValid | src/main/java/pt/ipbeja/app/model/Model.java:59-69 | the solved board holds `l*4+c+1` everywhere except `EMPTY` at (3, 3), is a valid permutation board, and passes the win test |
| Boards.ApplyPreservesValid | src/main/java/pt/ipbeja/app/model/Model.java:237-256 | a swap of the empty cell with an inside cell keeps the grid a permutation with `EMPTY` at the new empty cell, and the tile lands in the old empty cell |
| Boards.ApplyReversedRestores | src/main/java/pt/ipbeja/app/model/Model.java:137-146 | applying a move and then its reversal restores the exact grid and empty cell |
| Boards.WinningIffSolved | src/main/java/pt/ipbeja/app/model/Model.java:212-224 | on a permutation grid the win test, which skips the last cell, holds iff the grid is the solved layout |
| Boards.WinningBoardIsSolved | src/main/java/pt/ipbeja/app/model/Model.java:212-224 | a valid board that passes the win test is the solved board, empty cell included |
| Boards.MoveFromSolvedNotWinning | src/main/java/pt/ipbeja/app/model/Model.java:169-184 | one legal move away from the solved board the win test fails |
| Boards.PlayPush | src/main/java/pt/ipbeja/app/model/Model.java:121 | pushing a legal move on a history plays to that move applied on the history's board |
| Boards.RecordMove | src/main/java/pt/ipbeja/app/model/Model.java:173-175 | a legal move applied to the board of a history gives the board of the history with the move at its head |
| Boards.UndoMove | src/main/java/pt/ipbeja/app/model/Model.java:140-142 | on the board of a non-empty history, the reversed head move is legal and gives the board of the rest of the history |
| Boards.PlaySuffix | src/main/java/pt/ipbeja/app/model/Model.java:140-142 | every suffix of a legal history, an older part of the game, plays legally too |
| Boards.PlayValid | src/main/java/pt/ipbeja/app/model/Model.java:232-256 | every board a legal history plays to is a valid permutation board (by induction on the history) |
| Boards.PlayUnwinds | src/main/java/pt/ipbeja/app/model/Model.java:137-152 | from the board a history plays to, undoing its moves one by one, each legal, reaches the solved board |
| Boards.UnwindsPlay | src/main/java/pt/ipbeja/app/model/Model.java:137-152 | conversely, a board that undoing the history solves is the board the history plays to |
| Fifteen.Increment | src/main/java/pt/ipbeja/app/model/Model.java:349 | Java's `int` increment: the 32-bit value equal to `x + 1` modulo 2^32 |
| Fifteen.ReplayStepsMeaning | src/main/java/pt/ipbeja/app/model/Model.java:140-151 | the number of replay steps is between 1 and the history's length (0 for an empty history); the board after that many undos is the solved board, and no earlier undo reached it |
| Fifteen.ReplayFlagsAreWinTest | src/main/java/pt/ipbeja/app/model/Model.java:143-146 | each notification of a replay carries as its win flag the win test of the board that step leaves |
| Fifteen.FlagIsWinTest | src/main/java/pt/ipbeja/app/model/Model.java:143-146 | the same for one step of a replay |
| Fifteen.SolvedIffWinning | src/main/java/pt/ipbeja/app/model/Model.java:212-224 | on every board a legal history passes through, the win test holds iff the board is the solved board |
| Fifteen.StepNoticesMeaning | src/main/java/pt/ipbeja/app/model/Model.java:140-151 | one notification per undone move, in order, carrying its reversal and reporting no win |
| Fifteen.ReplayNoticesMeaning | src/main/java/pt/ipbeja/app/model/Model.java:140-151 | a replay log has one notification per undone move, carrying its reversal and the counter; only the last one reports a win |
| Fifteen.StepNoticesExtend | src/main/java/pt/ipbeja/app/model/Model.java:146 | one more non-winning step appends one notification to a replay log |
| Fifteen.ReplayNoticesLast | src/main/java/pt/ipbeja/app/model/Model.java:146-150 | a winning step completes a replay log |
| Fifteen.Model.BoardIsValid | src/main/java/pt/ipbeja/app/model/Model.java:232-256 | on a valid engine the board is a permutation of 0..15, and a cell holds `EMPTY` iff it is the cached empty cell |
| Fifteen.Model.constructor | src/main/java/pt/ipbeja/app/model/Model.java:36-41 | a new engine is valid and solved, with an empty history, the counter at 0, no timer scheduled and nothing notified |
| Fifteen.Model.Mixed | src/main/java/pt/ipbeja/app/model/Model.java:49-54 | the scrambled engine is valid, its history has between `minIter` and `additionalIter` moves (none when the count drawn is not positive), the counter is -1, the tick is scheduled and nothing was notified |
| Fifteen.Model.ResetBoard | src/main/java/pt/ipbeja/app/model/Model.java:59-69 | a fresh array holds `l*4+c+1` in every cell except `EMPTY` at (3, 3), and the empty position is (3, 3) |
| Fifteen.Model.PieceAt | src/main/java/pt/ipbeja/app/model/Model.java:92-94 | the number in the cell, between 0 and 15, and `EMPTY` exactly at the empty cell |
| Fifteen.Model.PieceTextAt | src/main/java/pt/ipbeja/app/model/Model.java:102-105 | `"empty"` iff the position is the empty cell; otherwise canonical decimal text that parses back to the piece. By `Decimal.CanonicalRoundTrip` that is exactly Java's `i + ""` |
| Decimal.NumberIsNotEmptyLabel | src/main/java/pt/ipbeja/app/model/Model.java:104 | no integer renders as `"empty"` |
| Fifteen.Model.NotifyViews | src/main/java/pt/ipbeja/app/model/Model.java:193-196 | exactly one notification with the given move, flag and counter is appended to the log |
| Fifteen.Model.SwapCells | src/main/java/pt/ipbeja/app/model/Model.java:252-256 | the array now holds the old grid with the two cells exchanged |
| Fifteen.Model.SwapPositions | src/main/java/pt/ipbeja/app/model/Model.java:244-250 | the array now holds the old grid with the cells at the two positions exchanged |
| Fifteen.Model.Swap | src/main/java/pt/ipbeja/app/model/Model.java:237-242 | for a move that ends at the empty cell, the board becomes the swap applied to the old board: the cells are exchanged and the empty position is the move's begin |
| Fifteen.Model.ApplyMove | src/main/java/pt/ipbeja/app/model/Model.java:232-235 | the same single swap as `Swap` |
| Fifteen.Model.RandomlySelectNeighborOf | src/main/java/pt/ipbeja/app/model/Model.java:264-273 | the result is inside, one step from the empty cell, and is the empty cell shifted by one of the four offsets |
| Fifteen.Model.GetEmptyInNeighborhood | src/main/java/pt/ipbeja/app/model/Model.java:281-290 | the empty position iff it is at distance exactly 1 from `center` along a line or a column; otherwise `None` |
| Fifteen.Model.InWinningPositions | src/main/java/pt/ipbeja/app/model/Model.java:212-224 | true iff every cell except the last holds its row-major rank |
| Fifteen.Model.WinningIffSolvedState | src/main/java/pt/ipbeja/app/model/Model.java:212-224 | on a valid engine the win test holds iff the board is the solved board |
| Fifteen.Model.Mix | src/main/java/pt/ipbeja/app/model/Model.java:113-123 | the engine stays valid, so every recorded move was legal on the board it was played on; the history grows by a count between `minMoves` and `maxMoves` (0 if that count is not positive); the old history is kept as its tail; every new move is a one-cell step; nothing is notified |
| Fifteen.Model.ScrambleStep | src/main/java/pt/ipbeja/app/model/Model.java:118-121 | one pass of the loop: the engine stays valid, the new move is pushed on top of the old history, and it is a one-cell step |
| Fifteen.Model.Solve | src/main/java/pt/ipbeja/app/model/Model.java:128-130 | the same as `Unmix`, with the fixed pause |
| Fifteen.Model.Unmix | src/main/java/pt/ipbeja/app/model/Model.java:137-152 | from any valid engine: ends solved with an empty history, after undoing exactly `ReplaySteps` moves, that is up to the first solved board. One notification per undone move carries its reversal, with the win flag set on the last step only; `ReplayFlagsAreWinTest` shows each flag is that board's win test |
| Fifteen.Model.ClearHistory | src/main/java/pt/ipbeja/app/model/Model.java:147-148 | on the solved board, emptying the history keeps the engine valid |
| Fifteen.Model.UndoLastMove | src/main/java/pt/ipbeja/app/model/Model.java:140-151 | the head move is removed and its reversal applied; the result is the win test, which holds iff the board is solved; one notification carries the reversal, that result and the counter |
| Fifteen.Model.PopAndUndo | src/main/java/pt/ipbeja/app/model/Model.java:140-142 | the head move is removed from the history and its reversal, which is returned, is applied to the board |
| Fifteen.Model.MovePieceAt | src/main/java/pt/ipbeja/app/model/Model.java:169-184 | an outside or non-adjacent position changes nothing and notifies nothing. An adjacent one swaps with the empty cell, pushes the move, and sends one notification with the win test and the old counter; a win zeroes the counter and stops the timer |
| Fifteen.Model.PieceSelected | src/main/java/pt/ipbeja/app/model/Model.java:158-160 | the same as `MovePieceAt` |
| Fifteen.Model.GetLastMove | src/main/java/pt/ipbeja/app/model/Model.java:203-205 | the head of the history when there is one, otherwise `None`; the move ends next to the empty cell, which is where it began |
| Fifteen.Model.ResetTimer | src/main/java/pt/ipbeja/app/model/Model.java:336-339 | the counter is -1 and the new timer has nothing scheduled |
| Fifteen.Model.StartTimer | src/main/java/pt/ipbeja/app/model/Model.java:344-354 | the counter is -1 and the tick is scheduled |
| Fifteen.Model.StopTimer | src/main/java/pt/ipbeja/app/model/Model.java:359-361 | nothing is scheduled any more; the counter keeps its value |
| Fifteen.Model.Tick | src/main/java/pt/ipbeja/app/model/Model.java:348-351 | the counter goes up by one with 32-bit wrap-around, and one notification with no move, no win and the new counter is sent |
| Fifteen.Model.GetTimerValue | src/main/java/pt/ipbeja/app/model/Model.java:368-370 | the counter, a 32-bit value on a valid engine |
| Scenarios.SlideFifteenAndBack | src/main/java/pt/ipbeja/app/model/Model.java:169-184 | on a new engine, clicks on (3, 2), (3, 2) and (3, 3): the first slides the 15 right; the second hits the empty cell and is ignored; the third slides it back and wins. The log has exactly those two moves, with win flags false and then true, and the counter ends at 0 and stopped |
| Scenarios.FifteenSlidesRight | src/main/java/pt/ipbeja/app/model/Model.java:252-256 | the solved grid with (3, 2) and (3, 3) exchanged, written out |
| Scenarios.ThreeTicks | src/main/java/pt/ipbeja/app/model/Model.java:336-354 | after starting the timer, three ticks leave the counter at 2 and notify 0, 1 and 2 |
| Scenarios.TwoMoveScrambleCanBeSolved | src/main/java/pt/ipbeja/app/model/Model.java:113-123 | a history of two legal moves (the 15 right, then back) plays to the solved board |

## Left out

- Concurrency: the `java.util.Timer` and its `TimerTask`, the background thread that `unmix` starts, and `Model.sleep`. A tick is the method `Fifteen.Model.Tick`, callable while the tick is scheduled. The replay runs to completion in one call. Interleavings of ticks with player moves or with the replay are not modelled, and the counter stays fixed while the replay runs.
- Fifteen.Model.ResetTimer: the source replaces the `Timer` object without cancelling the old one, so a task scheduled earlier would keep ticking. The model has one scheduled flag, so it assumes at most one live ticking task.
- The distribution of `java.util.Random`. Every draw is a nondeterministic choice. The retry loop of `randomlySelectNeighborOf` is collapsed into one choice among the offsets that stay inside; it has the same outcomes, and the source loop ends only with probability 1.
- Fifteen.Model.Mix: the source computes the bound `maxMoves - minMoves + 1` in 32-bit arithmetic. `nextInt` throws when that wraps to a non-positive value (for example `mix(-1, Integer.MAX_VALUE)`). The model computes the bound with unbounded integers.
- Fifteen.Model.PieceAt: requires an inside position. The source indexes the array directly and throws `ArrayIndexOutOfBoundsException` otherwise; the same holds for `Fifteen.Model.PieceTextAt`.
- Fifteen.Model.GetLastMove: returns `None` on an empty history, where the source's `getFirst` throws `NoSuchElementException`.
- Fifteen.Model.Unmix, Fifteen.Model.Mix, Fifteen.Model.MovePieceAt and Fifteen.Model.Tick: these require the class invariant `Valid()`. Every constructor establishes it and every operation preserves it.
- Position coordinates are unbounded integers, not Java `int`s. The arithmetic on them is the two differences and the two `Math.abs` calls in `getEmptyInNeighborhood` (Model.java:282-283), and the neighbour offsets. At its only call, in `movePieceAt` (Model.java:170-171), both positions are inside the board, so neither a difference nor `Math.abs` can wrap. With only `emptyPosition` inside, a difference can wrap (`Integer.MIN_VALUE - 3`), but the result is then close to `Integer.MAX_VALUE` and never 0 or 1. So the unbounded `Fifteen.Model.GetEmptyInNeighborhood` agrees with the source whenever `emptyPosition` is inside, which a valid engine guarantees.
- `Model.toString`, `hashCode` and `equals`: text output and library hashing; `toString` also drops the last digit of each row.
- The views (`View.notifyView`, the JavaFX interface in `FifteenGUI.java` and `PieceButton.java`). Their callback is the ghost log `notifications`; the view object itself is not modelled.
- Moves.Move.ToString and Positions.Position.ToString: their contracts state the shape of the text (the brackets). The exact format is their body, and `Moves.ToStringInjective` and `Positions.ToStringInjective` prove that the text determines the value.
- `N_LINES`, `N_COLS` and `EMPTY` are constants of `Model.java` in the source. Here the dimensions live in module `Positions` and `EMPTY` in module `Boards`, because the bounds check needs the dimensions and modules cannot import each other in a cycle.
