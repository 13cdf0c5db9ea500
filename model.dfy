/**
 * The fifteen puzzle engine (Model.java): a 4 x 4 board mutated in place
 * by swaps with the empty cell, the move history (most recent first),
 * scrambling, replaying the history backwards, the win test and the
 * elapsed-time counter. The views' callback is recorded as a ghost log
 * of the notifications the engine sends.
 */
module Fifteen {
  import opened Options
  import opened Decimal
  import opened Positions
  import opened Moves
  import opened Boards

  /** Offsets of the four neighbours of a cell: up, left, right, down. */
  const NEIGHBORS: seq<(int, int)> := [(-1, 0), (0, -1), (0, 1), (1, 0)]

  const INT_MIN: int := -0x8000_0000
  const INT_MAX: int := 0x7fff_ffff

  predicate IsInt32(x: int) {
    INT_MIN <= x <= INT_MAX
  }

  /** Java's `x++` on an `int`: the 32-bit value equal to `x + 1` modulo 2^32, so the largest value wraps to the smallest. */
  function Increment(x: int): (r: int)
    requires IsInt32(x)
    ensures IsInt32(r) && (r - x - 1) % 0x1_0000_0000 == 0
  {
    if x == INT_MAX then INT_MIN else x + 1
  }

  /** One call of the views' `notifyView(move, winning, tValue)`; `None` stands for a `null` move. */
  datatype Notification = Notification(move: Option<Move>, winning: bool, timerValue: int)

  /**
   * How many moves the replay undoes from a most-recent-first history: it
   * stops after the first undo that leaves the solved board, and since
   * undoing the whole history does, it never runs past the oldest move.
   */
  function ReplaySteps(history: seq<Move>): nat
    decreases |history|
  {
    if history == [] then 0
    else if Play(history[1..]) == Some(SolvedBoard()) then 1
    else 1 + ReplaySteps(history[1..])
  }

  /**
   * The replay undoes at least one move of a non-empty history and at most
   * all of them; the board it stops on is the solved board, and no earlier
   * step of it reached the solved board.
   */
  lemma {:induction false} ReplayStepsMeaning(history: seq<Move>)
    ensures ReplaySteps(history) <= |history|
    ensures ReplaySteps(history) == 0 <==> history == []
    ensures Play(history[ReplaySteps(history)..]) == Some(SolvedBoard())
    ensures forall k :: 0 < k < ReplaySteps(history) ==> Play(history[k..]) != Some(SolvedBoard())
    decreases |history|
  {
    if history != [] && Play(history[1..]) != Some(SolvedBoard()) {
      var rest := history[1..];
      ReplayStepsMeaning(rest);
      assert rest[ReplaySteps(rest)..] == history[ReplaySteps(history)..];
      forall k | 0 < k < ReplaySteps(history)
        ensures Play(history[k..]) != Some(SolvedBoard())
      {
        if k > 1 {
          assert history[k..] == rest[k - 1..];
        }
      }
    }
  }

  /** The notifications of replay steps that undo `undone` in order without reaching a win. */
  function StepNotices(undone: seq<Move>, t: int): seq<Notification>
    decreases |undone|
  {
    if undone == [] then []
    else StepNotices(undone[..|undone| - 1], t) + [Notification(Some(undone[|undone| - 1].Reversed()), false, t)]
  }

  /** The notifications of a replay that undoes `undone` in order and wins at its last step. */
  function ReplayNotices(undone: seq<Move>, t: int): seq<Notification> {
    if undone == [] then []
    else StepNotices(undone[..|undone| - 1], t) + [Notification(Some(undone[|undone| - 1].Reversed()), true, t)]
  }

  /** One non-winning notification per undone move, in order, carrying its reversal. */
  lemma {:induction false} StepNoticesMeaning(undone: seq<Move>, t: int)
    ensures |StepNotices(undone, t)| == |undone|
    ensures forall i :: 0 <= i < |undone| ==>
      StepNotices(undone, t)[i] == Notification(Some(undone[i].Reversed()), false, t)
    decreases |undone|
  {
    if undone != [] {
      var prefix := undone[..|undone| - 1];
      StepNoticesMeaning(prefix, t);
      assert forall i :: 0 <= i < |prefix| ==> prefix[i] == undone[i];
    }
  }

  /** One notification per undone move, carrying its reversal; only the last one reports a win. */
  lemma ReplayNoticesMeaning(undone: seq<Move>, t: int)
    ensures var ns := ReplayNotices(undone, t);
      |ns| == |undone| &&
      forall i :: 0 <= i < |ns| ==>
        ns[i].move == Some(undone[i].Reversed()) && ns[i].timerValue == t && (ns[i].winning <==> i == |ns| - 1)
  {
    if undone != [] {
      StepNoticesMeaning(undone[..|undone| - 1], t);
    }
  }

  /**
   * The win flag of each notification of a replay is the engine's win test
   * on the board that step leaves behind.
   */
  lemma ReplayFlagsAreWinTest(history: seq<Move>, t: int)
    requires Play(history).Some?
    ensures var steps := ReplaySteps(history);
      steps <= |history| && |ReplayNotices(history[..steps], t)| == steps &&
      forall i :: 0 <= i < steps ==>
        Play(history[i + 1..]).Some? &&
        (ReplayNotices(history[..steps], t)[i].winning <==> IsWinning(Play(history[i + 1..]).value.grid))
  {
    ReplayStepsMeaning(history);
    ReplayNoticesMeaning(history[..ReplaySteps(history)], t);
    forall i | 0 <= i < ReplaySteps(history) {
      FlagIsWinTest(history, t, i);
    }
  }

  /** One notification of a replay: its win flag is the win test of the board after that step. */
  lemma FlagIsWinTest(history: seq<Move>, t: int, i: nat)
    requires Play(history).Some? && i < ReplaySteps(history) <= |history|
    ensures Play(history[i + 1..]).Some?
    ensures |ReplayNotices(history[..ReplaySteps(history)], t)| == ReplaySteps(history)
    ensures ReplayNotices(history[..ReplaySteps(history)], t)[i].winning <==> IsWinning(Play(history[i + 1..]).value.grid)
  {
    var steps := ReplaySteps(history);
    ReplayNoticesMeaning(history[..steps], t);
    var ns := ReplayNotices(history[..steps], t);
    assert ns[i].winning <==> i + 1 == steps;
    ReplayStepsMeaning(history);
    SolvedIffWinning(history, i + 1);
  }

  /** On a board a legal history leads through, the win test holds exactly when the board is solved. */
  lemma SolvedIffWinning(history: seq<Move>, k: nat)
    requires Play(history).Some? && k <= |history|
    ensures Play(history[k..]).Some?
    ensures Play(history[k..]) == Some(SolvedBoard()) <==> IsWinning(Play(history[k..]).value.grid)
  {
    PlaySuffix(history, k);
    var b := Play(history[k..]).value;
    PlayValid(history[k..]);
    SolvedBoardValid();
    if IsWinning(b.grid) {
      WinningBoardIsSolved(b);
    }
  }

  /** A log that ends with the steps undoing `undone[..k]`, extended by one more non-winning step. */
  lemma StepNoticesExtend(log: seq<Notification>, undone: seq<Move>, k: nat, t: int)
    requires k < |undone|
    ensures log + StepNotices(undone[..k], t) + [Notification(Some(undone[k].Reversed()), false, t)] ==
      log + StepNotices(undone[..k + 1], t)
  {
    assert undone[..k + 1][..k] == undone[..k];
  }

  /** The same log extended by a winning step instead: the whole replay of `undone[..k + 1]`. */
  lemma ReplayNoticesLast(log: seq<Notification>, undone: seq<Move>, k: nat, t: int)
    requires k < |undone|
    ensures log + StepNotices(undone[..k], t) + [Notification(Some(undone[k].Reversed()), true, t)] ==
      log + ReplayNotices(undone[..k + 1], t)
  {
    assert undone[..k + 1][..k] == undone[..k];
  }

  class Model {
    var board: array2<int>
    /** The board array read as a grid of lines, kept equal to it (see Mirrors). */
    ghost var cells: Grid
    var emptyPosition: Position
    /** The move deque; index 0 is its head, the most recent move. */
    var moves: seq<Move>
    var timerValue: int
    /** The current timer has the ticking task scheduled and has not been cancelled. */
    var timerScheduled: bool
    /** Everything sent to the views so far, oldest first. */
    ghost var notifications: seq<Notification>

    /** The 4 x 4 array holds exactly the grid `cells`. */
    ghost predicate Mirrors()
      reads this`board, this`cells, board
    {
      board.Length0 == N_LINES && board.Length1 == N_COLS && WellFormed(cells) &&
      forall p: Position :: p.IsInside() ==> board[p.line, p.col] == At(cells, p)
    }

    ghost function State(): Board
      reads this`cells, this`emptyPosition
    {
      Board(cells, emptyPosition)
    }

    /**
     * The engine invariant: the board is exactly the board that the
     * recorded history, played oldest first from the solved board, leads
     * to (so it is a valid permutation with the cached empty cell, see
     * BoardIsValid), and the counter is a 32-bit value.
     */
    ghost predicate Valid()
      reads this`board, this`cells, this`emptyPosition, this`moves, this`timerValue, board
    {
      Mirrors() && Play(moves) == Some(State()) && IsInt32(timerValue)
    }

    /** The board of a valid engine is a permutation of 0..15 whose EMPTY sits at the cached empty cell. */
    lemma BoardIsValid()
      requires Valid()
      ensures ValidBoard(State())
      ensures forall p: Position :: p.IsInside() ==> (At(cells, p) == EMPTY <==> p == emptyPosition)
    {
      PlayValid(moves);
    }

    /** The engine in its winning position, with an empty history and no timer running. */
    constructor ()
      ensures Valid() && fresh(board)
      ensures State() == SolvedBoard() && moves == []
      ensures timerValue == 0 && !timerScheduled && notifications == []
    {
      board := new int[N_LINES, N_COLS];
      cells := SolvedGrid();
      emptyPosition := Position(N_LINES - 1, N_COLS - 1);
      moves := [];
      timerValue := 0;
      timerScheduled := false;
      notifications := [];
      new;
      ResetBoard();
      SolvedBoardValid();
    }

    /** The engine scrambled from the winning position, with its timer restarted. */
    constructor Mixed(minIter: int, additionalIter: int)
      requires minIter <= additionalIter
      ensures Valid() && fresh(board)
      ensures minIter <= |moves| <= additionalIter || (|moves| == 0 && minIter <= 0)
      ensures timerValue == -1 && timerScheduled && notifications == []
    {
      board := new int[N_LINES, N_COLS];
      cells := SolvedGrid();
      emptyPosition := Position(N_LINES - 1, N_COLS - 1);
      moves := [];
      timerValue := 0;
      timerScheduled := false;
      notifications := [];
      new;
      ResetBoard();
      SolvedBoardValid();
      Mix(minIter, additionalIter);
      assert notifications == [];
      ResetTimer();
      StartTimer();
    }

    /** Allocates a board in the solved ordering; the last cell is the empty one. */
    method ResetBoard()
      modifies this`board, this`cells, this`emptyPosition
      ensures fresh(board) && Mirrors() && State() == SolvedBoard()
      ensures forall p: Position :: p.IsInside() ==>
        board[p.line, p.col] == if p == Position(N_LINES - 1, N_COLS - 1) then EMPTY else Expected(p)
    {
      board := new int[N_LINES, N_COLS];
      var pieceNumber := 1;
      var line := 0;
      while line < N_LINES
        invariant fresh(board) && board.Length0 == N_LINES && board.Length1 == N_COLS
        invariant 0 <= line <= N_LINES && pieceNumber == line * N_COLS + 1
        invariant forall l, c :: 0 <= l < line && 0 <= c < N_COLS ==> board[l, c] == l * N_COLS + c + 1
      {
        var col := 0;
        while col < N_COLS
          invariant fresh(board) && board.Length0 == N_LINES && board.Length1 == N_COLS
          invariant 0 <= col <= N_COLS && pieceNumber == line * N_COLS + col + 1
          invariant forall l, c :: 0 <= l < line && 0 <= c < N_COLS ==> board[l, c] == l * N_COLS + c + 1
          invariant forall c :: 0 <= c < col ==> board[line, c] == line * N_COLS + c + 1
        {
          board[line, col] := pieceNumber;
          pieceNumber := pieceNumber + 1;
          col := col + 1;
        }
        line := line + 1;
      }
      board[N_LINES - 1, N_COLS - 1] := EMPTY;
      emptyPosition := Position(N_LINES - 1, N_COLS - 1);
      cells := SolvedGrid();
      SolvedBoardValid();
    }

    /** The piece at an in-board position: 0 to 15, EMPTY exactly at the empty cell. */
    function PieceAt(position: Position): (piece: int)
      reads this, board
      requires Valid() && position.IsInside()
      ensures piece == At(cells, position)
      ensures 0 <= piece < N_CELLS
      ensures piece == EMPTY <==> position == emptyPosition
    {
      BoardIsValid();
      board[position.line, position.col]
    }

    /** The label of a piece: "empty" for the empty cell, otherwise its number in decimal. */
    function PieceTextAt(position: Position): (text: string)
      reads this, board
      requires Valid() && position.IsInside()
      ensures text == "empty" <==> position == emptyPosition
      ensures text != "empty" ==> IsCanonicalIntText(text) && IsIntText(text) && ParseInt(text) == PieceAt(position)
    {
      var i := PieceAt(position);
      if i == EMPTY then "empty"
      else
        NumberIsNotEmptyLabel(i);
        IntToStringRoundTrip(i);
        IntToString(i)
    }

    /** The same ghost log entry the views' callback would receive. */
    ghost method NotifyViews(move: Option<Move>, winning: bool, tValue: int)
      modifies this`notifications
      ensures notifications == old(notifications) + [Notification(move, winning, tValue)]
    {
      notifications := notifications + [Notification(move, winning, tValue)];
    }

    /** Exchanges the contents of cells (posXi, posYi) and (posXe, posYe). */
    method SwapCells(posXi: int, posYi: int, posXe: int, posYe: int)
      requires Mirrors()
      requires Position.IsInsideAt(posXi, posYi) && Position.IsInsideAt(posXe, posYe)
      modifies board, this`cells
      ensures Mirrors() && cells == Exchange(old(cells), Position(posXi, posYi), Position(posXe, posYe))
    {
      var aux := board[posXe, posYe];
      board[posXe, posYe] := board[posXi, posYi];
      board[posXi, posYi] := aux;
      cells := Exchange(cells, Position(posXi, posYi), Position(posXe, posYe));
    }

    /** Exchanges the contents of the cells at `pInit` and `pEnd`. */
    method SwapPositions(pInit: Position, pEnd: Position)
      requires Mirrors() && pInit.IsInside() && pEnd.IsInside()
      modifies board, this`cells
      ensures Mirrors() && cells == Exchange(old(cells), pInit, pEnd)
    {
      var posXi := pInit.line;
      var posYi := pInit.col;
      var posXe := pEnd.line;
      var posYe := pEnd.col;
      SwapCells(posXi, posYi, posXe, posYe);
    }

    /** Slides the tile at `move.begin` into the empty cell `move.end`. */
    method Swap(move: Move)
      requires Mirrors() && move.IsInside() && move.end == emptyPosition
      modifies this`emptyPosition, this`cells, board
      ensures Mirrors() && State() == Boards.ApplyMove(old(State()), move)
    {
      SwapPositions(move.begin, move.end);
      emptyPosition := move.begin;
    }

    /** Applies a move to the board: one swap with the empty cell. */
    method ApplyMove(move: Move)
      requires Mirrors() && move.IsInside() && move.end == emptyPosition
      modifies this`emptyPosition, this`cells, board
      ensures Mirrors() && State() == Boards.ApplyMove(old(State()), move)
    {
      Swap(move);
    }

    /**
     * A random in-board neighbour of `empty`. The source draws one of the
     * four offsets and retries until the neighbour is inside the board;
     * the draw that is kept is modelled as a nondeterministic choice
     * among the offsets that lead inside.
     */
    method RandomlySelectNeighborOf(empty: Position) returns (neighbor: Position)
      requires empty.IsInside()
      ensures neighbor.IsInside() && Adjacent(neighbor, empty)
      ensures exists k :: (0 <= k < |NEIGHBORS| &&
        neighbor == Position(empty.line + NEIGHBORS[k].0, empty.col + NEIGHBORS[k].1))
    {
      var fallback := if empty.line > 0 then 0 else 3;
      assert Position.IsInsideAt(empty.line + NEIGHBORS[fallback].0, empty.col + NEIGHBORS[fallback].1);
      var k :| 0 <= k < |NEIGHBORS| &&
        Position.IsInsideAt(empty.line + NEIGHBORS[k].0, empty.col + NEIGHBORS[k].1);
      var delta := NEIGHBORS[k];
      assert delta == (-1, 0) || delta == (0, -1) || delta == (0, 1) || delta == (1, 0);
      var line := empty.line + delta.0;
      var col := empty.col + delta.1;
      neighbor := Position(line, col);
      assert Distance(neighbor, empty) == 1;
    }

    /** The empty cell when it is one step from `center` along a line or a column, otherwise `None`. */
    function GetEmptyInNeighborhood(center: Position): (r: Option<Position>)
      reads this
      ensures r.Some? <==> Distance(center, emptyPosition) == 1
      ensures r.Some? ==> r.value == emptyPosition
    {
      var lineDif := Abs(center.line - emptyPosition.line);
      var colDif := Abs(center.col - emptyPosition.col);
      if (lineDif == 0 && colDif == 1) || (lineDif == 1 && colDif == 0) then Some(emptyPosition)
      else None
    }

    /**
     * The win test, cell by cell in row-major order; the last cell is not
     * examined. Under the invariant it holds exactly on the solved board.
     */
    method InWinningPositions() returns (winning: bool)
      requires Mirrors()
      ensures winning == IsWinning(cells)
    {
      var n := 1;
      var TOTAL := N_LINES * N_COLS;
      var line := 0;
      while line < N_LINES
        invariant 0 <= line <= N_LINES && n == line * N_COLS + 1
        invariant forall l, c :: 0 <= l < line && 0 <= c < N_COLS && l * N_COLS + c + 1 < N_CELLS ==>
          board[l, c] == l * N_COLS + c + 1
      {
        var col := 0;
        while col < N_COLS
          invariant 0 <= col <= N_COLS && n == line * N_COLS + col + 1
          invariant forall l, c :: 0 <= l < line && 0 <= c < N_COLS && l * N_COLS + c + 1 < N_CELLS ==>
            board[l, c] == l * N_COLS + c + 1
          invariant forall c :: 0 <= c < col && line * N_COLS + c + 1 < N_CELLS ==>
            board[line, c] == line * N_COLS + c + 1
        {
          if board[line, col] != n && n < TOTAL {
            assert At(cells, Position(line, col)) != Expected(Position(line, col));
            return false;
          }
          n := n + 1;
          col := col + 1;
        }
        line := line + 1;
      }
      forall p: Position | p.IsInside() && Expected(p) < N_CELLS
        ensures At(cells, p) == Expected(p)
      {
      }
      return true;
    }

    /** The win test and the solved board agree on every valid engine state. */
    lemma WinningIffSolvedState()
      requires Valid()
      ensures IsWinning(cells) <==> State() == SolvedBoard()
    {
      SolvedBoardValid();
      BoardIsValid();
      if IsWinning(cells) {
        WinningBoardIsSolved(State());
      }
    }

    /**
     * Scrambles the board with between `minMoves` and `maxMoves` random
     * legal moves, each pushed on the front of the history. Nothing is
     * sent to the views.
     */
    method Mix(minMoves: int, maxMoves: int)
      requires Valid() && minMoves <= maxMoves
      modifies this`emptyPosition, this`cells, this`moves, board
      ensures Valid() && |old(moves)| <= |moves|
      ensures var added := |moves| - |old(moves)|;
        minMoves <= added <= maxMoves || (added == 0 && minMoves <= 0)
      ensures moves[|moves| - |old(moves)|..] == old(moves)
      ensures forall k :: 0 <= k < |moves| - |old(moves)| ==> Adjacent(moves[k].begin, moves[k].end)
    {
      var extra :| 0 <= extra < maxMoves - minMoves + 1;
      var nMoves := minMoves + extra;
      var i := 0;
      while i < nMoves
        invariant Valid()
        invariant 0 <= i && (i <= nMoves || i == 0)
        invariant |moves| == |old(moves)| + i && moves[i..] == old(moves)
        invariant forall k :: 0 <= k < i ==> Adjacent(moves[k].begin, moves[k].end)
      {
        var m := ScrambleStep();
        i := i + 1;
      }
      assert minMoves <= nMoves <= maxMoves;
    }

    /** One pass of the loop of `mix`: slides a random neighbour into the empty cell and records the move. */
    method ScrambleStep() returns (m: Move)
      requires Valid()
      modifies this`emptyPosition, this`cells, this`moves, board
      ensures Valid() && moves == [m] + old(moves) && Adjacent(m.begin, m.end)
    {
      var pieceToMove := RandomlySelectNeighborOf(emptyPosition);
      m := Move(pieceToMove, emptyPosition);
      RecordMove(State(), moves, m);
      ApplyMove(m);
      moves := [m] + moves;
    }

    /** The source's `solve`: replays the history backwards with a fixed pause between steps. */
    method Solve() returns (ghost steps: nat)
      requires Valid()
      modifies this`emptyPosition, this`cells, this`moves, this`notifications, board
      ensures Valid() && State() == SolvedBoard() && moves == []
      ensures steps == ReplaySteps(old(moves)) && steps <= |old(moves)|
      ensures notifications == old(notifications) + ReplayNotices(old(moves)[..steps], timerValue)
    {
      steps := Unmix(500);
    }

    /**
     * The body of the background task of `unmix`: pops moves off the
     * history and applies each one reversed, notifying after every step,
     * until the board wins (then the history is cleared) or the history
     * runs out. Run from any valid state it ends on the solved board;
     * `steps`, the number of moves it undid, is `ReplaySteps` of the history.
     */
    method Unmix(sleepTime: int) returns (ghost steps: nat)
      requires Valid()
      modifies this`emptyPosition, this`cells, this`moves, this`notifications, board
      ensures Valid() && State() == SolvedBoard() && moves == []
      ensures steps == ReplaySteps(old(moves)) && steps <= |old(moves)|
      ensures notifications == old(notifications) + ReplayNotices(old(moves)[..steps], timerValue)
    {
      steps := 0;
      while moves != []
        invariant Valid()
        invariant steps <= |old(moves)| && moves == old(moves)[steps..]
        invariant notifications == old(notifications) + StepNotices(old(moves)[..steps], timerValue)
        invariant steps + ReplaySteps(moves) == ReplaySteps(old(moves))
        invariant steps > 0 ==> State() != SolvedBoard()
        decreases |moves|
      {
        assert moves[0] == old(moves)[steps] && moves[1..] == old(moves)[steps + 1..];
        var winning := UndoLastMove();
        if winning {
          ReplayNoticesLast(old(notifications), old(moves), steps, timerValue);
          steps := steps + 1;
          ClearHistory();
          return;
        }
        StepNoticesExtend(old(notifications), old(moves), steps, timerValue);
        steps := steps + 1;
      }
      assert steps == 0 && old(moves)[..steps] == [];
    }

    /** Empties the history of the solved board, as the replay does when it stops at a win. */
    method ClearHistory()
      requires Valid() && State() == SolvedBoard()
      modifies this`moves
      ensures Valid() && moves == []
    {
      moves := [];
    }

    /**
     * One pass of the replay loop: takes the most recent move off the
     * history, applies its reversal, evaluates the win test and notifies
     * the views with the reversed move.
     */
    method UndoLastMove() returns (winning: bool)
      requires Valid() && moves != []
      modifies this`emptyPosition, this`cells, this`moves, this`notifications, board
      ensures Valid() && board == old(board)
      ensures moves == old(moves)[1..]
      ensures State() == Boards.ApplyMove(old(State()), old(moves)[0].Reversed())
      ensures winning <==> State() == SolvedBoard()
      ensures notifications == old(notifications) + [Notification(Some(old(moves)[0].Reversed()), winning, timerValue)]
    {
      var mr := PopAndUndo();
      // Model.sleep(sleepTime) is not modelled
      winning := InWinningPositions();
      WinningIffSolvedState();
      NotifyViews(Some(mr), winning, timerValue);
    }

    /** Polls the most recent move off the history and applies its reversal to the board. */
    method PopAndUndo() returns (mr: Move)
      requires Valid() && moves != []
      modifies this`emptyPosition, this`cells, this`moves, board
      ensures Valid() && board == old(board)
      ensures mr == old(moves)[0].Reversed() && moves == old(moves)[1..]
      ensures State() == Boards.ApplyMove(old(State()), mr)
    {
      UndoMove(State(), moves);
      var m := moves[0];
      moves := moves[1..];
      mr := m.Reversed();
      ApplyMove(mr);
    }

    /** What a call of `movePieceAt(position)` does, in terms of the state before it. */
    twostate predicate PieceMoved(position: Position)
      reads this, board
      requires old(Valid()) && Valid() && board == old(board)
    {
      var legal := position.IsInside() && Distance(position, old(emptyPosition)) == 1;
      var m := Move(position, old(emptyPosition));
      (!legal ==>
        State() == old(State()) && moves == old(moves) && notifications == old(notifications) &&
        timerValue == old(timerValue) && timerScheduled == old(timerScheduled)) &&
      (legal ==>
        State() == Boards.ApplyMove(old(State()), m) && moves == [m] + old(moves) &&
        notifications == old(notifications) + [Notification(Some(m), IsWinning(cells), old(timerValue))] &&
        (IsWinning(cells) ==> timerValue == 0 && !timerScheduled) &&
        (!IsWinning(cells) ==> timerValue == old(timerValue) && timerScheduled == old(timerScheduled)))
    }

    /** The views' entry point for a click on a piece. */
    method PieceSelected(pos: Position)
      requires Valid()
      modifies this`emptyPosition, this`cells, this`moves, this`timerValue, this`timerScheduled, this`notifications, board
      ensures Valid() && board == old(board) && PieceMoved(pos)
    {
      MovePieceAt(pos);
    }

    /**
     * Slides the piece at `position` into the empty cell when it is on
     * the board and next to it; records the move, notifies once, and on a
     * win zeroes and stops the timer. Any other position is ignored.
     */
    method MovePieceAt(position: Position)
      requires Valid()
      modifies this`emptyPosition, this`cells, this`moves, this`timerValue, this`timerScheduled, this`notifications, board
      ensures Valid() && board == old(board) && PieceMoved(position)
    {
      if position.IsInside() {
        var emptyPos := GetEmptyInNeighborhood(position);
        if emptyPos.Some? {
          var newMove := Move(position, emptyPos.value);
          RecordMove(State(), moves, newMove);
          ApplyMove(newMove);
          moves := [newMove] + moves;
          var winning := InWinningPositions();
          NotifyViews(Some(newMove), winning, timerValue);
          if winning {
            timerValue := 0;
            timerScheduled := false;
          }
        }
      }
    }

    /** The most recent move; `None` where the source's `getFirst` would throw on an empty history. */
    function GetLastMove(): (r: Option<Move>)
      reads this, board
      requires Valid()
      ensures r.Some? <==> moves != []
      ensures r.Some? ==>
        r.value == moves[0] && r.value.begin == emptyPosition && Adjacent(r.value.begin, r.value.end)
    {
      if moves == [] then None else Some(moves[0])
    }

    /** Sets the counter to -1 ("not yet ticked") and replaces the timer with a fresh, unscheduled one. */
    method ResetTimer()
      modifies this`timerValue, this`timerScheduled
      ensures old(Valid()) ==> Valid()
      ensures timerValue == -1 && !timerScheduled
    {
      timerValue := -1;
      timerScheduled := false;
    }

    /** Resets the counter and schedules the ticking task on the fresh timer. */
    method StartTimer()
      modifies this`timerValue, this`timerScheduled
      ensures old(Valid()) ==> Valid()
      ensures timerValue == -1 && timerScheduled
    {
      ResetTimer();
      timerScheduled := true;
    }

    /** Cancels the current timer; the counter keeps its value. */
    method StopTimer()
      modifies this`timerScheduled
      ensures !timerScheduled
    {
      timerScheduled := false;
    }

    /** One run of the scheduled task: the counter goes up by one and the views hear of it. */
    method Tick()
      requires Valid() && timerScheduled
      modifies this`timerValue, this`notifications
      ensures Valid()
      ensures timerValue == Increment(old(timerValue))
      ensures notifications == old(notifications) + [Notification(None, false, timerValue)]
    {
      timerValue := Increment(timerValue);
      NotifyViews(None, false, timerValue);
    }

    /** The elapsed-time counter. */
    function GetTimerValue(): (t: int)
      reads this, board
      ensures t == timerValue
      ensures Valid() ==> IsInt32(t)
    {
      timerValue
    }
  }
}
