/**
 * The board of the fifteen puzzle as a value: a 4 x 4 grid of integers
 * with an empty cell, the single-swap move, the solved layout, the win
 * test, and the move history read as a path from the solved board. The
 * engine class in module Fifteen keeps its mutable state in agreement
 * with these definitions.
 */
module Boards {
  import opened Options
  import opened Positions
  import opened Moves

  const EMPTY: int := 0
  const N_CELLS: int := N_LINES * N_COLS

  /** Lines of cells, indexed `g[line][col]`. */
  type Grid = seq<seq<int>>

  predicate WellFormed(g: Grid) {
    |g| == N_LINES && forall l :: 0 <= l < N_LINES ==> |g[l]| == N_COLS
  }

  function At(g: Grid, p: Position): int
    requires WellFormed(g) && p.IsInside()
  {
    g[p.line][p.col]
  }

  /** The number that belongs at `p` in the solved layout: its row-major rank, from 1. */
  function Expected(p: Position): int {
    p.line * N_COLS + p.col + 1
  }

  /** Two grids that agree on every cell are the same grid. */
  lemma GridExtensionality(g: Grid, h: Grid)
    requires WellFormed(g) && WellFormed(h)
    requires forall p: Position :: p.IsInside() ==> At(g, p) == At(h, p)
    ensures g == h
  {
    forall l | 0 <= l < N_LINES ensures g[l] == h[l] {
      forall c | 0 <= c < N_COLS ensures g[l][c] == h[l][c] {
        assert At(g, Position(l, c)) == At(h, Position(l, c));
      }
    }
  }

  /** The grid with `v` written into cell `p`. */
  function Put(g: Grid, p: Position, v: int): (r: Grid)
    requires WellFormed(g) && p.IsInside()
    ensures WellFormed(r) && At(r, p) == v
    ensures forall x: Position :: x.IsInside() && x != p ==> At(r, x) == At(g, x)
  {
    g[p.line := g[p.line][p.col := v]]
  }

  /** The grid with the contents of cells `p` and `q` exchanged. */
  function Exchange(g: Grid, p: Position, q: Position): (r: Grid)
    requires WellFormed(g) && p.IsInside() && q.IsInside()
    ensures WellFormed(r)
    ensures At(r, p) == At(g, q) && At(r, q) == At(g, p)
    ensures forall x: Position :: x.IsInside() && x != p && x != q ==> At(r, x) == At(g, x)
  {
    Put(Put(g, p, At(g, q)), q, At(g, p))
  }

  /** The solved layout: 1 to 15 in row-major order, the last cell empty. */
  function SolvedGrid(): (g: Grid)
    ensures WellFormed(g)
  {
    [[1, 2, 3, 4], [5, 6, 7, 8], [9, 10, 11, 12], [13, 14, 15, EMPTY]]
  }

  /**
   * The win test as the engine performs it: every cell except the last
   * holds its expected number. The last cell is not examined.
   */
  ghost predicate IsWinning(g: Grid)
    requires WellFormed(g)
  {
    forall p: Position :: p.IsInside() && Expected(p) < N_CELLS ==> At(g, p) == Expected(p)
  }

  /**
   * The sixteen cells hold pairwise distinct values drawn from 0 to 15:
   * the grid is a permutation of 0..15 and EMPTY occurs exactly once.
   */
  ghost predicate IsPermutation(g: Grid)
    requires WellFormed(g)
  {
    (forall p: Position :: p.IsInside() ==> 0 <= At(g, p) < N_CELLS) &&
    (forall p: Position, q: Position :: p.IsInside() && q.IsInside() && At(g, p) == At(g, q) ==> p == q)
  }

  /** The grid and the cached location of its empty cell. */
  datatype Board = Board(grid: Grid, empty: Position)

  /** The board invariant of the engine. */
  ghost predicate ValidBoard(b: Board) {
    WellFormed(b.grid) && b.empty.IsInside() && IsPermutation(b.grid) && At(b.grid, b.empty) == EMPTY
  }

  function SolvedBoard(): Board {
    Board(SolvedGrid(), Position(N_LINES - 1, N_COLS - 1))
  }

  /** The single swap the engine performs: the tile at `m.begin` moves into the empty cell `m.end`. */
  function ApplyMove(b: Board, m: Move): (r: Board)
    requires WellFormed(b.grid) && m.IsInside() && m.end == b.empty
    ensures WellFormed(r.grid) && r.empty == m.begin
    ensures At(r.grid, m.end) == At(b.grid, m.begin) && At(r.grid, m.begin) == At(b.grid, m.end)
  {
    Board(Exchange(b.grid, m.begin, m.end), m.begin)
  }

  /** A move the engine may generate: an in-board neighbour of the empty cell slides into it. */
  predicate IsLegal(b: Board, m: Move) {
    m.IsInside() && m.end == b.empty && Adjacent(m.begin, m.end)
  }

  /** The solved board is a valid board, it wins, and it holds the ordering that resets produce. */
  lemma SolvedBoardValid()
    ensures ValidBoard(SolvedBoard()) && IsWinning(SolvedGrid())
    ensures forall p: Position :: p.IsInside() ==>
      At(SolvedGrid(), p) == if p == Position(N_LINES - 1, N_COLS - 1) then EMPTY else Expected(p)
  {
    var g := SolvedGrid();
    forall p: Position | p.IsInside()
      ensures At(g, p) == if p == Position(N_LINES - 1, N_COLS - 1) then EMPTY else Expected(p)
    {
    }
    forall p: Position, q: Position | p.IsInside() && q.IsInside() && At(g, p) == At(g, q)
      ensures p == q
    {
    }
  }

  /** A swap with the empty cell keeps the board invariant, and moves the empty cell to where the tile was. */
  lemma ApplyPreservesValid(b: Board, m: Move)
    requires ValidBoard(b) && m.IsInside() && m.end == b.empty
    ensures ValidBoard(ApplyMove(b, m))
    ensures At(ApplyMove(b, m).grid, m.end) == At(b.grid, m.begin)
  {
    var g, r := b.grid, ApplyMove(b, m).grid;
    forall p: Position, q: Position | p.IsInside() && q.IsInside() && At(r, p) == At(r, q)
      ensures p == q
    {
      var p' := if p == m.begin then m.end else if p == m.end then m.begin else p;
      var q' := if q == m.begin then m.end else if q == m.end then m.begin else q;
      assert At(r, p) == At(g, p') && At(r, q) == At(g, q');
    }
  }

  /** Applying a move and then its reversal restores the exact board and empty cell. */
  lemma ApplyReversedRestores(b: Board, m: Move)
    requires WellFormed(b.grid) && m.IsInside() && m.end == b.empty
    ensures ApplyMove(ApplyMove(b, m), m.Reversed()) == b
  {
    var r := ApplyMove(ApplyMove(b, m), m.Reversed());
    GridExtensionality(r.grid, b.grid);
  }

  /**
   * Under the permutation invariant the engine's win test, which skips
   * the last cell, holds exactly when the grid is the solved layout.
   */
  lemma WinningIffSolved(g: Grid)
    requires WellFormed(g) && IsPermutation(g)
    ensures IsWinning(g) <==> g == SolvedGrid()
  {
    SolvedBoardValid();
    if IsWinning(g) {
      var last := Position(N_LINES - 1, N_COLS - 1);
      var v := At(g, last);
      // the cell where a non-empty v belongs is another cell already holding v
      var home := Position((v - 1) / N_COLS, (v - 1) % N_COLS);
      assert v != EMPTY ==> home.IsInside() && Expected(home) == v && home != last;
      if v != EMPTY {
        assert false;
      }
      GridExtensionality(g, SolvedGrid());
    }
  }

  /** A valid board that passes the win test is the solved board, empty cell included. */
  lemma WinningBoardIsSolved(b: Board)
    requires ValidBoard(b) && IsWinning(b.grid)
    ensures b == SolvedBoard()
  {
    WinningIffSolved(b.grid);
    SolvedBoardValid();
  }

  /** One legal move away from the solved board, the win test fails. */
  lemma MoveFromSolvedNotWinning(m: Move)
    requires IsLegal(SolvedBoard(), m)
    ensures !IsWinning(ApplyMove(SolvedBoard(), m).grid)
  {
    SolvedBoardValid();
    var r := ApplyMove(SolvedBoard(), m).grid;
    assert At(r, m.begin) == EMPTY;
    assert Expected(m.begin) < N_CELLS;
  }

  /**
   * The board reached by playing a most-recent-first history from the
   * solved board, oldest move first; `None` as soon as a move is not
   * legal on the board it is played on.
   */
  function Play(history: seq<Move>): Option<Board>
    decreases |history|
  {
    if history == [] then Some(SolvedBoard())
    else
      match Play(history[1..])
      case None => None
      case Some(prior) =>
        if WellFormed(prior.grid) && IsLegal(prior, history[0]) then Some(ApplyMove(prior, history[0]))
        else None
  }

  /**
   * Undoing a most-recent-first history step by step, each reversal legal
   * on the board it is applied to, leads back to the solved board.
   */
  ghost predicate Unwinds(b: Board, history: seq<Move>)
    decreases |history|
  {
    ValidBoard(b) &&
    if history == [] then b == SolvedBoard()
    else IsLegal(b, history[0].Reversed()) && Unwinds(ApplyMove(b, history[0].Reversed()), history[1..])
  }

  /** Recording one more legal move extends the path from the solved board by that move. */
  lemma PlayPush(history: seq<Move>, m: Move)
    requires Play(history).Some? && ValidBoard(Play(history).value) && IsLegal(Play(history).value, m)
    ensures Play([m] + history) == Some(ApplyMove(Play(history).value, m))
  {
    assert ([m] + history)[1..] == history;
  }

  /** A legal move played on the board a history leads to yields the board of the longer history. */
  lemma RecordMove(b: Board, history: seq<Move>, m: Move)
    requires Play(history) == Some(b) && IsLegal(b, m)
    ensures WellFormed(b.grid) && Play([m] + history) == Some(ApplyMove(b, m))
  {
    PlayValid(history);
    ApplyPreservesValid(b, m);
    PlayPush(history, m);
  }

  /**
   * The most recent move of a history is undone by its reversal, which is
   * legal on the current board and leads to the board of the rest.
   */
  lemma UndoMove(b: Board, history: seq<Move>)
    requires Play(history) == Some(b) && history != []
    ensures Play(history[1..]).Some?
    ensures IsLegal(b, history[0].Reversed()) && WellFormed(b.grid)
    ensures ApplyMove(b, history[0].Reversed()) == Play(history[1..]).value
  {
    var prior := Play(history[1..]).value;
    PlayValid(history[1..]);
    ApplyReversedRestores(prior, history[0]);
  }

  /** Every board a legal history plays to is valid. */
  lemma {:induction false} PlayValid(history: seq<Move>)
    requires Play(history).Some?
    ensures ValidBoard(Play(history).value)
    decreases |history|
  {
    if history == [] {
      SolvedBoardValid();
    } else {
      PlayValid(history[1..]);
      ApplyPreservesValid(Play(history[1..]).value, history[0]);
    }
  }

  /** Every suffix of a legal history, an older part of the game, is legal too. */
  lemma {:induction false} PlaySuffix(history: seq<Move>, k: nat)
    requires Play(history).Some? && k <= |history|
    ensures Play(history[k..]).Some?
    decreases k
  {
    if k > 0 {
      PlaySuffix(history[1..], k - 1);
      assert history[1..][k - 1..] == history[k..];
    }
  }

  /** A board reached from the solved board by recorded moves is brought back by undoing them. */
  lemma {:induction false} PlayUnwinds(history: seq<Move>)
    requires Play(history).Some?
    ensures Unwinds(Play(history).value, history)
    decreases |history|
  {
    PlayValid(history);
    if history != [] {
      var prior := Play(history[1..]).value;
      var m := history[0];
      PlayUnwinds(history[1..]);
      ApplyReversedRestores(prior, m);
    } else {
      SolvedBoardValid();
    }
  }

  /** Conversely, a board that undoing the history solves is the board the history plays to. */
  lemma {:induction false} UnwindsPlay(b: Board, history: seq<Move>)
    requires Unwinds(b, history)
    ensures Play(history) == Some(b)
    decreases |history|
  {
    if history != [] {
      var m := history[0];
      var prior := ApplyMove(b, m.Reversed());
      UnwindsPlay(prior, history[1..]);
      ApplyReversedRestores(b, m.Reversed());
    }
  }
}
