/**
 * Concrete runs of the engine, stated as contracts: what a short
 * sequence of calls on a fresh or valid engine leaves behind.
 */
module Scenarios {
  import opened Options
  import opened Positions
  import opened Moves
  import opened Boards
  import opened Fifteen

  /**
   * From the solved board: clicking (3, 2) slides the 15 right into the
   * empty corner; clicking (3, 2) again hits the empty cell itself and is
   * ignored; clicking (3, 3) slides the 15 back and wins, which zeroes and
   * stops the timer. Exactly two notifications are sent.
   */
  method SlideFifteenAndBack() returns (model: Model, ghost middle: Board)
    ensures middle == Board([[1, 2, 3, 4], [5, 6, 7, 8], [9, 10, 11, 12], [13, 14, EMPTY, 15]], Position(3, 2))
    ensures model.Valid() && model.State() == SolvedBoard()
    ensures model.moves == [Move(Position(3, 3), Position(3, 2)), Move(Position(3, 2), Position(3, 3))]
    ensures model.notifications ==
      [Notification(Some(Move(Position(3, 2), Position(3, 3))), false, 0),
       Notification(Some(Move(Position(3, 3), Position(3, 2))), true, 0)]
    ensures model.timerValue == 0 && !model.timerScheduled
  {
    model := new Model();
    model.PieceSelected(Position(3, 2));
    middle := model.State();
    FifteenSlidesRight();
    assert !IsWinning(middle.grid) by {
      assert At(middle.grid, Position(3, 2)) != Expected(Position(3, 2));
    }
    model.PieceSelected(Position(3, 2));
    model.PieceSelected(Position(3, 3));
    ApplyReversedRestores(SolvedBoard(), Move(Position(3, 2), Position(3, 3)));
    SolvedBoardValid();
  }

  /** The grid after the 15 of the solved board slides into the empty corner. */
  lemma FifteenSlidesRight()
    ensures Exchange(SolvedGrid(), Position(3, 2), Position(3, 3)) ==
      [[1, 2, 3, 4], [5, 6, 7, 8], [9, 10, 11, 12], [13, 14, EMPTY, 15]]
  {
    var g := SolvedGrid();
    var row: seq<int> := [13, 14, 15, EMPTY];
    assert g[3] == row;
    assert row[2 := EMPTY] == [13, 14, EMPTY, EMPTY];
    assert [13, 14, EMPTY, EMPTY][3 := 15] == [13, 14, EMPTY, 15];
  }

  /** Starting the timer sets the counter to -1; three ticks then report 0, 1 and 2. */
  method ThreeTicks(model: Model)
    requires model.Valid()
    modifies model
    ensures model.Valid() && model.timerValue == 2
    ensures model.notifications == old(model.notifications) +
      [Notification(None, false, 0), Notification(None, false, 1), Notification(None, false, 2)]
  {
    model.StartTimer();
    model.Tick();
    model.Tick();
    model.Tick();
  }

  /**
   * A scramble of two moves can leave the board solved: the 15 slides
   * right and back. Both moves are legal where they are played, so this
   * history is one the scrambler can record.
   */
  lemma TwoMoveScrambleCanBeSolved()
    ensures Play([Move(Position(3, 3), Position(3, 2)), Move(Position(3, 2), Position(3, 3))]) == Some(SolvedBoard())
  {
    var first := Move(Position(3, 2), Position(3, 3));
    var second := Move(Position(3, 3), Position(3, 2));
    SolvedBoardValid();
    assert [second, first][1..] == [first];
    assert [first][1..] == [];
    ApplyReversedRestores(SolvedBoard(), first);
  }
}
