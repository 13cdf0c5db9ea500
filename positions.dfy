/**
 * Grid coordinates of the fifteen puzzle (Position.java). The board
 * dimensions are declared here rather than in the engine, because the
 * bounds check needs them and the engine module imports this one.
 */
module Positions {
  import opened Decimal

  const N_LINES: int := 4
  const N_COLS: int := 4

  /** An immutable (line, column) pair; any integers, inside the board or not. */
  datatype Position = Position(line: int, col: int) {

    /** The static bounds check on raw coordinates, usable before a Position exists. */
    static predicate IsInsideAt(line: int, col: int) {
      0 <= line < N_LINES && 0 <= col < N_COLS
    }

    /** The bounds check of this position, delegating to the static one. */
    predicate IsInside(): (r: bool)
      ensures r ==> 0 <= line < N_LINES && 0 <= col < N_COLS
      ensures line < 0 || col < 0 || line == N_LINES || col == N_COLS ==> !r
    {
      IsInsideAt(line, col)
    }

    /** "(line, col)". The only ')' is the last character. */
    function ToString(): (s: string)
      ensures |s| > 0 && s[0] == '(' && s[|s| - 1] == ')'
      ensures ')' !in s[..|s| - 1]
    {
      "(" + IntToString(line) + ", " + IntToString(col) + ")"
    }
  }

  /** Distance in moves of one cell along a line or a column. */
  function Distance(p: Position, q: Position): (d: nat)
    ensures d == 0 <==> p == q
  {
    Abs(p.line - q.line) + Abs(p.col - q.col)
  }

  function Abs(x: int): (r: nat)
    ensures r == x || r == -x
  {
    if x < 0 then -x else x
  }

  /** Grid-adjacent: one step up, down, left or right. */
  predicate Adjacent(p: Position, q: Position) {
    Distance(p, q) == 1
  }

  /** The four cells of one line of the board. */
  function Line(l: int): (cells: set<Position>)
    ensures |cells| == N_COLS
    ensures forall p :: p in cells <==> p.line == l && 0 <= p.col < N_COLS
  {
    {Position(l, 0), Position(l, 1), Position(l, 2), Position(l, 3)}
  }

  /** The sixteen cells of the board, line by line. */
  function AllCells(): set<Position> {
    Line(0) + Line(1) + Line(2) + Line(3)
  }

  /** The static bounds check accepts exactly the coordinates of the sixteen enumerated cells. */
  lemma InsideAtIffEnumerated(line: int, col: int)
    ensures Position.IsInsideAt(line, col) <==> Position(line, col) in AllCells()
  {
  }

  /** Exactly sixteen positions are inside the board. */
  lemma InsideExactlySixteen()
    ensures forall p: Position :: p.IsInside() <==> p in AllCells()
    ensures |AllCells()| == N_LINES * N_COLS
  {
    var r0, r1, r2, r3 := Line(0), Line(1), Line(2), Line(3);
    assert r0 * r1 == {};
    assert |r0 + r1| == 8;
    assert (r0 + r1) * r2 == {};
    assert |r0 + r1 + r2| == 12;
    assert (r0 + r1 + r2) * r3 == {};
  }

  /** Two positions render alike only if they are the same position. */
  lemma ToStringInjective(p: Position, q: Position)
    requires p.ToString() == q.ToString()
    ensures p == q
  {
    var a, b := IntToString(p.line), IntToString(q.line);
    var c, d := IntToString(p.col), IntToString(q.col);
    var s, t := ", " + c + ")", ", " + d + ")";
    ConcatShape(a, c);
    ConcatShape(b, d);
    NoCommaInInt(p.line);
    NoCommaInInt(q.line);
    SplitAtSeparator(',', a, s, b, t);
    IntToStringInjective(p.line, q.line);
    assert c == s[2..|s| - 1];
    assert d == t[2..|t| - 1];
    IntToStringInjective(p.col, q.col);
  }

  lemma ConcatShape(a: string, c: string)
    ensures ("(" + a + ", " + c + ")")[1..] == a + (", " + c + ")")
  {
  }

  lemma NoCommaInInt(i: int)
    ensures ',' !in IntToString(i) && ')' !in IntToString(i)
  {
  }
}
