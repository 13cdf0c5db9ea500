/** A tile sliding from `begin` into the empty cell at `end` (Move.java). */
module Moves {
  import opened Options
  import opened Positions
  import opened Decimal

  datatype Move = Move(begin: Position, end: Position) {

    /** Both endpoints lie on the board. */
    predicate IsInside() {
      begin.IsInside() && end.IsInside()
    }

    /** The move that undoes this one: the tile slides back. */
    function Reversed(): (r: Move)
      ensures r.begin == end && r.end == begin
    {
      Move(end, begin)
    }

    /** "Move [begin=(l, c), end=(l, c)]". */
    function ToString(): (s: string)
      ensures |s| > 0 && s[|s| - 1] == ']'
    {
      "Move [begin=" + begin.ToString() + ", end=" + end.ToString() + "]"
    }
  }

  /** The validating factory: a move only when both endpoints are inside, `None` for Java's `null`. */
  function CreateMove(begin: Position, end: Position): (r: Option<Move>)
    ensures r.Some? <==> begin.IsInside() && end.IsInside()
    ensures r.Some? ==> r.value.begin == begin && r.value.end == end && r.value.IsInside()
  {
    if begin.IsInside() && end.IsInside() then Some(Move(begin, end)) else None
  }

  /** Reversing twice gives the move back. */
  lemma ReversedInvolution(m: Move)
    ensures m.Reversed().Reversed() == m
  {
  }

  /** Reversal keeps a move on the board, and keeps it a one-cell step. */
  lemma ReversedInside(m: Move)
    ensures m.IsInside() ==> m.Reversed().IsInside()
    ensures Adjacent(m.begin, m.end) ==> Adjacent(m.Reversed().begin, m.Reversed().end)
  {
  }

  /** Two moves render alike only if they are the same move. */
  lemma ToStringInjective(m: Move, n: Move)
    requires m.ToString() == n.ToString()
    ensures m == n
  {
    var p, q := m.begin.ToString(), n.begin.ToString();
    var a, b := p[..|p| - 1], q[..|q| - 1];
    var s, t := ")" + ", end=" + m.end.ToString() + "]", ")" + ", end=" + n.end.ToString() + "]";
    ConcatShape(p, m.end.ToString());
    ConcatShape(q, n.end.ToString());
    SplitAtSeparator(')', a, s, b, t);
    assert p == a + ")" && q == b + ")";
    Positions.ToStringInjective(m.begin, n.begin);
    var e, f := m.end.ToString(), n.end.ToString();
    assert e == s[7..|s| - 1];
    assert f == t[7..|t| - 1];
    Positions.ToStringInjective(m.end, n.end);
  }

  lemma ConcatShape(p: string, e: string)
    requires |p| > 0 && p[|p| - 1] == ')'
    ensures ("Move [begin=" + p + ", end=" + e + "]")[12..] == p[..|p| - 1] + (")" + ", end=" + e + "]")
  {
  }
}
