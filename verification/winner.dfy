/** The win detector, `calculateWinner`: the first of the eight fixed lines
    whose three squares hold the same mark. */
module Winner {
  import opened Squares

  /** An index triple of the board. */
  datatype Line = Line(a: Index, b: Index, c: Index)

  /** The eight winning lines in the order the detector tries them: the
      three rows, the three columns, then the two diagonals. */
  const Lines: seq<Line> := [
    Line(0, 1, 2),
    Line(3, 4, 5),
    Line(6, 7, 8),
    Line(0, 3, 6),
    Line(1, 4, 7),
    Line(2, 5, 8),
    Line(0, 4, 8),
    Line(2, 4, 6)
  ]

  /** The three squares of `l` are non-empty and hold the same mark. */
  predicate Completes(squares: Board, l: Line) {
    squares[l.a] != Empty && squares[l.a] == squares[l.b] && squares[l.a] == squares[l.c]
  }

  /** Reference definition: some one of the eight lines is complete. */
  predicate HasWinningLine(squares: Board) {
    exists k :: 0 <= k < |Lines| && Completes(squares, Lines[k])
  }

  /** The line at position `k` is complete and no earlier line is. */
  predicate FirstCompleteAt(squares: Board, k: int) {
    0 <= k < |Lines| && Completes(squares, Lines[k]) &&
    forall j :: 0 <= j < k ==> !Completes(squares, Lines[j])
  }

  /** The position of the first complete line at or after position `k`. */
  function FirstCompleteFrom(squares: Board, k: nat): (r: Option<nat>)
    requires k <= |Lines|
    ensures r.Some? ==> k <= r.value < |Lines| && Completes(squares, Lines[r.value])
    ensures r.Some? ==> forall j :: k <= j < r.value ==> !Completes(squares, Lines[j])
    ensures r.None? ==> forall j :: k <= j < |Lines| ==> !Completes(squares, Lines[j])
    decreases |Lines| - k
  {
    if k == |Lines| then None
    else if Completes(squares, Lines[k]) then Some(k)
    else FirstCompleteFrom(squares, k + 1)
  }

  /** `calculateWinner`: the first complete line, or None when there is none. */
  function CalculateWinner(squares: Board): (r: Option<Line>)
    ensures r.None? <==> !HasWinningLine(squares)
    ensures r.Some? ==> r.value in Lines && Completes(squares, r.value)
    ensures r.Some? ==> exists k :: FirstCompleteAt(squares, k) && Lines[k] == r.value
  {
    match FirstCompleteFrom(squares, 0)
    case None => None
    case Some(k) => Some(Lines[k])
  }

  /** The detector returns the line at position `k` exactly when that line is
      complete and every line listed before it is not. */
  lemma CalculateWinnerIsFirst(squares: Board, k: int)
    requires 0 <= k < |Lines|
    ensures CalculateWinner(squares) == Some(Lines[k]) <==> FirstCompleteAt(squares, k)
  {
  }

  /** A board on which exactly one line is complete reports that line. */
  lemma OnlyCompleteLineIsReported(squares: Board, k: int)
    requires 0 <= k < |Lines| && Completes(squares, Lines[k])
    requires forall j :: 0 <= j < |Lines| && j != k ==> !Completes(squares, Lines[j])
    ensures CalculateWinner(squares) == Some(Lines[k])
  {
  }

  /** The all-empty initial board has no winner. */
  lemma EmptyBoardHasNoWinner()
    ensures CalculateWinner(EmptyBoard) == None
  {
  }

  /** The detector's `for` loop over the lines, step by step: it stops at
      the first complete line and returns null after the last one. */
  method CalculateWinnerLoop(squares: Board) returns (r: Option<Line>)
    ensures r.None? <==> !HasWinningLine(squares)
    ensures r.Some? ==> exists k :: FirstCompleteAt(squares, k) && Lines[k] == r.value
    ensures r == CalculateWinner(squares)
  {
    for i := 0 to |Lines|
      invariant forall j :: 0 <= j < i ==> !Completes(squares, Lines[j])
    {
      var l := Lines[i];
      if squares[l.a] != Empty && squares[l.a] == squares[l.b] && squares[l.a] == squares[l.c] {
        assert FirstCompleteAt(squares, i);
        return Some(l);
      }
    }
    return None;
  }
}
