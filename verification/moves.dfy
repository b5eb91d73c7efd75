/** The game logic of the `Board` component: whether a click on a square is
    a move, the board the move produces, and the status line. */
module Moves {
  import opened Squares
  import opened Winner

  /** A click is a move when nobody has won yet and the square is unplayed:
      the detector finds no line and the square is still empty. */
  predicate Legal(squares: Board, i: Index)
    ensures Legal(squares, i) <==> CalculateWinner(squares) == None && squares[i] == Empty
  {
    !HasWinningLine(squares) && squares[i] == Empty
  }

  /** `handleClick`: None when the click is ignored (no `onPlay` call), else
      the board handed to `onPlay`. */
  function HandleClick(squares: Board, xIsNext: bool, i: Index): (r: Option<Board>)
    ensures r.None? <==> !Legal(squares, i)
    ensures r.Some? ==> r.value[i] == Mark(xIsNext) && squares[i] == Empty
    ensures r.Some? ==> forall j :: 0 <= j < 9 && j != i ==> r.value[j] == squares[j]
  {
    if CalculateWinner(squares).Some? || squares[i] != Empty then None
    else Some(squares[i := Mark(xIsNext)])
  }

  /** The three kinds of status line: "Winner: m", "Next player: m", "Draw". */
  datatype Status = Won(mark: Cell) | NextPlayer(mark: Cell) | Draw

  /** The status line. On a won board the winner is named as the mark that is
      NOT next to move. */
  function DeriveStatus(squares: Board, xIsNext: bool): (s: Status)
    ensures s.Won? <==> HasWinningLine(squares)
    ensures s.Won? ==> s.mark == Mark(!xIsNext)
    ensures s.Draw? <==> !HasWinningLine(squares) && !HasEmpty(squares)
    ensures s.NextPlayer? ==> s.mark == Mark(xIsNext)
  {
    if CalculateWinner(squares).Some? then Won(if xIsNext then O else X)
    else if HasEmpty(squares) then NextPlayer(if xIsNext then X else O)
    else Draw
  }

  /** The status says "Next player" exactly when some click on the board is a
      move, and the mark it names is the one that move places. */
  lemma {:induction false} NextPlayerIffSomeClickPlays(squares: Board, xIsNext: bool)
    ensures DeriveStatus(squares, xIsNext).NextPlayer? <==>
      exists i: Index :: HandleClick(squares, xIsNext, i).Some?
    ensures forall i: Index :: HandleClick(squares, xIsNext, i).Some? ==>
      HandleClick(squares, xIsNext, i).value[i] == DeriveStatus(squares, xIsNext).mark
  {
    var s := DeriveStatus(squares, xIsNext);
    if s.NextPlayer? {
      var i :| 0 <= i < 9 && squares[i] == Empty;
      assert HandleClick(squares, xIsNext, i).Some?;
    }
  }

  /** A click that is a move makes the board one mark fuller: one more square
      of the mover's mark, the other mark's count unchanged. */
  lemma PlayAddsOneMark(squares: Board, xIsNext: bool, i: Index)
    requires Legal(squares, i)
    ensures Count(HandleClick(squares, xIsNext, i).value, Mark(xIsNext)) == Count(squares, Mark(xIsNext)) + 1
    ensures Count(HandleClick(squares, xIsNext, i).value, Mark(!xIsNext)) == Count(squares, Mark(!xIsNext))
  {
  }
}
