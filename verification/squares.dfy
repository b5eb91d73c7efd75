/** Squares of the tic-tac-toe board: the cell values, the 9-cell board laid
    out row-major, and the mark a player puts down. */
module Squares {

  /** The content of one square. The source stores `null` for an unplayed
      square and the strings "X" / "O" otherwise; every falsy value the source
      could see (`null`, `undefined`, "") is `Empty` here. */
  datatype Cell = Empty | X | O

  /** The conventional Some/None wrapper, standing for the source's `T | null`. */
  datatype Option<+T> = None | Some(value: T)

  /** A square index, 0..8, row-major over the 3x3 grid. */
  type Index = i: int | 0 <= i < 9

  /** A board always has exactly nine squares. */
  type Board = b: seq<Cell> | |b| == 9
    witness [Empty, Empty, Empty, Empty, Empty, Empty, Empty, Empty, Empty]

  /** The initial board, `Array(9).fill(null)`. */
  const EmptyBoard: Board := [Empty, Empty, Empty, Empty, Empty, Empty, Empty, Empty, Empty]

  /** The mark placed by the player to move: X when `xIsNext`, else O. */
  function Mark(xIsNext: bool): (c: Cell)
    ensures c != Empty
    ensures c == X <==> xIsNext
  {
    if xIsNext then X else O
  }

  /** Some square of the board is still unplayed, `squares.some(w => w === null)`:
      exactly when fewer than nine squares carry a mark. */
  predicate HasEmpty(squares: Board)
    ensures HasEmpty(squares) <==> Count(squares, X) + Count(squares, O) < 9
  {
    CountsAddUp(squares);
    exists i :: 0 <= i < |squares| && squares[i] == Empty
  }

  /** How many squares of `b` hold `c`. */
  function Count(b: Board, c: Cell): nat {
    multiset(b)[c]
  }

  /** Every cell is Empty, X or O, so the three counts add up to the length. */
  lemma {:induction false} CountsAddUp(s: seq<Cell>)
    ensures multiset(s)[Empty] + multiset(s)[X] + multiset(s)[O] == |s|
    decreases |s|
  {
    if |s| > 0 {
      var init := s[..|s| - 1];
      assert s == init + [s[|s| - 1]];
      var last := s[|s| - 1];
      assert multiset(s) == multiset(init) + multiset{last};
      CountsAddUp(init);
      match last
      case Empty =>
      case X =>
      case O =>
    }
  }

  /** Putting a mark on an empty square adds one square of that mark and
      leaves the count of every other value except Empty alone. */
  lemma CountAfterPlacing(b: Board, i: Index, m: Cell)
    requires b[i] == Empty && m != Empty
    ensures Count(b[i := m], m) == Count(b, m) + 1
    ensures forall c :: c != m && c != Empty ==> Count(b[i := m], c) == Count(b, c)
  {
  }
}
