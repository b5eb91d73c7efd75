/** Whole games played click by click from the initial state. */
module Scenarios {
  import opened Squares
  import opened Winner
  import opened Moves
  import opened Game

  /** The state after clicking the squares of `clicks` in order. */
  function Clicks(g: GameState, clicks: seq<Index>): (g': GameState)
    requires Valid(g)
    ensures Valid(g')
    ensures Inv(g) ==> Inv(g')
    ensures |g'.history| <= |g.history| + |clicks|
    decreases |clicks|
  {
    if |clicks| == 0 then g
    else
      var next := Click(g, clicks[0]);
      assert Inv(g) ==> Inv(next) by {
        if Inv(g) {
          ClickPreservesInv(g, clicks[0]);
        }
      }
      Clicks(next, clicks[1..])
  }

  /** Every state the page can reach by clicks alone keeps the invariant,
      so its entries carry the alternating mark counts. */
  lemma {:induction false} ClicksFromInitialKeepCounts(clicks: seq<Index>, k: nat)
    requires k < |Clicks(Initial, clicks).history|
    ensures Count(Clicks(Initial, clicks).history[k], X) == (k + 1) / 2
    ensures Count(Clicks(Initial, clicks).history[k], O) == k / 2
  {
    InitialInv();
    HistoryCounts(Clicks(Initial, clicks).history, k);
  }

  /** X on 0, O on 4, X on 1, O on 5, X on 2: X completes the top row and
      the status reads "Winner: X". */
  // The click list is a parameter rather than a literal in the contract: a
  // literal list lets the verifier unroll `Clicks` on its own, without bound.
  lemma TopRowWin(clicks: seq<Index>)
    requires clicks == [0, 4, 1, 5, 2]
    ensures var g := Clicks(Initial, clicks);
      && CurrentSquares(g) == [X, X, X, Empty, O, O, Empty, Empty, Empty]
      && CalculateWinner(CurrentSquares(g)) == Some(Line(0, 1, 2))
      && DeriveStatus(CurrentSquares(g), XIsNext(g)) == Won(X)
      && forall i: Index :: Click(g, i) == g
  {
    var b1 := [X, Empty, Empty, Empty, Empty, Empty, Empty, Empty, Empty];
    var b2 := [X, Empty, Empty, Empty, O, Empty, Empty, Empty, Empty];
    var b3 := [X, X, Empty, Empty, O, Empty, Empty, Empty, Empty];
    var b4 := [X, X, Empty, Empty, O, O, Empty, Empty, Empty];
    var b5 := [X, X, X, Empty, O, O, Empty, Empty, Empty];
    var g1 := Click(Initial, 0);
    assert CurrentSquares(g1) == b1;
    var g2 := Click(g1, 4);
    assert CurrentSquares(g2) == b2;
    var g3 := Click(g2, 1);
    assert CurrentSquares(g3) == b3;
    var g4 := Click(g3, 5);
    assert CurrentSquares(g4) == b4;
    var g5 := Click(g4, 2);
    assert CurrentSquares(g5) == b5;
    assert Clicks(Initial, clicks) == g5 by {
      assert [0, 4, 1, 5, 2][1..] == [4, 1, 5, 2];
      assert [4, 1, 5, 2][1..] == [1, 5, 2];
      assert [1, 5, 2][1..] == [5, 2];
      assert [5, 2][1..] == [2];
    }
    assert FirstCompleteAt(b5, 0);
    CalculateWinnerIsFirst(b5, 0);
  }

  /** Clicking `a` then `b` is clicking `a + b`. */
  lemma {:induction false} ClicksAppend(g: GameState, a: seq<Index>, b: seq<Index>)
    requires Valid(g)
    ensures Clicks(g, a + b) == Clicks(Clicks(g, a), b)
    decreases |a|
  {
    if |a| > 0 {
      assert (a + b)[1..] == a[1..] + b;
      ClicksAppend(Click(g, a[0]), a[1..], b);
    } else {
      assert a + b == b;
    }
  }

  /** The first five moves of the drawn game below (click list passed as a
      parameter, as in `TopRowWin`). */
  lemma DrawOpening(clicks: seq<Index>)
    requires clicks == [0, 1, 2, 4, 3]
    ensures var g := Clicks(Initial, clicks);
      && g.currentMove == 5
      && CurrentSquares(g) == [X, O, X, X, O, Empty, Empty, Empty, Empty]
  {
    var g1 := Click(Initial, 0);
    assert CurrentSquares(g1) == [X, Empty, Empty, Empty, Empty, Empty, Empty, Empty, Empty];
    var g2 := Click(g1, 1);
    assert CurrentSquares(g2) == [X, O, Empty, Empty, Empty, Empty, Empty, Empty, Empty];
    var g3 := Click(g2, 2);
    assert CurrentSquares(g3) == [X, O, X, Empty, Empty, Empty, Empty, Empty, Empty];
    var g4 := Click(g3, 4);
    assert CurrentSquares(g4) == [X, O, X, Empty, O, Empty, Empty, Empty, Empty];
    var g5 := Click(g4, 3);
    assert CurrentSquares(g5) == [X, O, X, X, O, Empty, Empty, Empty, Empty];
    assert Clicks(Initial, clicks) == g5 by {
      assert [0, 1, 2, 4, 3][1..] == [1, 2, 4, 3];
      assert [1, 2, 4, 3][1..] == [2, 4, 3];
      assert [2, 4, 3][1..] == [4, 3];
      assert [4, 3][1..] == [3];
    }
  }

  /** The last four moves of the drawn game below, from its fifth board
      (click list passed as a parameter, as in `TopRowWin`). */
  lemma DrawEnding(g: GameState, clicks: seq<Index>)
    requires Valid(g) && g.currentMove == 5
    requires CurrentSquares(g) == [X, O, X, X, O, Empty, Empty, Empty, Empty]
    requires clicks == [5, 7, 6, 8]
    ensures var g' := Clicks(g, clicks);
      && g'.currentMove == 9
      && |g'.history| == 10
      && CurrentSquares(g') == [X, O, X, X, O, O, O, X, X]
  {
    var g6 := Click(g, 5);
    assert CurrentSquares(g6) == [X, O, X, X, O, O, Empty, Empty, Empty];
    var g7 := Click(g6, 7);
    assert CurrentSquares(g7) == [X, O, X, X, O, O, Empty, X, Empty];
    var g8 := Click(g7, 6);
    assert CurrentSquares(g8) == [X, O, X, X, O, O, O, X, Empty];
    var g9 := Click(g8, 8);
    assert CurrentSquares(g9) == [X, O, X, X, O, O, O, X, X];
    assert Clicks(g, clicks) == g9 by {
      assert [5, 7, 6, 8][1..] == [7, 6, 8];
      assert [7, 6, 8][1..] == [6, 8];
      assert [6, 8][1..] == [8];
    }
  }

  /** The full board of the drawn game has no complete line. */
  lemma DrawnBoardHasNoLine(xIsNext: bool)
    ensures DeriveStatus([X, O, X, X, O, O, O, X, X], xIsNext) == Draw
  {
  }

  /** X on 0, O on 1, X on 2, O on 4, X on 3, O on 5, X on 7, O on 6, X on 8:
      the board fills with no complete line and the status reads "Draw".
      The click list is a parameter, as in `TopRowWin`. */
  lemma FullBoardDraw(clicks: seq<Index>)
    requires clicks == [0, 1, 2, 4, 3, 5, 7, 6, 8]
    ensures var g := Clicks(Initial, clicks);
      && |g.history| == 10
      && CurrentSquares(g) == [X, O, X, X, O, O, O, X, X]
      && DeriveStatus(CurrentSquares(g), XIsNext(g)) == Draw
  {
    var opening, ending := clicks[..5], clicks[5..];
    assert opening == [0, 1, 2, 4, 3] && ending == [5, 7, 6, 8];
    DrawOpening(opening);
    var g5 := Clicks(Initial, opening);
    DrawEnding(g5, ending);
    assert clicks == opening + ending;
    ClicksAppend(Initial, opening, ending);
    DrawnBoardHasNoLine(XIsNext(Clicks(g5, ending)));
  }

  /** Four moves give five boards; jumping back to move 2 and playing a move
      leaves four boards, the last two of the old future gone. */
  lemma JumpBackAndPlay()
    ensures var g := Clicks(Initial, [0, 4, 1, 5]);
      && |g.history| == 5
      && |Click(JumpTo(g, 2), 8).history| == 4
  {
    var g1 := Click(Initial, 0);
    var g2 := Click(g1, 4);
    var g3 := Click(g2, 1);
    var g4 := Click(g3, 5);
    assert CurrentSquares(g2) == [X, Empty, Empty, Empty, O, Empty, Empty, Empty, Empty];
    assert |g4.history| == 5;
    assert Clicks(Initial, [0, 4, 1, 5]) == g4 by {
      assert [0, 4, 1, 5][1..] == [4, 1, 5];
      assert [4, 1, 5][1..] == [1, 5];
      assert [1, 5][1..] == [5];
    }
    assert g4.history[2] == CurrentSquares(g2);
    JumpThenPlayTruncates(g4, 2, 8);
  }
}
