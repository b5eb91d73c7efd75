/** The state of the `Game` component: the list of boards played so far and
    the number of the one on display, with `handlePlay` and `jumpTo`. */
module Game {
  import opened Squares
  import opened Winner
  import opened Moves

  /** `history` and `currentMove`, the component's two pieces of state. */
  datatype GameState = GameState(history: seq<Board>, currentMove: nat)

  /** `currentMove` names an entry of the history. */
  predicate Valid(g: GameState) {
    g.currentMove < |g.history|
  }

  /** The state a page starts in: one empty board, displayed as move 0. */
  const Initial: GameState := GameState([EmptyBoard], 0)

  /** `xIsNext`: X moves on even-numbered positions, so the player to move
      places the mark of move number `currentMove + 1`. */
  function XIsNext(g: GameState): (r: bool)
    ensures Mark(r) == MoverOf(g.currentMove + 1)
  {
    g.currentMove % 2 == 0
  }

  /** The board on display, the one the `Board` component receives. */
  function CurrentSquares(g: GameState): (r: Board)
    requires Valid(g)
    ensures r in g.history
  {
    g.history[g.currentMove]
  }

  /** `handlePlay`: drop every board after the displayed one, append the new
      board, and point at it. */
  function HandlePlay(g: GameState, nextSquares: Board): (g': GameState)
    requires Valid(g)
    ensures Valid(g') && g'.currentMove == |g'.history| - 1
    ensures |g'.history| == g.currentMove + 2
    ensures g'.currentMove == g.currentMove + 1
    ensures forall k :: 0 <= k <= g.currentMove ==> g'.history[k] == g.history[k]
    ensures CurrentSquares(g') == nextSquares
  {
    var nextHistory := g.history[..g.currentMove + 1] + [nextSquares];
    GameState(nextHistory, |nextHistory| - 1)
  }

  /** `jumpTo`: display an existing entry; the history stays. */
  function JumpTo(g: GameState, nextMove: nat): (g': GameState)
    requires nextMove < |g.history|
    ensures Valid(g')
    ensures g'.history == g.history && g'.currentMove == nextMove
    ensures CurrentSquares(g') == g.history[nextMove]
    ensures XIsNext(g') <==> nextMove % 2 == 0
  {
    g.(currentMove := nextMove)
  }

  /** A click on square `i` as the whole game sees it: the `Board`
      component's `handleClick` on the displayed board with the game's
      `xIsNext`, and `handlePlay` as its `onPlay`. */
  function Click(g: GameState, i: Index): (g': GameState)
    requires Valid(g)
    ensures Valid(g')
    ensures !Legal(CurrentSquares(g), i) ==> g' == g
    ensures Legal(CurrentSquares(g), i) ==>
      && |g'.history| == g.currentMove + 2
      && g'.currentMove == g.currentMove + 1
      && (forall k :: 0 <= k <= g.currentMove ==> g'.history[k] == g.history[k])
      && XIsNext(g') == !XIsNext(g)
      && CurrentSquares(g')[i] == Mark(XIsNext(g))
      && (forall j :: 0 <= j < 9 && j != i ==> CurrentSquares(g')[j] == CurrentSquares(g)[j])
  {
    match HandleClick(CurrentSquares(g), XIsNext(g), i)
    case None => g
    case Some(nextSquares) => HandlePlay(g, nextSquares)
  }

  /** The mark placed by move number `k` (k >= 1): X on odd moves, O on even. */
  function MoverOf(k: nat): Cell {
    Mark(k % 2 == 1)
  }

  /** `next` is `prev` with the empty square `i` given mark `m`. */
  predicate MovedAt(prev: Board, next: Board, i: Index, m: Cell) {
    prev[i] == Empty && next == prev[i := m]
  }

  /** `next` follows `prev` by one move of mark `m`. */
  predicate OneMove(prev: Board, next: Board, m: Cell) {
    exists i :: 0 <= i < 9 && MovedAt(prev, next, i, m)
  }

  /** Entry `k` follows entry `k - 1` by one move of the mark whose turn it
      was, played on a board nobody had yet won. */
  predicate StepAt(h: seq<Board>, k: nat)
    requires 0 < k < |h|
  {
    !HasWinningLine(h[k - 1]) && OneMove(h[k - 1], h[k], MoverOf(k))
  }

  /** A history the game can build: it starts from the empty board and each
      later entry is one move on from the entry before. */
  predicate WellFormedHistory(h: seq<Board>) {
    && |h| > 0
    && h[0] == EmptyBoard
    && forall k :: 0 < k < |h| ==> StepAt(h, k)
  }

  /** The invariant every reachable game state keeps. */
  predicate Inv(g: GameState) {
    Valid(g) && WellFormedHistory(g.history)
  }

  /** The page starts in a state that satisfies the invariant. */
  lemma InitialInv()
    ensures Inv(Initial)
  {
  }

  /** A click, ignored or played, keeps the invariant. */
  lemma {:induction false} ClickPreservesInv(g: GameState, i: Index)
    requires Inv(g)
    ensures Inv(Click(g, i))
  {
    var cur := CurrentSquares(g);
    if Legal(cur, i) {
      var g' := Click(g, i);
      var h, h' := g.history, g'.history;
      var n := g.currentMove;
      var next := cur[i := Mark(XIsNext(g))];
      assert h' == h[..n + 1] + [next];
      assert StepAt(h', n + 1) by {
        assert h'[n] == cur && h'[n + 1] == next;
        assert MovedAt(h'[n], h'[n + 1], i, MoverOf(n + 1));
      }
      forall k | 0 < k < |h'|
        ensures StepAt(h', k)
      {
        if k <= n {
          assert StepAt(h, k);
          assert h'[k - 1] == h[k - 1] && h'[k] == h[k];
        }
      }
    }
  }

  /** A jump to an existing entry keeps the invariant. */
  lemma JumpToPreservesInv(g: GameState, nextMove: nat)
    requires Inv(g) && nextMove < |g.history|
    ensures Inv(JumpTo(g, nextMove))
  {
  }

  /** Entry `k` of a well-formed history holds ceil(k/2) X marks and
      floor(k/2) O marks. */
  lemma {:induction false} HistoryCounts(h: seq<Board>, k: nat)
    requires WellFormedHistory(h) && k < |h|
    ensures Count(h[k], X) == (k + 1) / 2
    ensures Count(h[k], O) == k / 2
  {
    if k == 0 {
      assert multiset(EmptyBoard)[X] == 0 && multiset(EmptyBoard)[O] == 0 by {
        assert forall j :: 0 <= j < 9 ==> EmptyBoard[j] == Empty;
      }
    } else {
      HistoryCounts(h, k - 1);
      assert StepAt(h, k);
      var prev, m := h[k - 1], MoverOf(k);
      var i :| 0 <= i < 9 && MovedAt(prev, h[k], i, m);
      CountAfterPlacing(prev, i, m);
      if k % 2 == 1 {
        assert m == X;
      } else {
        assert m == O;
      }
    }
  }

  /** On a reachable state X is next exactly when both players have the same
      number of marks on the displayed board; otherwise X has one more. */
  lemma {:induction false} XIsNextMatchesBoard(g: GameState)
    requires Inv(g)
    ensures XIsNext(g) <==> Count(CurrentSquares(g), X) == Count(CurrentSquares(g), O)
    ensures !XIsNext(g) <==> Count(CurrentSquares(g), X) == Count(CurrentSquares(g), O) + 1
  {
    HistoryCounts(g.history, g.currentMove);
  }

  /** The board on display in a reachable state carries exactly
      `currentMove` marks. */
  lemma {:induction false} DisplayedBoardHasCurrentMoveMarks(g: GameState)
    requires Inv(g)
    ensures Count(CurrentSquares(g), X) + Count(CurrentSquares(g), O) == g.currentMove
  {
    HistoryCounts(g.history, g.currentMove);
  }

  /** Every entry of a well-formed history has `k` marks, and there are
      only nine squares, so a history never holds more than ten boards. */
  lemma {:induction false} HistoryAtMostTen(h: seq<Board>)
    requires WellFormedHistory(h)
    ensures |h| <= 10
  {
    var k := |h| - 1;
    HistoryCounts(h, k);
    CountsAddUp(h[k]);
  }

  /** A reachable board that reads "Draw" is the board after the ninth move. */
  lemma {:induction false} DrawOnlyAfterNineMoves(g: GameState)
    requires Inv(g) && DeriveStatus(CurrentSquares(g), XIsNext(g)).Draw?
    ensures g.currentMove == 9
  {
    var cur := CurrentSquares(g);
    HistoryCounts(g.history, g.currentMove);
    CountsAddUp(cur);
    assert multiset(cur)[Empty] == 0 by {
      assert Empty !in multiset(cur);
    }
  }

  /** On a reachable board with a complete line, that line belongs to the
      player who made the last move, and the status names that player. */
  lemma {:induction false} WinnerIsLastMover(g: GameState)
    requires Inv(g) && HasWinningLine(CurrentSquares(g))
    ensures g.currentMove > 0
    ensures DeriveStatus(CurrentSquares(g), XIsNext(g)) == Won(MoverOf(g.currentMove))
    ensures forall k :: 0 <= k < |Lines| && Completes(CurrentSquares(g), Lines[k]) ==>
      CurrentSquares(g)[Lines[k].a] == MoverOf(g.currentMove)
  {
    var h, n := g.history, g.currentMove;
    if n == 0 {
      EmptyBoardHasNoWinner();
      assert false;
    }
    var prev, cur := h[n - 1], h[n];
    assert StepAt(h, n);
    var i :| 0 <= i < 9 && MovedAt(prev, cur, i, MoverOf(n));
    forall k | 0 <= k < |Lines| && Completes(cur, Lines[k])
      ensures cur[Lines[k].a] == MoverOf(n)
    {
      var l := Lines[k];
      if i != l.a && i != l.b && i != l.c {
        assert false;
      }
    }
  }

  /** Jumping back to move 0 shows the empty board with X to move. */
  lemma JumpToStartRestoresEmpty(g: GameState)
    requires Inv(g)
    ensures CurrentSquares(JumpTo(g, 0)) == EmptyBoard
    ensures XIsNext(JumpTo(g, 0))
  {
  }

  /** After a jump to entry `m`, a click that is a move leaves `m + 2`
      boards: the future beyond `m` is discarded. */
  lemma JumpThenPlayTruncates(g: GameState, m: nat, i: Index)
    requires m < |g.history| && Legal(g.history[m], i)
    ensures |Click(JumpTo(g, m), i).history| == m + 2
    ensures Click(JumpTo(g, m), i).history[..m + 1] == g.history[..m + 1]
  {
  }
}
