/** Sequences of clicks, and the scenarios of a short game played out. */
module Replay {
  import opened Wrappers
  import opened Boards
  import opened Game

  /** The state after clicking the squares of `moves` in order. */
  function Run(g: GameState, moves: seq<Index>): (r: GameState)
    requires |g.history| >= 1
    ensures |r.history| >= 1
    decreases |moves|
  {
    if |moves| == 0 then g else Run(HandleClick(g, moves[0]), moves[1..])
  }

  /** How many of the clicks in `moves` are accepted. */
  function Accepted(g: GameState, moves: seq<Index>): (n: nat)
    requires |g.history| >= 1
    ensures n <= |moves|
    decreases |moves|
  {
    if |moves| == 0 then 0
    else (if Rejects(g, moves[0]) then 0 else 1) + Accepted(HandleClick(g, moves[0]), moves[1..])
  }

  /** Every state reached by clicks from a valid state is valid. */
  lemma {:induction false} RunPreservesValid(g: GameState, moves: seq<Index>)
    requires Valid(g)
    ensures Valid(Run(g, moves))
    decreases |moves|
  {
    if |moves| > 0 {
      HandleClickPreservesValid(g, moves[0]);
      RunPreservesValid(HandleClick(g, moves[0]), moves[1..]);
    }
  }

  /** Played from the newest entry, every accepted click adds exactly one
      entry and the cursor stays on the newest entry. */
  lemma {:induction false} RunFromTail(g: GameState, moves: seq<Index>)
    requires g.stepNumber == |g.history| - 1
    ensures Run(g, moves).stepNumber == |Run(g, moves).history| - 1
    ensures |Run(g, moves).history| == |g.history| + Accepted(g, moves)
    decreases |moves|
  {
    if |moves| > 0 {
      RunFromTail(HandleClick(g, moves[0]), moves[1..]);
    }
  }

  /** After N accepted clicks from the start, the history holds N + 1
      entries and the cursor is on entry N. */
  lemma AcceptedMovesFromStart(moves: seq<Index>)
    ensures |Run(Initial(), moves).history| == Accepted(Initial(), moves) + 1
    ensures Run(Initial(), moves).stepNumber == Accepted(Initial(), moves)
  {
    RunFromTail(Initial(), moves);
  }

  /** Once the displayed board has a winner, no sequence of clicks changes
      the state. */
  lemma {:induction false} RunAfterWinIsNoOp(g: GameState, moves: seq<Index>)
    requires |g.history| >= 1
    requires CalculateWinner(ClickedBoard(g)) != Empty
    ensures Run(g, moves) == g
    ensures Accepted(g, moves) == 0
    decreases |moves|
  {
    if |moves| > 0 {
      NoMoveAfterWin(g, moves[0]);
      RunAfterWinIsNoOp(g, moves[1..]);
    }
  }

  /** One click followed by the rest. */
  lemma RunStep(g: GameState, m: Index, rest: seq<Index>)
    requires |g.history| >= 1
    ensures Run(g, [m] + rest) == Run(HandleClick(g, m), rest)
  {
    assert ([m] + rest)[1..] == rest;
  }

  // ---------------------------------------------------------------------
  // A short game

  /** X takes the top row while O plays the centre and the middle right. */
  const TopRowGame: seq<Index> := [0, 4, 1, 5, 2]

  /** The boards of the short game, one per history entry. */
  const B1: Board := [X, Empty, Empty, Empty, Empty, Empty, Empty, Empty, Empty]
  const B2: Board := [X, Empty, Empty, Empty, O, Empty, Empty, Empty, Empty]
  const B3: Board := [X, X, Empty, Empty, O, Empty, Empty, Empty, Empty]
  const B4: Board := [X, X, Empty, Empty, O, O, Empty, Empty, Empty]
  const B5: Board := [X, X, X, Empty, O, O, Empty, Empty, Empty]

  /** The entries the short game appends: (board, col, row). */
  const E1: Entry := Entry(B1, Some(0), Some(0))
  const E2: Entry := Entry(B2, Some(1), Some(1))
  const E3: Entry := Entry(B3, Some(1), Some(0))
  const E4: Entry := Entry(B4, Some(2), Some(1))
  const E5: Entry := Entry(B5, Some(2), Some(0))

  const S1: GameState := GameState([StartEntry, E1], 1, false)
  const S2: GameState := GameState([StartEntry, E1, E2], 2, true)
  const S3: GameState := GameState([StartEntry, E1, E2, E3], 3, false)
  const S4: GameState := GameState([StartEntry, E1, E2, E3, E4], 4, true)
  const S5: GameState := GameState([StartEntry, E1, E2, E3, E4, E5], 5, false)

  /** None of the boards before the last click has a winner. */
  lemma EarlyBoardsHaveNoWinner()
    ensures CalculateWinner(B1) == Empty && CalculateWinner(B2) == Empty
    ensures CalculateWinner(B3) == Empty && CalculateWinner(B4) == Empty
  {
    NoCompleteLine(B1);
    NoCompleteLine(B2);
    NoCompleteLine(B3);
    NoCompleteLine(B4);
  }

  /** A board whose only marks lie in the first two rows, with no row held
      by one player, has no complete line. */
  lemma NoCompleteLine(b: Board)
    requires b[6] == Empty && b[7] == Empty && b[8] == Empty
    requires !(b[0] != Empty && b[0] == b[1] && b[0] == b[2])
    requires !(b[3] != Empty && b[3] == b[4] && b[3] == b[5])
    ensures CalculateWinner(b) == Empty
  {
    forall k | 0 <= k < |Lines|
      ensures !Complete(b, Lines[k])
    {
      if k >= 2 {
        assert Lines[k].c >= 6;
      }
    }
  }

  /** An accepted click made with the cursor on the newest entry appends
      the marked board and its coordinates. */
  lemma ClickOnTail(g: GameState, i: Index)
    requires |g.history| >= 1 && g.stepNumber == |g.history| - 1
    requires CalculateWinner(Last(g.history).squares) == Empty
    requires Last(g.history).squares[i] == Empty
    ensures HandleClick(g, i) == GameState(
      g.history + [Entry(Last(g.history).squares[i := Mark(g.xIsNext)], Some(ColOf(i)), Some(RowOf(i)))],
      |g.history|, !g.xIsNext)
  {
    assert Kept(g) == |g.history|;
    assert ClickedBoard(g) == Last(g.history).squares;
    assert !Rejects(g, i);
    assert g.history[..Kept(g)] == g.history;
  }

  /** Each click of the short game produces the next state. */
  lemma Click1()
    ensures HandleClick(Initial(), 0) == S1
  {
    var g := Initial();
    assert g == GameState([StartEntry], 0, true);
    assert CalculateWinner(Last(g.history).squares) == Empty by {
      EmptyBoardHasNoWinner();
    }
    ClickOnTail(g, 0);
    assert EmptyBoard[0 := X] == B1;
  }

  lemma Click2()
    ensures HandleClick(S1, 4) == S2
  {
    EarlyBoardsHaveNoWinner();
    ClickOnTail(S1, 4);
    assert B1[4 := O] == B2;
  }

  lemma Click3()
    ensures HandleClick(S2, 1) == S3
  {
    EarlyBoardsHaveNoWinner();
    ClickOnTail(S2, 1);
    assert B2[1 := X] == B3;
  }

  lemma Click4()
    ensures HandleClick(S3, 5) == S4
  {
    EarlyBoardsHaveNoWinner();
    ClickOnTail(S3, 5);
    assert B3[5 := O] == B4;
  }

  lemma Click5()
    ensures HandleClick(S4, 2) == S5
  {
    EarlyBoardsHaveNoWinner();
    ClickOnTail(S4, 2);
    assert B4[2 := X] == B5;
  }

  /** The five clicks lead from the start to `S5`. */
  lemma TopRowGameRuns()
    ensures Run(Initial(), TopRowGame) == S5
  {
    RunStep(S4, 2, []);
    Click5();
    RunStep(S3, 5, [2]);
    Click4();
    RunStep(S2, 1, [5, 2]);
    Click3();
    RunStep(S1, 4, [1, 5, 2]);
    Click2();
    RunStep(Initial(), 0, [4, 1, 5, 2]);
    Click1();
  }

  /** After the five clicks X has won on the top row, the history holds six
      entries and the cursor is on the last. */
  lemma TopRowGameIsWonByX()
    ensures var g := Run(Initial(), TopRowGame);
      && CalculateWinner(Current(g)) == X
      && |g.history| == 6 && g.stepNumber == 5
  {
    TopRowGameRuns();
    TopRowIsComplete();
  }

  /** The final board of the short game is won by X on the top row. */
  lemma TopRowIsComplete()
    ensures CalculateWinner(B5) == X
  {
    assert FirstComplete(B5, 0);
  }

  /** The entry that replaces entries 3..5 after the jump back to step 2. */
  const E3': Entry := Entry([X, Empty, Empty, Empty, O, Empty, Empty, X, Empty], Some(1), Some(2))

  /** The jump back to step 2 from the end of the short game. */
  lemma JumpBack()
    ensures JumpTo(S5, 2) == GameState(S5.history, 2, true)
    ensures S5.history[..3] == S2.history
    ensures Current(JumpTo(S5, 2)) == B2
  {
  }

  /** Square 7 clicked after the jump back to step 2. */
  lemma ClickAfterJump()
    ensures HandleClick(JumpTo(S5, 2), 7) == GameState(S2.history + [E3'], 3, false)
  {
    JumpBack();
    EarlyBoardsHaveNoWinner();
    assert !Rejects(JumpTo(S5, 2), 7);
    assert B2[7 := X] == E3'.squares;
  }

  /** Jumping back to step 2 and clicking square 7 replaces entries 3..5 by
      one entry holding the moves on squares 0, 4 and 7. */
  lemma RewriteAfterJump()
    ensures JumpTo(Run(Initial(), TopRowGame), 2) == GameState(S5.history, 2, true)
    ensures HandleClick(JumpTo(Run(Initial(), TopRowGame), 2), 7)
         == GameState(S2.history + [E3'], 3, false)
  {
    TopRowGameRuns();
    JumpBack();
    ClickAfterJump();
  }
}
