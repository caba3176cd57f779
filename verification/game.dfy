/** The game state and its two transitions: a move (`handleClick`) and time
    travel (`jumpTo`). Each transition is a pure function from the old state
    to the new one, as one `setState` call would leave it. */
module Game {
  import opened Wrappers
  import opened Boards

  /** One history entry: a board and the coordinates of the move that
      produced it (unset for the initial entry). */
  datatype Entry = Entry(squares: Board, col: Option<nat>, row: Option<nat>)

  /** The game component's state. `stepNumber` is the cursor into
      `history`; `xIsNext` says whose turn it is. */
  datatype GameState = GameState(history: seq<Entry>, stepNumber: nat, xIsNext: bool)

  const StartEntry: Entry := Entry(EmptyBoard, None, None)

  /** The board on display: the entry under the cursor. */
  function Current(g: GameState): (b: Board)
    requires g.stepNumber < |g.history|
  {
    g.history[g.stepNumber].squares
  }

  /** The last entry of a non-empty history. */
  function Last(h: seq<Entry>): (e: Entry)
    requires |h| > 0
  {
    h[|h| - 1]
  }

  // ---------------------------------------------------------------------
  // The invariant

  /** Board number `k` of the history holds `k` marks, X having moved first:
      ceil(k/2) X's and floor(k/2) O's. */
  predicate MarksMatchStep(squares: Board, k: nat) {
    Count(squares, X) == (k + 1) / 2 && Count(squares, O) == k / 2
  }

  /** `e` is `prev` with one more move: the recorded square was empty in
      `prev`, is marked in `e`, and every other square is the same. */
  predicate Follows(prev: Entry, e: Entry) {
    && e.col.Some? && e.row.Some? && e.col.value < 3 && e.row.value < 3
    && var i := IndexAt(e.row.value, e.col.value);
    && prev.squares[i] == Empty
    && e.squares[i] != Empty
    && forall j: Index :: j != i ==> e.squares[j] == prev.squares[j]
  }

  /** Entry `k` of `h` holds the marks of step `k`. */
  predicate MarksMatchAt(h: seq<Entry>, k: int) {
    0 <= k < |h| && MarksMatchStep(h[k].squares, k)
  }

  /** Entry `k` of `h` follows entry `k - 1`. */
  predicate FollowsAt(h: seq<Entry>, k: int) {
    1 <= k < |h| && Follows(h[k - 1], h[k])
  }

  /** What every reachable state satisfies. */
  predicate Valid(g: GameState) {
    && |g.history| >= 1
    && g.history[0] == StartEntry
    && g.stepNumber < |g.history|
    && g.xIsNext == (g.stepNumber % 2 == 0)
    && (forall k :: 0 <= k < |g.history| ==> MarksMatchAt(g.history, k))
    && (forall k :: 1 <= k < |g.history| ==> FollowsAt(g.history, k))
  }

  // ---------------------------------------------------------------------
  // Transitions

  /** The state the game component starts in. */
  function Initial(): (g: GameState)
    ensures Valid(g)
    ensures Current(g) == EmptyBoard && g.xIsNext
  {
    GameState([StartEntry], 0, true)
  }

  /** How many entries a click keeps: those up to and including the cursor,
      or all of them when the cursor lies beyond the end (`slice` clamps). */
  function Kept(g: GameState): (n: nat)
    requires |g.history| >= 1
    ensures 1 <= n <= |g.history|
    ensures g.stepNumber < |g.history| ==> n == g.stepNumber + 1
    ensures |g.history| <= g.stepNumber ==> n == |g.history|
  {
    if g.stepNumber + 1 <= |g.history| then g.stepNumber + 1 else |g.history|
  }

  /** The board a click is played on: the last kept entry's. */
  function ClickedBoard(g: GameState): (b: Board)
    requires |g.history| >= 1
  {
    g.history[Kept(g) - 1].squares
  }

  /** A click on square `i` is ignored when the board it is played on
      already has a winner or the square is taken. */
  predicate Rejects(g: GameState, i: Index)
    requires |g.history| >= 1
  {
    CalculateWinner(ClickedBoard(g)) != Empty || ClickedBoard(g)[i] != Empty
  }

  /** A click on square `i`. The history beyond the cursor is discarded,
      the current board is copied with the player's mark in square `i`, the
      copy is appended together with the move's coordinates, the cursor moves
      to it and the turn passes. A rejected click changes nothing. */
  function HandleClick(g: GameState, i: Index): (r: GameState)
    requires |g.history| >= 1
    ensures |r.history| >= 1
    ensures Rejects(g, i) ==> r == g
    ensures !Rejects(g, i) ==>
      // one entry is added after the kept ones, the cursor moves onto it
      // and the turn passes
      && |r.history| == Kept(g) + 1
      && r.stepNumber == |r.history| - 1
      && r.xIsNext == !g.xIsNext
  {
    if Rejects(g, i) then
      g
    else
      var history := g.history[..Kept(g)];
      var squares := Last(history).squares;
      var entry := Entry(squares[i := Mark(g.xIsNext)], Some(ColOf(i)), Some(RowOf(i)));
      GameState(history + [entry], |history|, !g.xIsNext)
  }

  /** An accepted click keeps the entries up to the cursor unchanged. */
  lemma AcceptedMoveKeepsPrefix(g: GameState, i: Index)
    requires |g.history| >= 1
    requires !Rejects(g, i)
    ensures HandleClick(g, i).history[..Kept(g)] == g.history[..Kept(g)]
  {
  }

  /** The board of an accepted click is the clicked board with the mover's
      mark in square `i` and every other square unchanged. */
  lemma AcceptedMoveBoard(g: GameState, i: Index)
    requires |g.history| >= 1
    requires !Rejects(g, i)
    ensures Current(HandleClick(g, i))[i] == Mark(g.xIsNext)
    ensures forall j: Index :: j != i ==> Current(HandleClick(g, i))[j] == ClickedBoard(g)[j]
  {
  }

  /** An accepted click records coordinates that name the clicked square,
      and its entry follows the board the click was played on. */
  lemma AcceptedMoveRecordsSquare(g: GameState, i: Index)
    requires |g.history| >= 1
    requires !Rejects(g, i)
    ensures var e := Last(HandleClick(g, i).history);
      && e.col.Some? && e.row.Some? && e.col.value < 3 && e.row.value < 3
      && IndexAt(e.row.value, e.col.value) == i
      && Follows(g.history[Kept(g) - 1], e)
  {
    var prev := g.history[Kept(g) - 1];
    var e := AcceptedEntry(g, i);
    assert prev.squares == ClickedBoard(g);
    IndexOfCoordinates(i);
    assert IndexAt(e.row.value, e.col.value) == i;
    forall j: Index | j != i
      ensures e.squares[j] == prev.squares[j]
    {
    }
  }

  /** The entry an accepted click appends. */
  lemma AcceptedEntry(g: GameState, i: Index) returns (e: Entry)
    requires |g.history| >= 1
    requires !Rejects(g, i)
    ensures e == Last(HandleClick(g, i).history)
    ensures e == Entry(ClickedBoard(g)[i := Mark(g.xIsNext)], Some(ColOf(i)), Some(RowOf(i)))
  {
    var h := g.history[..Kept(g)];
    assert Last(h) == g.history[Kept(g) - 1];
    e := Entry(ClickedBoard(g)[i := Mark(g.xIsNext)], Some(ColOf(i)), Some(RowOf(i)));
    assert HandleClick(g, i).history == h + [e];
  }

  /** Time travel: the cursor moves to `step` and the turn is derived from
      its parity. The history is not touched. */
  function JumpTo(g: GameState, step: nat): (r: GameState)
    ensures r.history == g.history
    ensures r.stepNumber == step
    ensures r.xIsNext <==> step % 2 == 0
  {
    g.(stepNumber := step, xIsNext := step % 2 == 0)
  }

  // ---------------------------------------------------------------------
  // Invariant preservation

  /** Writing the mark of the player whose turn the parity of step `s`
      gives into an empty square of a board of step `s` yields a board of
      step `s + 1`. */
  lemma WriteMarkCounts(b: Board, s: nat, i: Index, xIsNext: bool)
    requires MarksMatchStep(b, s)
    requires b[i] == Empty
    requires xIsNext == (s % 2 == 0)
    ensures MarksMatchStep(b[i := Mark(xIsNext)], s + 1)
  {
    CountAfterWrite(b, i, Mark(xIsNext), X);
    CountAfterWrite(b, i, Mark(xIsNext), O);
  }

  /** An accepted move appends a board with one more mark, of the kind
      the parity of the cursor prescribes. */
  lemma AcceptedMoveCounts(g: GameState, i: Index)
    requires Valid(g)
    requires !Rejects(g, i)
    ensures MarksMatchStep(Current(HandleClick(g, i)), g.stepNumber + 1)
  {
    var m := Mark(g.xIsNext);
    assert Current(HandleClick(g, i)) == ClickedBoard(g)[i := m];
    assert ClickedBoard(g) == Current(g);
    assert MarksMatchAt(g.history, g.stepNumber);
    WriteMarkCounts(Current(g), g.stepNumber, i, g.xIsNext);
  }

  /** An accepted move keeps the entries up to the cursor and appends one
      entry. */
  lemma AcceptedMoveAppends(g: GameState, i: Index)
    requires Valid(g)
    requires !Rejects(g, i)
    ensures HandleClick(g, i).history
         == g.history[..g.stepNumber + 1] + [Last(HandleClick(g, i).history)]
  {
    var r := HandleClick(g, i);
    var n := g.stepNumber + 1;
    assert Kept(g) == n;
    assert r.history == r.history[..n] + [Last(r.history)];
  }

  /** After an accepted move the cursor is on the next step and the turn
      follows its parity. */
  lemma AcceptedMoveAdvances(g: GameState, i: Index)
    requires Valid(g)
    requires !Rejects(g, i)
    ensures HandleClick(g, i).stepNumber == g.stepNumber + 1
    ensures HandleClick(g, i).xIsNext == ((g.stepNumber + 1) % 2 == 0)
  {
    assert Kept(g) == g.stepNumber + 1;
  }

  /** Appending an entry that follows the last one, with the mark counts of
      its position, keeps the history well formed. */
  lemma ExtendedHistoryValid(r: GameState, h: seq<Entry>, e: Entry)
    requires |h| >= 1 && h[0] == StartEntry
    requires forall k :: 0 <= k < |h| ==> MarksMatchAt(h, k)
    requires forall k :: 1 <= k < |h| ==> FollowsAt(h, k)
    requires Follows(Last(h), e)
    requires MarksMatchStep(e.squares, |h|)
    requires r.history == h + [e] && r.stepNumber == |h| && r.xIsNext == (|h| % 2 == 0)
    ensures Valid(r)
  {
    var h' := h + [e];
    forall k | 0 <= k < |h'|
      ensures MarksMatchAt(h', k)
    {
      if k < |h| {
        assert MarksMatchAt(h, k);
        assert h'[k] == h[k];
      }
    }
    forall k | 1 <= k < |h'|
      ensures FollowsAt(h', k)
    {
      if k < |h| {
        assert FollowsAt(h, k);
        assert h'[k] == h[k] && h'[k - 1] == h[k - 1];
      }
    }
  }

  /** The entries a click keeps from a valid state are well formed. */
  lemma KeptHistoryWellFormed(g: GameState)
    requires Valid(g)
    ensures var h := g.history[..g.stepNumber + 1];
      && |h| >= 1 && h[0] == StartEntry && Last(h) == g.history[g.stepNumber]
      && (forall k :: 0 <= k < |h| ==> MarksMatchAt(h, k))
      && (forall k :: 1 <= k < |h| ==> FollowsAt(h, k))
  {
    var h := g.history[..g.stepNumber + 1];
    forall k | 0 <= k < |h|
      ensures MarksMatchAt(h, k)
    {
      assert MarksMatchAt(g.history, k);
    }
    forall k | 1 <= k < |h|
      ensures FollowsAt(h, k)
    {
      assert FollowsAt(g.history, k);
    }
  }

  /** `handleClick` keeps the state valid. */
  lemma HandleClickPreservesValid(g: GameState, i: Index)
    requires Valid(g)
    ensures Valid(HandleClick(g, i))
  {
    if !Rejects(g, i) {
      var r := HandleClick(g, i);
      var s := g.stepNumber;
      var h := g.history[..s + 1];
      var e := Last(r.history);
      assert Kept(g) == s + 1;
      AcceptedMoveCounts(g, i);
      AcceptedMoveAppends(g, i);
      AcceptedMoveAdvances(g, i);
      AcceptedMoveRecordsSquare(g, i);
      KeptHistoryWellFormed(g);
      ExtendedHistoryValid(r, h, e);
    }
  }

  /** `jumpTo` keeps the state valid for every step the move list offers. */
  lemma JumpToPreservesValid(g: GameState, step: nat)
    requires Valid(g)
    requires step < |g.history|
    ensures Valid(JumpTo(g, step))
  {
  }

  /** In a valid state entry `k` of the history holds exactly `k` marks
      and 9 - k empty squares. */
  lemma EntryHasStepMarks(g: GameState, k: nat)
    requires Valid(g)
    requires k < |g.history|
    ensures Count(g.history[k].squares, X) + Count(g.history[k].squares, O) == k
    ensures Count(g.history[k].squares, Empty) == 9 - k
  {
    assert MarksMatchAt(g.history, k);
    CountsAddUp(g.history[k].squares);
  }

  /** A game never has more than nine moves: at most ten history entries. */
  lemma HistoryAtMostTen(g: GameState)
    requires Valid(g)
    ensures |g.history| <= 10
  {
    var k := |g.history| - 1;
    assert MarksMatchAt(g.history, k);
    CountsAddUp(g.history[k].squares);
  }

  // ---------------------------------------------------------------------
  // Laws of the transitions

  /** Jumping to the step already under the cursor changes nothing. */
  lemma JumpToCurrentIsIdentity(g: GameState)
    requires Valid(g)
    ensures JumpTo(g, g.stepNumber) == g
  {
  }

  /** Only the last jump matters. */
  lemma JumpToOverrides(g: GameState, a: nat, b: nat)
    ensures JumpTo(JumpTo(g, a), b) == JumpTo(g, b)
  {
  }

  /** Truncation law: a move after jumping back to step `k` keeps entries
      0..k, discards every later one and appends the new board. */
  lemma MoveAfterJumpTruncates(g: GameState, k: nat, i: Index)
    requires Valid(g)
    requires k < |g.history|
    requires !Rejects(JumpTo(g, k), i)
    ensures var r := HandleClick(JumpTo(g, k), i);
      && |r.history| == k + 2
      && r.history[..k + 1] == g.history[..k + 1]
      && Last(r.history).squares == g.history[k].squares[i := Mark(k % 2 == 0)]
  {
  }

  /** Once the displayed board has a winner, every click is ignored. */
  lemma NoMoveAfterWin(g: GameState, i: Index)
    requires |g.history| >= 1
    requires CalculateWinner(ClickedBoard(g)) != Empty
    ensures HandleClick(g, i) == g
  {
  }
}
