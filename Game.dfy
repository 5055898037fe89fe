/**
 * The state updaters of src/hooks/useGame.ts: the timer tick, the end of a
 * game, the swap a player attempts, and the cascade that follows a
 * successful swap.  React's state plumbing is reduced to a function from
 * the previous state to the next one.
 */
module Game {
  import opened Types
  import opened Runs
  import opened Matches
  import opened MatchFacts
  import opened Cascade
  import opened Helpers

  /** The game state the hook keeps. */
  datatype GameState = GameState(
    grid: Grid,
    specials: SpecialGrid,
    score: int,
    gameHistory: seq<int>,
    timeLeft: int,
    movesLeft: int,
    gameActive: bool,
    gamePaused: bool,
    animating: bool,
    selectedCell: Option<Cell>,
    dragStart: Option<Cell>,
    fallingCandies: seq<Cell>)

  // ---------------------------------------------------------------------------
  // Timer and end of game
  // ---------------------------------------------------------------------------

  /** A state in which the clock runs. */
  predicate Running(s: GameState) {
    s.gameActive && !s.gamePaused
  }

  /**
   * The updater run once a second: nothing happens unless the game runs;
   * otherwise one second is taken off, and when none is left the clock
   * stops at zero and the game ends.  No other field changes.
   */
  function TimerTick(s: GameState): (t: GameState)
    ensures !Running(s) ==> t == s
    ensures Running(s) && s.timeLeft > 1 ==> t == s.(timeLeft := s.timeLeft - 1)
    ensures Running(s) && s.timeLeft <= 1 ==> t == s.(timeLeft := 0, gameActive := false)
    ensures t.timeLeft <= s.timeLeft || (Running(s) && s.timeLeft < 1 && t.timeLeft == 0)
  {
    if !s.gameActive || s.gamePaused then s
    else
      var newTimeLeft := s.timeLeft - 1;
      if newTimeLeft <= 0 then s.(timeLeft := 0, gameActive := false)
      else s.(timeLeft := newTimeLeft)
  }

  /** `k` ticks of the clock. */
  function Ticks(s: GameState, k: nat): GameState
  {
    if k == 0 then s else TimerTick(Ticks(s, k - 1))
  }

  /**
   * A running game with `T >= 1` seconds left is still running with
   * `T - k` seconds after `k < T` ticks, and only the clock has changed.
   */
  lemma {:induction false} TicksCountDown(s: GameState, k: nat)
    requires Running(s) && k < s.timeLeft
    ensures Ticks(s, k) == s.(timeLeft := s.timeLeft - k)
  {
    if k > 0 {
      TicksCountDown(s, k - 1);
    }
  }

  /**
   * After exactly `T` ticks a running game with `T >= 1` seconds left is
   * over with the clock at zero, and further ticks change nothing.
   */
  lemma {:induction false} TimeRunsOut(s: GameState, extra: nat)
    requires Running(s) && s.timeLeft >= 1
    ensures Ticks(s, s.timeLeft) == s.(timeLeft := 0, gameActive := false)
    ensures Ticks(s, s.timeLeft + extra) == Ticks(s, s.timeLeft)
  {
    TicksCountDown(s, s.timeLeft - 1);
    if extra > 0 {
      TimeRunsOut(s, extra - 1);
    }
  }

  /**
   * The `endGame` updater: the game stops and its score is appended to the
   * history; nothing else changes.
   */
  function EndGame(s: GameState): (t: GameState)
    ensures !t.gameActive && |t.gameHistory| == |s.gameHistory| + 1
    ensures t.gameHistory[..|s.gameHistory|] == s.gameHistory && t.gameHistory[|s.gameHistory|] == s.score
    ensures t.(gameActive := s.gameActive, gameHistory := s.gameHistory) == s
  {
    s.(gameActive := false, gameHistory := s.gameHistory + [s.score])
  }

  /** An ended game no longer runs its clock. */
  lemma EndGameStopsClock(s: GameState)
    ensures TimerTick(EndGame(s)) == EndGame(s)
  {
  }

  // ---------------------------------------------------------------------------
  // Swapping two cells
  // ---------------------------------------------------------------------------

  /** A board with the entries of cells `a` and `b` exchanged. */
  function Swapped<T>(g: seq<seq<T>>, n: int, a: Cell, b: Cell): (g': seq<seq<T>>)
    requires IsSquare(g, n) && InBounds(a, n) && InBounds(b, n)
    ensures IsSquare(g', n)
    ensures g'[a.row][a.col] == g[b.row][b.col] && g'[b.row][b.col] == g[a.row][a.col]
    ensures forall r, c :: 0 <= r < n && 0 <= c < n && Cell(r, c) != a && Cell(r, c) != b ==> g'[r][c] == g[r][c]
  {
    SetCell(SetCell(g, n, a.row, a.col, g[b.row][b.col]), n, b.row, b.col, g[a.row][a.col])
  }

  /** Swapping the same two cells again restores the board. */
  lemma SwapTwiceRestores<T>(g: seq<seq<T>>, n: int, a: Cell, b: Cell)
    requires IsSquare(g, n) && InBounds(a, n) && InBounds(b, n)
    ensures Swapped(Swapped(g, n, a, b), n, a, b) == g
  {
    GridEqual(Swapped(Swapped(g, n, a, b), n, a, b), g, n);
  }

  /** The order of the two cells does not matter. */
  lemma SwapSymmetric<T>(g: seq<seq<T>>, n: int, a: Cell, b: Cell)
    requires IsSquare(g, n) && InBounds(a, n) && InBounds(b, n)
    ensures Swapped(g, n, a, b) == Swapped(g, n, b, a)
  {
    GridEqual(Swapped(g, n, a, b), Swapped(g, n, b, a), n);
  }

  /** The state's boards are `n` by `n`. */
  predicate WellSized(s: GameState, n: int) {
    IsSquare(s.grid, n) && IsSquare(s.specials, n)
  }

  /** Exchange the entries of two cells in place, on a copy of the board. */
  method SwapCells<T>(g: seq<seq<T>>, n: int, a: Cell, b: Cell) returns (g': seq<seq<T>>)
    requires IsSquare(g, n) && InBounds(a, n) && InBounds(b, n)
    ensures g' == Swapped(g, n, a, b)
  {
    var temp := g[a.row][a.col];
    g' := SetCell(g, n, a.row, a.col, g[b.row][b.col]);
    g' := SetCell(g', n, b.row, b.col, temp);
  }

  /**
   * The `attemptSwap` updater.  While a cascade is animating, or when the
   * cells are not adjacent, nothing happens.  Otherwise the two cells (and
   * their special records) are swapped on copies of the boards; when the
   * swapped board has no match, the swap is undone and the previous state
   * returned, else the swapped boards are kept, one move is used, the
   * selection and drag are cleared, and a cascade is due (`cascade`).
   */
  method AttemptSwap(s: GameState, n: int, a: Cell, b: Cell) returns (t: GameState, cascade: bool)
    requires n >= 1 && WellSized(s, n) && InBounds(a, n) && InBounds(b, n)
    ensures cascade <==> !s.animating && AreAdjacent(a, b) && MatchList(Swapped(s.grid, n, a, b), n) != []
    ensures !cascade ==> t == s
    ensures cascade ==>
      t == s.(grid := Swapped(s.grid, n, a, b), specials := Swapped(s.specials, n, a, b),
              movesLeft := s.movesLeft - 1, selectedCell := None, dragStart := None, fallingCandies := [])
  {
    if s.animating || !AreAdjacent(a, b) {
      return s, false;
    }
    var newGrid := SwapCells(s.grid, n, a, b);
    var newSpecialGrid := SwapCells(s.specials, n, a, b);
    var matches, _ := FindSpecialMatches(newGrid, n);
    if |matches| == 0 {
      newGrid := SwapCells(newGrid, n, a, b);
      newSpecialGrid := SwapCells(newSpecialGrid, n, a, b);
      SwapTwiceRestores(s.grid, n, a, b);
      SwapTwiceRestores(s.specials, n, a, b);
      assert newGrid == s.grid && newSpecialGrid == s.specials;
      return s, false;
    }
    t := s.(grid := newGrid, specials := newSpecialGrid, movesLeft := s.movesLeft - 1,
            selectedCell := None, dragStart := None, fallingCandies := []);
    cascade := true;
  }

  /** A swap that is kept leaves only the two cells changed, and they exchange their contents. */
  lemma KeptSwapMovesTwoCells(g: Grid, sp: SpecialGrid, n: int, a: Cell, b: Cell)
    requires IsSquare(g, n) && IsSquare(sp, n) && InBounds(a, n) && InBounds(b, n)
    ensures forall r, c :: 0 <= r < n && 0 <= c < n && Swapped(g, n, a, b)[r][c] != g[r][c] ==>
      Cell(r, c) == a || Cell(r, c) == b
    ensures forall r, c :: 0 <= r < n && 0 <= c < n && Swapped(sp, n, a, b)[r][c] != sp[r][c] ==>
      Cell(r, c) == a || Cell(r, c) == b
  {
  }

  // ---------------------------------------------------------------------------
  // The cascade
  // ---------------------------------------------------------------------------

  /**
   * `processCascade` as a closure: the callback reads the grid, specials and
   * score of `seen`, the state of the render that created it, while its two
   * updaters apply to `prev`, the state current when they run.  It marks
   * `prev` as animating, runs the `step` loop on the boards and score of
   * `seen`, and on the step that finds no match stores the completed boards
   * and the score onto `prev`, stops animating and clears the falling
   * candies.  A run that has not finished within `fuel` steps leaves the
   * state animating.  `roll` and `next` stand for the colour draws, `points`
   * for the points per cleared cell.
   */
  method CascadeFrom(prev: GameState, seen: GameState, n: int, points: int, roll: nat -> int, next: nat, fuel: nat)
    returns (t: GameState, next': nat)
    requires n >= 1 && WellSized(seen, n)
    ensures t.animating ==> t == prev.(animating := true) && next' == next
    ensures !t.animating ==>
      IsSquare(t.grid, n) && IsSquare(t.specials, n) && NoNulls(t.grid, n) && next <= next' &&
      t == prev.(grid := t.grid, specials := t.specials, score := t.score, animating := false, fallingCandies := [])
    ensures !t.animating && (NoNulls(seen.grid, n) || MatchList(seen.grid, n) != []) ==> NoTriple(t.grid, n)
    ensures !t.animating && points >= 0 ==> t.score >= seen.score
    ensures !t.animating && points > 0 ==> (t.score > seen.score <==> MatchList(seen.grid, n) != [])
    ensures !t.animating && AllNormal(seen.specials, n) ==> AllNormal(t.specials, n)
    ensures fuel > 0 && MatchList(seen.grid, n) == [] && NoNulls(seen.grid, n) ==>
      t == prev.(grid := seen.grid, specials := seen.specials, score := seen.score,
                 animating := false, fallingCandies := []) && next' == next
  {
    t := prev.(animating := true);
    var outcome := RunCascade(seen.grid, seen.specials, n, points, seen.score, roll, next, fuel);
    if outcome.Done? {
      t := t.(grid := outcome.grid, specials := outcome.specials, score := outcome.score,
              animating := false, fallingCandies := []);
      next' := outcome.next;
    } else {
      next' := next;
    }
  }

  /**
   * `processCascade` run on the state it was created with: on the step that
   * finds no match the state holds the completed boards and the score,
   * stops animating and has no falling candies.
   */
  method ProcessCascade(s: GameState, n: int, points: int, roll: nat -> int, next: nat, fuel: nat)
    returns (t: GameState, next': nat)
    requires n >= 1 && WellSized(s, n)
    ensures t.animating ==> t == s.(animating := true) && next' == next
    ensures !t.animating ==>
      WellSized(t, n) && NoNulls(t.grid, n) && next <= next' &&
      t == s.(grid := t.grid, specials := t.specials, score := t.score, animating := false, fallingCandies := [])
    ensures !t.animating && (NoNulls(s.grid, n) || MatchList(s.grid, n) != []) ==> NoTriple(t.grid, n)
    ensures !t.animating && points >= 0 ==> t.score >= s.score
    ensures !t.animating && points > 0 ==> (t.score > s.score <==> MatchList(s.grid, n) != [])
    ensures !t.animating && AllNormal(s.specials, n) ==> AllNormal(t.specials, n)
    ensures fuel > 0 && MatchList(s.grid, n) == [] && NoNulls(s.grid, n) ==>
      t == s.(animating := false, fallingCandies := []) && next' == next
  {
    t, next' := CascadeFrom(s, s, n, points, roll, next, fuel);
  }

  /**
   * A kept swap followed by its cascade, as the code schedules it: the
   * timer calls the `processCascade` captured when `attemptSwap` was
   * created, which reads the boards and score from before the swap.  On a
   * settled board (full, no match) the cascade finds nothing and writes
   * the pre-swap boards and score back onto the swapped state: the swap is
   * undone, nothing is scored, and the move is still used up.
   */
  method MoveAsWritten(s: GameState, n: int, a: Cell, b: Cell, points: int, roll: nat -> int, next: nat, fuel: nat)
    returns (t: GameState, next': nat)
    requires n >= 1 && WellSized(s, n) && InBounds(a, n) && InBounds(b, n)
    ensures t.movesLeft == s.movesLeft || t.movesLeft == s.movesLeft - 1
    ensures t.movesLeft == s.movesLeft ==> t == s && next' == next
    ensures t.movesLeft < s.movesLeft <==> !s.animating && AreAdjacent(a, b) && MatchList(Swapped(s.grid, n, a, b), n) != []
    ensures t.movesLeft < s.movesLeft && fuel > 0 && NoNulls(s.grid, n) && MatchList(s.grid, n) == [] ==>
      t.grid == s.grid && t.specials == s.specials && t.score == s.score && !t.animating
  {
    var swapped, cascade := AttemptSwap(s, n, a, b);
    if !cascade {
      return s, next;
    }
    t, next' := CascadeFrom(swapped, s, n, points, roll, next, fuel);
  }

  /**
   * A settled 3 by 3 board on which a legal swap makes a match: exchanging
   * the last two cells of the right-hand column completes the bottom row.
   * `MoveAsWritten` turns this swap into a used move on the unchanged board.
   */
  lemma SwapLostOnSettledBoard()
    ensures var g: Grid := [[Some(0), Some(1), Some(2)], [Some(1), Some(2), Some(0)], [Some(0), Some(0), Some(1)]];
      var a, b := Cell(1, 2), Cell(2, 2);
      && IsSquare(g, 3) && NoNulls(g, 3) && MatchList(g, 3) == []
      && AreAdjacent(a, b) && MatchList(Swapped(g, 3, a, b), 3) != []
      && Swapped(g, 3, a, b) != g
  {
    var g: Grid := [[Some(0), Some(1), Some(2)], [Some(1), Some(2), Some(0)], [Some(0), Some(0), Some(1)]];
    var a, b := Cell(1, 2), Cell(2, 2);
    assert NoTriple(g, 3) by {
      forall r, c | 0 <= r < 3 && 0 <= c < 3
        ensures !Triple(g[r], c) && !Triple(Column(g, 3, c), r)
      {
        assert Column(g, 3, c) == [g[0][c], g[1][c], g[2][c]];
      }
    }
    NoMatchesIffNoTriple(g, 3);
    var h := Swapped(g, 3, a, b);
    assert h[2] == [Some(0), Some(0), Some(0)];
    TripleMatched(h, 3, 2, 0);
    assert h[2][2] != g[2][2];
  }

  /**
   * A kept swap followed by its cascade on the swapped boards, as the swap
   * evidently means it to be: when the cascade finishes, the board is full
   * with no window of three, and with positive points the score has grown.
   */
  method Move(s: GameState, n: int, a: Cell, b: Cell, points: int, roll: nat -> int, next: nat, fuel: nat)
    returns (t: GameState, next': nat)
    requires n >= 1 && WellSized(s, n) && InBounds(a, n) && InBounds(b, n)
    ensures t.movesLeft == s.movesLeft || t.movesLeft == s.movesLeft - 1
    ensures t.movesLeft == s.movesLeft ==> t == s && next' == next
    ensures t.movesLeft < s.movesLeft && !t.animating ==>
      WellSized(t, n) && NoNulls(t.grid, n) && NoTriple(t.grid, n) && (points > 0 ==> t.score > s.score)
  {
    var swapped, cascade := AttemptSwap(s, n, a, b);
    if !cascade {
      return s, next;
    }
    t, next' := ProcessCascade(swapped, n, points, roll, next, fuel);
  }
}
